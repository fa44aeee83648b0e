/** Header parsing. The recursive functions say what each layer means; the
    methods walk a cursor over the packet as the helpers do, and a packet is a
    sequence, so every byte they read lies inside it. */
module Parsing {
  import opened Words

  const ETH_P_IP: u16 := 0x0800
  const ETH_P_IPV6: u16 := 0x86DD
  const ETH_P_8021Q: u16 := 0x8100
  const ETH_P_8021AD: u16 := 0x88A8
  const VLAN_VID_MODULUS: u16 := 0x1000
  const VLAN_MAX_DEPTH: nat := 2

  const IPPROTO_ICMP: byte := 1
  const IPPROTO_TCP: byte := 6
  const IPPROTO_UDP: byte := 17
  const IPPROTO_ICMPV6: byte := 58

  function Min(a: nat, b: nat): nat { if a <= b then a else b }

  // ---------------------------------------------------------------------------
  // VLAN tags.

  /** Tests a type as the wire carries it. */
  predicate IsVlan(proto: u16) {
    proto == ETH_P_8021Q || proto == ETH_P_8021AD
  }

  /** `proto_is_vlan`, which tests a type as the host loaded it. */
  predicate ProtoIsVlan(e: Endian, hProto: u16) {
    hProto == Htons(e, ETH_P_8021Q) || hProto == Htons(e, ETH_P_8021AD)
  }

  lemma ProtoIsVlanOnWire(e: Endian, proto: u16)
    ensures ProtoIsVlan(e, Htons(e, proto)) <==> IsVlan(proto)
  {
    HtonsInjective(e, proto, ETH_P_8021Q);
    HtonsInjective(e, proto, ETH_P_8021AD);
  }

  /** Where tag skipping stops: the position, the type found there, the IDs passed. */
  datatype Skip = Skip(pos: nat, proto: u16, ids: seq<u16>)

  /** Skips at most `depth` complete tags, the type `proto` standing before `pos`. */
  function SkipTags(p: seq<byte>, pos: nat, proto: u16, depth: nat): Skip
    decreases depth
  {
    if depth == 0 || !IsVlan(proto) || pos + 4 > |p| then Skip(pos, proto, [])
    else
      var r := SkipTags(p, pos + 4, Wire16(p, pos + 2), depth - 1);
      Skip(r.pos, r.proto, [Wire16(p, pos) % VLAN_VID_MODULUS] + r.ids)
  }

  /** How many complete tags stand in a row, with no limit. */
  function CompleteTags(p: seq<byte>, pos: nat, proto: u16): nat
    decreases |p| - pos
  {
    if !IsVlan(proto) || pos + 4 > |p| then 0 else 1 + CompleteTags(p, pos + 4, Wire16(p, pos + 2))
  }

  /** The type that stands after `n` tags. */
  function TypeAfter(p: seq<byte>, pos: nat, proto: u16, n: nat): u16
    requires n > 0 ==> pos + 4 * n <= |p|
  {
    if n == 0 then proto else Wire16(p, pos + 4 * n - 2)
  }

  lemma {:induction false} CompleteTagsFit(p: seq<byte>, pos: nat, proto: u16)
    ensures CompleteTags(p, pos, proto) > 0 ==> pos + 4 * CompleteTags(p, pos, proto) <= |p|
    decreases |p| - pos
  {
    if IsVlan(proto) && pos + 4 <= |p| {
      CompleteTagsFit(p, pos + 4, Wire16(p, pos + 2));
    }
  }

  /** Any depth skips exactly the complete tags it is allowed to, collects
      exactly their 12-bit IDs, and stops at the type behind the last one. */
  lemma {:induction false} SkipTagsMeaning(p: seq<byte>, pos: nat, proto: u16, depth: nat)
    ensures var r := SkipTags(p, pos, proto, depth);
            var n := Min(depth, CompleteTags(p, pos, proto));
            && (n > 0 ==> pos + 4 * n <= |p|)
            && r.pos == pos + 4 * n
            && r.proto == TypeAfter(p, pos, proto, n)
            && |r.ids| == n
            && (forall i :: 0 <= i < n ==> r.ids[i] == Wire16(p, pos + 4 * i) % VLAN_VID_MODULUS)
    decreases depth
  {
    CompleteTagsFit(p, pos, proto);
    if depth > 0 && IsVlan(proto) && pos + 4 <= |p| {
      var proto' := Wire16(p, pos + 2);
      SkipTagsMeaning(p, pos + 4, proto', depth - 1);
      var r := SkipTags(p, pos, proto, depth);
      var r' := SkipTags(p, pos + 4, proto', depth - 1);
      forall i | 0 <= i < |r.ids|
        ensures r.ids[i] == Wire16(p, pos + 4 * i) % VLAN_VID_MODULUS
      {
        if i > 0 {
          assert r.ids[i] == r'.ids[i - 1];
          assert pos + 4 + 4 * (i - 1) == pos + 4 * i;
        }
      }
    }
  }

  /** Two depths give the same result exactly when they pass the same number of
      tags; in particular whenever neither is below the number of tags. */
  lemma DepthsAgree(p: seq<byte>, pos: nat, proto: u16, d1: nat, d2: nat)
    ensures var c := CompleteTags(p, pos, proto);
            SkipTags(p, pos, proto, d1) == SkipTags(p, pos, proto, d2) <==> Min(d1, c) == Min(d2, c)
  {
    SkipTagsMeaning(p, pos, proto, d1);
    SkipTagsMeaning(p, pos, proto, d2);
    var r1, r2 := SkipTags(p, pos, proto, d1), SkipTags(p, pos, proto, d2);
    if Min(d1, CompleteTags(p, pos, proto)) == Min(d2, CompleteTags(p, pos, proto)) {
      assert r1.ids == r2.ids;
    }
  }

  /** Tag skipping looks only at the bytes from `pos` on. */
  lemma {:induction false} SkipTagsSuffix(p: seq<byte>, pos: nat, q: seq<byte>, qos: nat, proto: u16, depth: nat)
    requires pos <= |p| && qos <= |q| && p[pos..] == q[qos..]
    ensures var r, s := SkipTags(p, pos, proto, depth), SkipTags(q, qos, proto, depth);
            r.proto == s.proto && r.ids == s.ids && r.pos - pos == s.pos - qos
    ensures CompleteTags(p, pos, proto) == CompleteTags(q, qos, proto)
    decreases |p| - pos
  {
    assert |p| - pos == |q| - qos;
    if IsVlan(proto) && pos + 4 <= |p| {
      var u, v := p[pos..], q[qos..];
      assert p[pos] == u[0] && p[pos + 1] == u[1] && p[pos + 2] == u[2] && p[pos + 3] == u[3];
      assert q[qos] == v[0] && q[qos + 1] == v[1] && q[qos + 2] == v[2] && q[qos + 3] == v[3];
      assert p[pos + 4..] == p[pos..][4..] && q[qos + 4..] == q[qos..][4..];
      SkipTagsSuffix(p, pos + 4, q, qos + 4, Wire16(p, pos + 2), if depth == 0 then 0 else depth - 1);
    }
  }

  // ---------------------------------------------------------------------------
  // The layers above.

  function Ip4HdrLen(p: seq<byte>, pos: nat): nat
    requires pos < |p|
  {
    p[pos] % 16 * 4
  }

  /** An IPv4 header, options included, stands complete at `pos`. */
  predicate Ip4Complete(p: seq<byte>, pos: nat) {
    pos + 20 <= |p| && 20 <= Ip4HdrLen(p, pos) && pos + Ip4HdrLen(p, pos) <= |p|
  }

  function TcpHdrLen(p: seq<byte>, pos: nat): nat
    requires pos + 13 <= |p|
  {
    p[pos + 12] / 16 * 4
  }

  predicate TcpComplete(p: seq<byte>, pos: nat) {
    pos + 20 <= |p| && 20 <= TcpHdrLen(p, pos) && pos + TcpHdrLen(p, pos) <= |p|
  }

  /** The network layer: its header at `hdr`, its payload of type `proto` at `pos`. */
  datatype Net = NoNet | Net(v6: bool, hdr: nat, pos: nat, proto: byte)

  function ParseNet(p: seq<byte>, pos: nat, etherType: u16): Net {
    if etherType == ETH_P_IP && Ip4Complete(p, pos) then
      Net(false, pos, pos + Ip4HdrLen(p, pos), p[pos + 9])
    else if etherType == ETH_P_IPV6 && pos + 40 <= |p| then
      Net(true, pos, pos + 40, p[pos + 6])
    else NoNet
  }

  /** Ethernet, tags and network layer of a frame. */
  function Dissect(p: seq<byte>, depth: nat): Net {
    if |p| < 14 then NoNet
    else
      var s := SkipTags(p, 14, Wire16(p, 12), depth);
      ParseNet(p, s.pos, s.proto)
  }

  /** The transport layer: header at `hdr`, cursor left at `pos`, value returned. */
  datatype Transport = NoTransport | Transport(hdr: nat, pos: nat, value: nat)

  function ParseIcmp(p: seq<byte>, pos: nat): Transport {
    if pos + 4 > |p| then NoTransport else Transport(pos, pos + 4, p[pos])
  }

  function ParseUdp(p: seq<byte>, pos: nat): Transport {
    if pos + 8 > |p| || Wire16(p, pos + 4) < 8 then NoTransport
    else Transport(pos, pos + 8, Wire16(p, pos + 4) - 8)
  }

  function ParseTcp(p: seq<byte>, pos: nat): Transport {
    if !TcpComplete(p, pos) then NoTransport
    else Transport(pos, pos + TcpHdrLen(p, pos), TcpHdrLen(p, pos))
  }

  function ParseTransport(p: seq<byte>, net: Net): Transport
    requires net.Net?
  {
    if net.proto == (if net.v6 then IPPROTO_ICMPV6 else IPPROTO_ICMP) then ParseIcmp(p, net.pos)
    else if net.proto == IPPROTO_UDP then ParseUdp(p, net.pos)
    else if net.proto == IPPROTO_TCP then ParseTcp(p, net.pos)
    else NoTransport
  }

  /** Each layer starts where the last one ended, and ends inside the packet. */
  lemma ChainInBounds(p: seq<byte>, depth: nat)
    ensures var net := Dissect(p, depth);
            net.Net? ==>
              && 14 <= net.hdr && net.hdr + 20 <= net.pos <= |p|
              && net.hdr == 14 + 4 * Min(depth, CompleteTags(p, 14, Wire16(p, 12)))
              && (var t := ParseTransport(p, net);
                  t.Transport? ==> net.pos == t.hdr && t.hdr + 4 <= t.pos <= |p|)
  {
    if 14 <= |p| {
      SkipTagsMeaning(p, 14, Wire16(p, 12), depth);
    }
  }

  lemma {:induction false} SkipTagsStable(p: seq<byte>, t: seq<byte>, pos: nat, proto: u16, depth: nat)
    requires var r := SkipTags(p, pos, proto, depth);
             !IsVlan(r.proto) || |r.ids| == depth
    ensures SkipTags(p + t, pos, proto, depth) == SkipTags(p, pos, proto, depth)
    decreases depth
  {
    if depth > 0 && IsVlan(proto) && pos + 4 <= |p| {
      assert Wire16(p + t, pos + 2) == Wire16(p, pos + 2);
      SkipTagsStable(p, t, pos + 4, Wire16(p, pos + 2), depth - 1);
    }
  }

  /** Appending bytes changes what the Ethernet layer finds exactly when skipping
      stopped on a truncated tag that the new bytes complete. */
  lemma SkipTagsStableIff(p: seq<byte>, t: seq<byte>, pos: nat, proto: u16, depth: nat)
    requires pos <= |p|
    ensures var r := SkipTags(p, pos, proto, depth);
            SkipTags(p + t, pos, proto, depth) == r <==>
            !IsVlan(r.proto) || |r.ids| == depth || r.pos + 4 > |p| + |t|
  {
    var r := SkipTags(p, pos, proto, depth);
    if !IsVlan(r.proto) || |r.ids| == depth {
      SkipTagsStable(p, t, pos, proto, depth);
    } else {
      SkipTagsResume(p, t, pos, proto, depth);
    }
  }

  /** Skipping over an extended packet goes on from where it stopped before. */
  lemma {:induction false} SkipTagsResume(p: seq<byte>, t: seq<byte>, pos: nat, proto: u16, depth: nat)
    ensures var r := SkipTags(p, pos, proto, depth);
            |r.ids| <= depth &&
            var s := SkipTags(p + t, r.pos, r.proto, depth - |r.ids|);
            SkipTags(p + t, pos, proto, depth) == Skip(s.pos, s.proto, r.ids + s.ids)
    decreases depth
  {
    hide IsVlan, Load16;
    var r := SkipTags(p, pos, proto, depth);
    if depth > 0 && IsVlan(proto) && pos + 4 <= |p| {
      WireAppended(p, t, pos);
      WireAppended(p, t, pos + 2);
      SkipTagsResume(p, t, pos + 4, Wire16(p, pos + 2), depth - 1);
      var r' := SkipTags(p, pos + 4, Wire16(p, pos + 2), depth - 1);
      var s := SkipTags(p + t, r.pos, r.proto, depth - |r.ids|);
      assert r.ids + s.ids == [Wire16(p, pos) % VLAN_VID_MODULUS] + (r'.ids + s.ids);
    } else {
      assert r.ids == [];
      var s := SkipTags(p + t, pos, proto, depth);
      assert [] + s.ids == s.ids;
    }
  }

  lemma WireAppended(p: seq<byte>, t: seq<byte>, off: nat)
    requires off + 2 <= |p|
    ensures Wire16(p + t, off) == Wire16(p, off)
  {
  }

  /** When every layer parses, appending bytes changes no result. */
  lemma ChainStable(p: seq<byte>, t: seq<byte>, depth: nat)
    requires Dissect(p, depth).Net?
    ensures Dissect(p + t, depth) == Dissect(p, depth)
    ensures var net := Dissect(p, depth);
            ParseTransport(p, net).Transport? ==> ParseTransport(p + t, net) == ParseTransport(p, net)
  {
    var s := SkipTags(p, 14, Wire16(p, 12), depth);
    assert Wire16(p + t, 12) == Wire16(p, 12);
    SkipTagsStable(p, t, 14, Wire16(p, 12), depth);
    var net := Dissect(p, depth);
    assert forall i :: 0 <= i < |p| ==> (p + t)[i] == p[i];
    if ParseTransport(p, net).Transport? && net.pos + 8 <= |p| {
      assert Wire16(p + t, net.pos + 4) == Wire16(p, net.pos + 4);
    }
  }

  // ---------------------------------------------------------------------------
  // The helpers.

  class HdrCursor {
    var pos: nat

    constructor (pos: nat)
      ensures this.pos == pos
    {
      this.pos := pos;
    }
  }

  /** The collector holds the first `n` IDs and is otherwise untouched. */
  ghost predicate Collected(now: seq<u16>, before: seq<u16>, ids: seq<u16>, n: nat) {
    n <= |ids| && |now| == |before| &&
    forall j :: 0 <= j < |now| ==> now[j] == if j < n then ids[j] else before[j]
  }

  /** `i` tags of the walk that gives `whole` are behind `pos`. */
  ghost predicate WalkedTo(p: seq<byte>, whole: Skip, i: nat, pos: nat, proto: u16, depth: nat) {
    i <= |whole.ids| && i <= depth &&
    SkipTags(p, pos, proto, depth - i) == Skip(whole.pos, whole.proto, whole.ids[i..])
  }

  lemma WalkStep(p: seq<byte>, whole: Skip, i: nat, pos: nat, proto: u16, depth: nat)
    requires WalkedTo(p, whole, i, pos, proto, depth)
    ensures if i < depth && IsVlan(proto) && pos + 4 <= |p| then
              && WalkedTo(p, whole, i + 1, pos + 4, Wire16(p, pos + 2), depth)
              && whole.ids[i] == Wire16(p, pos) % VLAN_VID_MODULUS
            else whole.pos == pos && whole.proto == proto && |whole.ids| == i
  {
    if i < depth && IsVlan(proto) && pos + 4 <= |p| {
      var r := SkipTags(p, pos + 4, Wire16(p, pos + 2), depth - i - 1);
      assert whole.ids[i..] == [Wire16(p, pos) % VLAN_VID_MODULUS] + r.ids;
      assert whole.ids[i + 1..] == whole.ids[i..][1..] == r.ids;
      assert whole.ids[i] == whole.ids[i..][0];
    } else {
      assert |whole.ids[i..]| == 0;
    }
  }

  /** `parse_ethhdr_vlan`: returns -1 or the next type as the host loads it, the
      position of the Ethernet header, and the IDs in the collector when one is
      given. `depth` is VLAN_MAX_DEPTH of the including program. */
  method ParseEthhdrVlan(e: Endian, p: seq<byte>, nh: HdrCursor, depth: nat, vlans: array?<u16>)
    returns (ret: int, ethhdr: nat)
    requires vlans != null ==> vlans.Length == depth
    modifies nh, if vlans == null then {} else {vlans}
    ensures ret == -1 <==> old(nh.pos) + 14 > |p|
    ensures ret == -1 ==> nh.pos == old(nh.pos) && (vlans != null ==> vlans[..] == old(vlans[..]))
    ensures ret != -1 ==>
              var s := SkipTags(p, old(nh.pos) + 14, Wire16(p, old(nh.pos) + 12), depth);
              && ret == Htons(e, s.proto) && nh.pos == s.pos && ethhdr == old(nh.pos)
              && (vlans != null ==> Collected(vlans[..], old(vlans[..]), s.ids, |s.ids|))
              && (vlans != null ==> forall j {:trigger vlans[j]} :: 0 <= j < depth ==>
                    vlans[j] == if j < |s.ids| then s.ids[j] else old(vlans[j]))
    ensures ret != -1 ==> old(nh.pos) + 14 <= nh.pos <= |p|
  {
    ethhdr := nh.pos;
    if nh.pos + 14 > |p| {
      return -1, ethhdr;
    }
    nh.pos := nh.pos + 14;
    HostIsHtonsOfWire(e, p, ethhdr + 12);
    var hProto := Host16(e, p, ethhdr + 12);
    SkipTagsMeaning(p, ethhdr + 14, Wire16(p, ethhdr + 12), depth);
    var vlh;
    ret, vlh := WalkTags(e, p, nh.pos, hProto, Wire16(p, ethhdr + 12), depth, vlans);
    nh.pos := vlh;
    assert vlans != null ==> forall j {:trigger vlans[j]} :: 0 <= j < depth ==> vlans[j] == vlans[..][j];
  }

  /** The tag loop of `parse_ethhdr_vlan`. */
  method WalkTags(e: Endian, p: seq<byte>, pos: nat, hProto: u16, ghost proto: u16, depth: nat, vlans: array?<u16>)
    returns (ret: u16, vlh: nat)
    requires pos <= |p| && hProto == Htons(e, proto)
    requires vlans != null ==> vlans.Length == depth
    modifies if vlans == null then {} else {vlans}
    ensures var s := SkipTags(p, pos, proto, depth);
            && ret == Htons(e, s.proto) && vlh == s.pos
            && (vlans != null ==> Collected(vlans[..], old(vlans[..]), s.ids, |s.ids|))
  {
    vlh, ret := pos, hProto;
    ghost var type_ := proto;
    ghost var whole := SkipTags(p, vlh, proto, depth);
    ProtoIsVlanOnWire(e, proto);
    var isVlan := ProtoIsVlan(e, hProto);
    var i := 0;
    while i < depth && isVlan && vlh + 4 <= |p|
      invariant WalkedTo(p, whole, i, vlh, type_, depth)
      invariant ret == Htons(e, type_) && isVlan == IsVlan(type_)
      invariant vlans != null ==> Collected(vlans[..], old(vlans[..]), whole.ids, i)
    {
      WalkStep(p, whole, i, vlh, type_, depth);
      type_ := Wire16(p, vlh + 2);
      var id;
      id, ret, isVlan := LoadTag(e, p, vlh);
      if vlans != null {
        vlans[i] := id;
      }
      vlh := vlh + 4;
      i := i + 1;
    }
    WalkStep(p, whole, i, vlh, type_, depth);
  }

  /** Loads the ID of the tag at `pos`, the type behind it, and whether that is another tag. */
  method LoadTag(e: Endian, p: seq<byte>, pos: nat) returns (id: u16, hProto: u16, isVlan: bool)
    requires pos + 4 <= |p|
    ensures id == Wire16(p, pos) % VLAN_VID_MODULUS
    ensures hProto == Htons(e, Wire16(p, pos + 2)) && isVlan == IsVlan(Wire16(p, pos + 2))
  {
    HostIsHtonsOfWire(e, p, pos + 2);
    ProtoIsVlanOnWire(e, Wire16(p, pos + 2));
    id := Ntohs16(e, p, pos) % VLAN_VID_MODULUS;
    hProto := Host16(e, p, pos + 2);
    isVlan := ProtoIsVlan(e, hProto);
  }

  /** `parse_ethhdr`, which passes no collector. */
  method ParseEthhdr(e: Endian, p: seq<byte>, nh: HdrCursor) returns (ret: int, ethhdr: nat)
    modifies nh
    ensures ret == -1 <==> old(nh.pos) + 14 > |p|
    ensures ret == -1 ==> nh.pos == old(nh.pos)
    ensures ret != -1 ==>
              var s := SkipTags(p, old(nh.pos) + 14, Wire16(p, old(nh.pos) + 12), VLAN_MAX_DEPTH);
              ret == Htons(e, s.proto) && nh.pos == s.pos && ethhdr == old(nh.pos)
    ensures ret != -1 ==> old(nh.pos) + 14 <= nh.pos <= |p|
  {
    ret, ethhdr := ParseEthhdrVlan(e, p, nh, VLAN_MAX_DEPTH, null);
  }

  /** The separate copy of `parse_ethhdr` in the vlan01 program, of depth 8. */
  method ParseEthhdrVlan01(e: Endian, p: seq<byte>, nh: HdrCursor) returns (ret: int, ethhdr: nat)
    modifies nh
    ensures ret == -1 <==> old(nh.pos) + 14 > |p|
    ensures ret == -1 ==> nh.pos == old(nh.pos)
    ensures ret != -1 ==>
              var s := SkipTags(p, old(nh.pos) + 14, Wire16(p, old(nh.pos) + 12), 8);
              ret == Htons(e, s.proto) && nh.pos == s.pos && ethhdr == old(nh.pos)
  {
    hide Htons, ProtoIsVlan;
    ethhdr := nh.pos;
    if nh.pos + 14 > |p| {
      return -1, ethhdr;
    }
    nh.pos := nh.pos + 14;
    var vlh: nat := nh.pos;
    var hProto := Host16(e, p, ethhdr + 12);
    HostIsHtonsOfWire(e, p, ethhdr + 12);
    ghost var proto := Wire16(p, ethhdr + 12);
    ghost var whole := SkipTags(p, vlh, proto, 8);
    ProtoIsVlanOnWire(e, proto);
    var i := 0;
    while i < 8 && ProtoIsVlan(e, hProto) && vlh + 4 <= |p|
      invariant 0 <= i <= 8 && vlh <= |p|
      invariant hProto == Htons(e, proto) && (ProtoIsVlan(e, hProto) <==> IsVlan(proto))
      invariant var r := SkipTags(p, vlh, proto, 8 - i);
                whole.pos == r.pos && whole.proto == r.proto
    {
      HostIsHtonsOfWire(e, p, vlh + 2);
      hProto := Host16(e, p, vlh + 2);
      proto := Wire16(p, vlh + 2);
      ProtoIsVlanOnWire(e, proto);
      vlh := vlh + 4;
      i := i + 1;
    }
    assert SkipTags(p, vlh, proto, 8 - i) == Skip(vlh, proto, []);
    nh.pos := vlh;
    ret := hProto;
  }

  method ParseIphdr(p: seq<byte>, nh: HdrCursor) returns (ret: int, iphdr: nat)
    requires nh.pos <= |p|
    modifies nh
    ensures ret == if Ip4Complete(p, old(nh.pos)) then p[old(nh.pos) + 9] else -1
    ensures nh.pos == if ret == -1 then old(nh.pos) else old(nh.pos) + Ip4HdrLen(p, old(nh.pos))
    ensures iphdr == old(nh.pos) && old(nh.pos) <= nh.pos <= |p|
  {
    iphdr := nh.pos;
    if iphdr + 20 > |p| {
      return -1, iphdr;
    }
    var hdrsize := p[iphdr] % 16 * 4;
    if hdrsize < 20 || nh.pos + hdrsize > |p| {
      return -1, iphdr;
    }
    nh.pos := nh.pos + hdrsize;
    ret := p[iphdr + 9];
  }

  method ParseIp6hdr(p: seq<byte>, nh: HdrCursor) returns (ret: int, ip6hdr: nat)
    requires nh.pos <= |p|
    modifies nh
    ensures ret == if old(nh.pos) + 40 <= |p| then p[old(nh.pos) + 6] else -1
    ensures nh.pos == if ret == -1 then old(nh.pos) else old(nh.pos) + 40
    ensures ip6hdr == old(nh.pos) && old(nh.pos) <= nh.pos <= |p|
  {
    ip6hdr := nh.pos;
    if ip6hdr + 40 > |p| {
      return -1, ip6hdr;
    }
    nh.pos := ip6hdr + 40;
    ret := p[ip6hdr + 6];
  }

  method ParseIcmphdrCommon(p: seq<byte>, nh: HdrCursor) returns (ret: int, icmphdr: nat)
    requires nh.pos <= |p|
    modifies nh
    ensures var t := ParseIcmp(p, old(nh.pos));
            ret == (if t.Transport? then t.value else -1) && nh.pos == if t.Transport? then t.pos else old(nh.pos)
    ensures icmphdr == old(nh.pos) && old(nh.pos) <= nh.pos <= |p|
  {
    icmphdr := nh.pos;
    if icmphdr + 4 > |p| {
      return -1, icmphdr;
    }
    nh.pos := icmphdr + 4;
    ret := p[icmphdr];
  }

  /** `parse_udphdr`; a length field below 8 is refused after the cursor has moved. */
  method ParseUdphdr(e: Endian, p: seq<byte>, nh: HdrCursor) returns (ret: int, udphdr: nat)
    requires nh.pos <= |p|
    modifies nh
    ensures var t := ParseUdp(p, old(nh.pos));
            ret == if t.Transport? then t.value else -1
    ensures nh.pos == if old(nh.pos) + 8 <= |p| then old(nh.pos) + 8 else old(nh.pos)
    ensures udphdr == old(nh.pos) && old(nh.pos) <= nh.pos <= |p|
  {
    udphdr := nh.pos;
    if udphdr + 8 > |p| {
      return -1, udphdr;
    }
    nh.pos := udphdr + 8;
    var len := Ntohs16(e, p, udphdr + 4) as int - 8;
    if len < 0 {
      return -1, udphdr;
    }
    ret := len;
  }

  method ParseTcphdr(p: seq<byte>, nh: HdrCursor) returns (ret: int, tcphdr: nat)
    requires nh.pos <= |p|
    modifies nh
    ensures var t := ParseTcp(p, old(nh.pos));
            ret == (if t.Transport? then t.value else -1) && nh.pos == if t.Transport? then t.pos else old(nh.pos)
    ensures tcphdr == old(nh.pos) && old(nh.pos) <= nh.pos <= |p|
  {
    tcphdr := nh.pos;
    if tcphdr + 20 > |p| {
      return -1, tcphdr;
    }
    var len := p[tcphdr + 12] / 16 * 4;
    if len < 20 || nh.pos + len > |p| {
      return -1, tcphdr;
    }
    nh.pos := nh.pos + len;
    ret := len;
  }

  /** The opening every program shares: Ethernet with its tags, then the IPv4 or
      IPv6 header, from the start of the packet. Both types are -1 when their
      header is missing or of another kind. */
  method ParseHeaders(e: Endian, p: seq<byte>, nh: HdrCursor)
    returns (ethType: int, v6: bool, ipType: int, iphdr: nat)
    requires nh.pos == 0
    modifies nh
    ensures ethType < 0 <==> |p| < 14
    ensures nh.pos <= |p| || |p| < 14
    ensures var net := Dissect(p, VLAN_MAX_DEPTH);
            if net.Net? then v6 == net.v6 && iphdr == net.hdr && nh.pos == net.pos && ipType == net.proto
            else ipType == -1
  {
    v6, ipType, iphdr := false, -1, 0;
    var eth;
    ethType, eth := ParseEthhdr(e, p, nh);
    if ethType < 0 {
      return;
    }
    ghost var proto := SkipTags(p, 14, Wire16(p, 12), VLAN_MAX_DEPTH).proto;
    HtonsInjective(e, proto, ETH_P_IP);
    HtonsInjective(e, proto, ETH_P_IPV6);
    if ethType == Htons(e, ETH_P_IP) {
      ipType, iphdr := ParseIphdr(p, nh);
    } else if ethType == Htons(e, ETH_P_IPV6) {
      v6 := true;
      ipType, iphdr := ParseIp6hdr(p, nh);
    }
  }
}
