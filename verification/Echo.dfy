/** The XDP echo responder: addresses swapped, the type turned into a reply, the
    checksum patched through `bpf_csum_diff`. */
module Echo {
  import opened Words
  import opened Checksum
  import opened Incremental
  import opened Packet
  import opened Parsing

  const ICMP_ECHO: byte := 8
  const ICMP_ECHOREPLY: byte := 0
  const ICMPV6_ECHO_REQUEST: byte := 128
  const ICMPV6_ECHO_REPLY: byte := 129

  // ---------------------------------------------------------------------------
  // Exchanging two adjacent fields.

  /** The `n` bytes at `off` and the `n` bytes behind them change places. */
  function Swapped(p: seq<byte>, off: nat, n: nat): (r: seq<byte>)
    requires off + 2 * n <= |p|
    ensures |r| == |p|
    ensures forall i {:trigger r[i]} :: 0 <= i < |p| ==>
              r[i] == if off <= i < off + n then p[i + n]
                      else if off + n <= i < off + 2 * n then p[i - n] else p[i]
  {
    p[..off] + p[off + n..off + 2 * n] + p[off..off + n] + p[off + 2 * n..]
  }

  /** `swap_src_dst_mac`, `swap_src_dst_ipv4` and `swap_src_dst_ipv6`: source and
      destination are adjacent fields of `n` bytes. */
  method SwapSrcDst(ctx: XdpMd, off: nat, n: nat)
    requires ctx.Valid() && off + 2 * n <= |ctx.Bytes()|
    modifies ctx.mem
    ensures ctx.Bytes() == Swapped(old(ctx.Bytes()), off, n)
  {
    var p := ctx.Bytes();
    var tmp := p[off..off + n];
    ctx.Write(off, p[off + n..off + 2 * n]);
    ctx.Write(off + n, tmp);
    SwapByCopies(p, off, n);
  }

  lemma SwapByCopies(p: seq<byte>, off: nat, n: nat)
    requires off + 2 * n <= |p|
    ensures Splice(Splice(p, off, p[off + n..off + 2 * n]), off + n, p[off..off + n]) == Swapped(p, off, n)
  {
    hide Splice, Swapped;
    var r := Splice(Splice(p, off, p[off + n..off + 2 * n]), off + n, p[off..off + n]);
    forall i | 0 <= i < |p|
      ensures r[i] == Swapped(p, off, n)[i]
    {
    }
  }

  /** Equal sums are accepted alike. */
  lemma OkBySum(s: seq<byte>, t: seq<byte>)
    requires Sum(Big, s) == Sum(Big, t)
    ensures ChecksumOk(s) <==> ChecksumOk(t)
  {
    OkIff(Big, s);
    OkIff(Big, t);
    SumZero(Big, s);
    SumZero(Big, t);
  }

  /** Exchanging fields of whole words leaves the sum as it is. */
  lemma SwappedSum(e: Endian, s: seq<byte>, off: nat, n: nat)
    requires off % 2 == 0 && n % 2 == 0 && off + 2 * n <= |s|
    ensures Sum(e, Swapped(s, off, n)) == Sum(e, s)
  {
    var a, b, c, d := s[..off], s[off..off + n], s[off + n..off + 2 * n], s[off + 2 * n..];
    FourParts(s, off, n);
    SwappedPartsSum(e, a, b, c, d);
  }

  lemma FourParts(s: seq<byte>, off: nat, n: nat)
    requires off + 2 * n <= |s|
    ensures var (a, b, c, d) := (s[..off], s[off..off + n], s[off + n..off + 2 * n], s[off + 2 * n..]);
            s == a + (b + (c + d)) && Swapped(s, off, n) == a + (c + (b + d))
  {
  }

  lemma SwappedPartsSum(e: Endian, a: seq<byte>, b: seq<byte>, c: seq<byte>, d: seq<byte>)
    requires |a| % 2 == 0 && |b| % 2 == 0 && |c| % 2 == 0
    ensures Sum(e, a + (b + (c + d))) == Sum(e, a + (c + (b + d)))
  {
    SumConcat(e, a, b + (c + d));
    SumConcat(e, b, c + d);
    SumConcat(e, c, d);
    SumConcat(e, a, c + (b + d));
    SumConcat(e, c, b + d);
    SumConcat(e, b, d);
  }

  // ---------------------------------------------------------------------------
  // The reply.

  /** `icmp_checksum_diff` over the four-byte common ICMP header. */
  function IcmpChecksumDiff(e: Endian, seed: u16, new_: seq<byte>, old_: seq<byte>): u16
    requires |new_| == 4 && |old_| == 4
  {
    CsumFoldHelper(BpfCsumDiff(e, old_, new_, seed))
  }

  /** The common header at `k` with its checksum cleared and another type. */
  function NewHeader(p: seq<byte>, k: nat, type_: byte): seq<byte>
    requires k + 4 <= |p|
  {
    [type_, p[k + 1], 0, 0]
  }

  /** The packet with the type and the checksum bytes of the header at `k` replaced. */
  function Marked(p: seq<byte>, k: nat, type_: byte, cs: seq<byte>): (r: seq<byte>)
    requires k + 4 <= |p| && |cs| == 2
    ensures |r| == |p|
    ensures forall i {:trigger r[i]} :: 0 <= i < |p| ==>
              r[i] == if i == k then type_ else if k + 2 <= i < k + 4 then cs[i - k - 2] else p[i]
  {
    Splice(Splice(p, k, NewHeader(p, k, type_)), k + 2, cs)
  }

  /** The checksum bytes that go with the new type. */
  function PatchedCsum(e: Endian, h: seq<byte>, type_: byte): (cs: seq<byte>)
    requires |h| == 4
    ensures |cs| == 2
  {
    Store16(e, IcmpChecksumDiff(e, Not16(Host16(e, h, 2)), NewHeader(h, 0, type_), [h[0], h[1], 0, 0]))
  }

  /** The packet with the ICMP type at `k` replaced and the checksum patched. */
  function Patched(e: Endian, p: seq<byte>, k: nat, type_: byte): seq<byte>
    requires k + 4 <= |p|
  {
    Marked(p, k, type_, PatchedCsum(e, p[k..k + 4], type_))
  }

  /** The headers `net` names fit the packet, with a common ICMP header behind them. */
  predicate Placed(p: seq<byte>, net: Net) {
    && net.Net? && 14 <= net.hdr && net.pos + 4 <= |p|
    && if net.v6 then net.hdr + 40 == net.pos else net.hdr + 20 <= net.pos
  }

  /** Where the two network addresses start, and how long each is. */
  function AddrOff(net: Net): nat
    requires net.Net?
  {
    net.hdr + if net.v6 then 8 else 12
  }

  function AddrLen(net: Net): nat
    requires net.Net?
  {
    if net.v6 then 16 else 4
  }

  /** Source and destination of both layers exchanged. */
  function Returned(p: seq<byte>, net: Net): seq<byte>
    requires Placed(p, net)
  {
    Swapped(Swapped(p, AddrOff(net), AddrLen(net)), 0, 6)
  }

  function ReplyType(net: Net): byte
    requires net.Net?
  {
    if net.v6 then ICMPV6_ECHO_REPLY else ICMP_ECHOREPLY
  }

  function RequestType(net: Net): byte
    requires net.Net?
  {
    if net.v6 then ICMPV6_ECHO_REQUEST else ICMP_ECHO
  }

  /** An echo request this program answers. */
  predicate IsRequest(p: seq<byte>, net: Net) {
    && Placed(p, net)
    && net.proto == (if net.v6 then IPPROTO_ICMPV6 else IPPROTO_ICMP)
    && p[net.pos] == RequestType(net)
  }

  function Reply(e: Endian, p: seq<byte>, net: Net): (r: seq<byte>)
    requires Placed(p, net)
    ensures |r| == |p|
  {
    Patched(e, Returned(p, net), net.pos, ReplyType(net))
  }

  /** The bytes a run leaves. */
  function EchoStep(e: Endian, p: seq<byte>): (r: seq<byte>)
    ensures |r| == |p|
  {
    var net := Dissect(p, VLAN_MAX_DEPTH);
    if IsRequest(p, net) then Reply(e, p, net) else p
  }

  /** `xdp_icmp_echo_func`, up to the recording of its action. */
  method XdpIcmpEcho(e: Endian, ctx: XdpMd) returns (action: int)
    requires ctx.Valid()
    modifies ctx.mem
    ensures var p := old(ctx.Bytes());
            action == if IsRequest(p, Dissect(p, VLAN_MAX_DEPTH)) then XDP_TX else XDP_PASS
    ensures ctx.Bytes() == EchoStep(e, old(ctx.Bytes()))
  {
    hide PatchedCsum;
    var p := ctx.Bytes();
    ghost var net := Dissect(p, VLAN_MAX_DEPTH);
    ChainInBounds(p, VLAN_MAX_DEPTH);
    var nh := new HdrCursor(0);
    var ethType, v6, ipType, iphdr := ParseHeaders(e, p, nh);
    if ipType != (if v6 then IPPROTO_ICMPV6 else IPPROTO_ICMP) {
      return XDP_PASS;
    }
    action := AnswerIcmp(e, ctx, nh, net, v6, iphdr);
  }

  /** The part of `xdp_icmp_echo_func` behind the network header. */
  method AnswerIcmp(e: Endian, ctx: XdpMd, nh: HdrCursor, ghost net: Net, v6: bool, iphdr: nat) returns (action: int)
    requires ctx.Valid() && net.Net? && nh.pos <= |ctx.Bytes()|
    requires net.pos + 4 <= |ctx.Bytes()| ==> Placed(ctx.Bytes(), net)
    requires net.v6 == v6 && net.hdr == iphdr && net.pos == nh.pos
    requires net.proto == if v6 then IPPROTO_ICMPV6 else IPPROTO_ICMP
    modifies ctx.mem, nh
    ensures action == if IsRequest(old(ctx.Bytes()), net) then XDP_TX else XDP_PASS
    ensures ctx.Bytes() == if action == XDP_TX then Reply(e, old(ctx.Bytes()), net) else old(ctx.Bytes())
  {
    hide PatchedCsum, Swapped, Patched, Splice, Store16;
    var icmpType, icmphdr := ParseIcmphdrCommon(ctx.Bytes(), nh);
    if icmpType != (if v6 then ICMPV6_ECHO_REQUEST else ICMP_ECHO) {
      return XDP_PASS;
    }
    var echoReply := if v6 then ICMPV6_ECHO_REPLY else ICMP_ECHOREPLY;
    SwapSrcDst(ctx, iphdr + if v6 then 8 else 12, if v6 then 16 else 4);
    SwapSrcDst(ctx, 0, 6);
    PatchIcmp(e, ctx, icmphdr, echoReply);
    action := XDP_TX;
  }

  /** Patches the ICMP header at `k` and updates its checksum. */
  method PatchIcmp(e: Endian, ctx: XdpMd, k: nat, type_: byte)
    requires ctx.Valid() && k + 4 <= |ctx.Bytes()|
    modifies ctx.mem
    ensures ctx.Bytes() == Patched(e, old(ctx.Bytes()), k, type_)
  {
    hide Store16, IcmpChecksumDiff;
    var q := ctx.Bytes();
    var oldCsum := Host16(e, q, k + 2);
    ctx.Write(k + 2, [0, 0]);
    var icmphdrOld := ctx.Bytes()[k..k + 4];
    ctx.Write(k, [type_]);
    var icmphdr := ctx.Bytes()[k..k + 4];
    assert icmphdrOld == [q[k], q[k + 1], 0, 0];
    assert icmphdr == NewHeader(q, k, type_);
    assert ctx.Bytes() == Splice(q, k, icmphdr);
    assert q[k..k + 4] == [q[k], q[k + 1], q[k + 2], q[k + 3]];
    ctx.Write(k + 2, Store16(e, IcmpChecksumDiff(e, Not16(oldCsum), icmphdr, icmphdrOld)));
  }

  // ---------------------------------------------------------------------------
  // What the reply is worth.

  /** Every byte of the packet except the exchanged addresses, the type and the
      checksum is the request's. */
  lemma ReplyBytes(e: Endian, p: seq<byte>, net: Net, i: nat)
    requires Placed(p, net) && i < |p| && !(net.pos + 2 <= i < net.pos + 4)
    ensures var (a, n) := (AddrOff(net), AddrLen(net));
            Reply(e, p, net)[i] ==
            if i < 6 then p[i + 6]
            else if i < 12 then p[i - 6]
            else if a <= i < a + n then p[i + n]
            else if a + n <= i < a + 2 * n then p[i - n]
            else if i == net.pos then ReplyType(net)
            else p[i]
  {
    MarkedBytes(p, net, i, PatchedCsum(e, Returned(p, net)[net.pos..net.pos + 4], ReplyType(net)));
  }

  lemma MarkedBytes(p: seq<byte>, net: Net, i: nat, cs: seq<byte>)
    requires Placed(p, net) && i < |p| && !(net.pos + 2 <= i < net.pos + 4) && |cs| == 2
    ensures var (a, n) := (AddrOff(net), AddrLen(net));
            Marked(Returned(p, net), net.pos, ReplyType(net), cs)[i] ==
            if i < 6 then p[i + 6]
            else if i < 12 then p[i - 6]
            else if a <= i < a + n then p[i + n]
            else if a + n <= i < a + 2 * n then p[i - n]
            else if i == net.pos then ReplyType(net)
            else p[i]
  {
    hide Marked, Swapped;
    var q := Swapped(p, AddrOff(net), AddrLen(net));
    assert Returned(p, net)[i] == if i < 6 then q[i + 6] else if i < 12 then q[i - 6] else q[i];
  }

  lemma SwappedSlice(p: seq<byte>, off: nat, n: nat, a: nat, b: nat)
    requires a <= off && off + 2 * n <= b <= |p|
    ensures Swapped(p, off, n)[a..b] == Swapped(p[a..b], off - a, n)
  {
    var m := off + n;
    var r := Swapped(p, off, n);
    forall i | 0 <= i < b - a
      ensures r[a..b][i] == Swapped(p[a..b], off - a, n)[i]
    {
      var u := p[a..b];
      assert r[a..b][i] == r[a + i] && u[i] == p[a + i];
      if off <= a + i < m {
        assert u[i + n] == p[a + i + n];
      } else if m <= a + i < m + n {
        assert u[i - n] == p[a + i - n];
      }
    }
  }

  lemma PatchedSlice(e: Endian, p: seq<byte>, k: nat, type_: byte, a: nat, b: nat)
    requires a <= k && k + 4 <= b <= |p|
    ensures Patched(e, p, k, type_)[a..b] == Patched(e, p[a..b], k - a, type_)
  {
    SliceSlice(p, a, b, k - a, k - a + 4);
    MarkedSlice(p, k, type_, PatchedCsum(e, p[k..k + 4], type_), a, b);
  }

  lemma MarkedSlice(p: seq<byte>, k: nat, type_: byte, cs: seq<byte>, a: nat, b: nat)
    requires a <= k && k + 4 <= b <= |p| && |cs| == 2
    ensures Marked(p, k, type_, cs)[a..b] == Marked(p[a..b], k - a, type_, cs)
  {
    var m, q := Marked(p, k, type_, cs), p[a..b];
    assert m[a..k] == q[..k - a] && m[k + 4..b] == q[k - a + 4..];
    assert m[k..k + 4] == [type_, q[k - a + 1], cs[0], cs[1]];
    assert m[a..b] == m[a..k] + m[k..k + 4] + m[k + 4..b];
    var r := Marked(q, k - a, type_, cs);
    assert r[..k - a] == q[..k - a] && r[k - a + 4..] == q[k - a + 4..];
    assert r[k - a..k - a + 4] == [type_, q[k - a + 1], cs[0], cs[1]];
    assert r == r[..k - a] + r[k - a..k - a + 4] + r[k - a + 4..];
  }

  /** Of the exchanges and the patch, the network header sees its own exchange
      and the message only the patch. */
  lemma ReplySlices(e: Endian, p: seq<byte>, net: Net, end: nat)
    requires Placed(p, net) && net.pos + 4 <= end <= |p|
    ensures Reply(e, p, net)[net.hdr..net.pos]
            == Swapped(p[net.hdr..net.pos], AddrOff(net) - net.hdr, AddrLen(net))
    ensures Reply(e, p, net)[net.pos..end] == Patched(e, p[net.pos..end], 0, ReplyType(net))
  {
    var q := Returned(p, net);
    ReturnedTail(p, net, end);
    PatchedSlice(e, q, net.pos, ReplyType(net), net.pos, end);
    HeaderSlice(p, net, PatchedCsum(e, q[net.pos..net.pos + 4], ReplyType(net)));
  }

  lemma ReturnedTail(p: seq<byte>, net: Net, end: nat)
    requires Placed(p, net) && net.pos <= end <= |p|
    ensures Returned(p, net)[net.pos..end] == p[net.pos..end]
  {
    forall i | net.pos <= i < end
      ensures Returned(p, net)[i] == p[i]
    {
    }
  }

  lemma HeaderSlice(p: seq<byte>, net: Net, cs: seq<byte>)
    requires Placed(p, net) && |cs| == 2
    ensures Marked(Returned(p, net), net.pos, ReplyType(net), cs)[net.hdr..net.pos]
            == Swapped(p[net.hdr..net.pos], AddrOff(net) - net.hdr, AddrLen(net))
  {
    var q := Returned(p, net);
    SwappedSlice(p, AddrOff(net), AddrLen(net), net.hdr, net.pos);
    assert Marked(q, net.pos, ReplyType(net), cs)[net.hdr..net.pos] == q[net.hdr..net.pos];
    assert q[net.hdr..net.pos] == Swapped(p, AddrOff(net), AddrLen(net))[net.hdr..net.pos];
  }

  /** The IPv4 header, whatever its length, stays as valid as it was. */
  lemma ReplyIp4HeaderOk(e: Endian, p: seq<byte>, net: Net)
    requires Placed(p, net) && !net.v6
    ensures ChecksumOk(Reply(e, p, net)[net.hdr..net.pos]) <==> ChecksumOk(p[net.hdr..net.pos])
  {
    var h := p[net.hdr..net.pos];
    ReplySlices(e, p, net, |p|);
    SwappedSum(Big, h, 12, 4);
    OkBySum(Swapped(h, 12, 4), h);
  }

  /** Patching an ICMP header behind any prefix of whole words: the result is
      accepted exactly when the original was and it is not all zero. */
  lemma PatchedOk(e: Endian, s: seq<byte>, k: nat, type_: byte)
    requires k % 2 == 0 && k + 4 <= |s| && s[k] != 0
    ensures ChecksumOk(Patched(e, s, k, type_)) <==>
              ChecksumOk(s) && !AllZero(Splice(s, k, NewHeader(s, k, type_)))
  {
    hide ChecksumOk, CsumFoldHelper, BpfCsumDiff, Exact, AllZero;
    var s0 := Cleared(s, k + 2);
    var to := NewHeader(s, k, type_);
    assert s0[k..k + |to|] == [s[k], s[k + 1], 0, 0];
    assert Splice(s0, k, to) == Splice(s, k, to);
    DiffReplaceExact(e, s, k + 2, k, to);
    NotAllZero(s, k);
  }

  lemma NotAllZero(s: seq<byte>, k: nat)
    requires k < |s| && s[k] != 0
    ensures !AllZero(s)
  {
  }

  /** IPv4: for every end of the message, the reply's ICMP checksum is accepted
      exactly when the request's was, except that a reply of nothing but zero
      bytes never is. */
  lemma ReplyIcmp4Ok(e: Endian, p: seq<byte>, net: Net, end: nat)
    requires IsRequest(p, net) && !net.v6 && net.pos + 4 <= end <= |p|
    ensures ChecksumOk(Reply(e, p, net)[net.pos..end]) <==>
              ChecksumOk(p[net.pos..end]) && !(p[net.pos + 1] == 0 && AllZero(p[net.pos + 4..end]))
  {
    var m := p[net.pos..end];
    ReplySlices(e, p, net, end);
    PatchedOk(e, m, 0, ICMP_ECHOREPLY);
    assert m[1] == p[net.pos + 1] && m[4..] == p[net.pos + 4..end];
    ZeroReply(m);
  }

  lemma ZeroReply(m: seq<byte>)
    requires 4 <= |m|
    ensures AllZero(Splice(m, 0, NewHeader(m, 0, 0))) <==> m[1] == 0 && AllZero(m[4..])
  {
    var z := Splice(m, 0, NewHeader(m, 0, 0));
    assert z == [0, m[1], 0, 0] + m[4..];
    assert z[4..] == m[4..] && z[1] == m[1];
    if m[1] == 0 && AllZero(m[4..]) {
      forall i | 0 <= i < |z|
        ensures z[i] == 0
      {
        if 4 <= i {
          assert z[i] == m[4..][i - 4];
        }
      }
    }
    if AllZero(z) {
      assert forall i :: 0 <= i < |m[4..]| ==> m[4..][i] == z[i + 4];
    }
  }

  /** The pseudo-header of section 2.3 of RFC 4443: both addresses, the length of
      the message and the next-header value. */
  function PseudoHeader6(header: seq<byte>, len: seq<byte>): (r: seq<byte>)
    requires |header| == 40 && |len| == 4
    ensures |r| == 40
  {
    header[8..40] + len + [0, 0, 0, IPPROTO_ICMPV6]
  }

  /** IPv6: for every end of the message and every length field, the reply's
      checksum over pseudo-header and message is accepted exactly when the
      request's was. */
  lemma ReplyIcmp6Ok(e: Endian, p: seq<byte>, net: Net, end: nat, len: seq<byte>)
    requires IsRequest(p, net) && net.v6 && |len| == 4 && net.pos + 4 <= end <= |p|
    ensures var r := Reply(e, p, net);
            ChecksumOk(PseudoHeader6(r[net.hdr..net.pos], len) + r[net.pos..end]) <==>
            ChecksumOk(PseudoHeader6(p[net.hdr..net.pos], len) + p[net.pos..end])
  {
    var h, m := p[net.hdr..net.pos], p[net.pos..end];
    ReplySlices(e, p, net, end);
    assert m[0] == p[net.pos];
    PseudoOk(e, h, m, len);
  }

  lemma PseudoOk(e: Endian, h: seq<byte>, m: seq<byte>, len: seq<byte>)
    requires |h| == 40 && 4 <= |m| && |len| == 4 && m[0] == ICMPV6_ECHO_REQUEST
    ensures ChecksumOk(PseudoHeader6(Swapped(h, 8, 16), len) + Patched(e, m, 0, ICMPV6_ECHO_REPLY)) <==>
              ChecksumOk(PseudoHeader6(h, len) + m)
  {
    hide PatchedCsum;
    var s := PseudoHeader6(h, len) + m;
    var t := PseudoHeader6(Swapped(h, 8, 16), len) + m;
    PseudoSwapped(h, m, len);
    SwappedSum(Big, s, 0, 16);
    OkBySum(s, t);
    assert t[40] == m[0];
    PatchedOk(e, t, 40, ICMPV6_ECHO_REPLY);
    assert Splice(t, 40, NewHeader(t, 40, ICMPV6_ECHO_REPLY))[40] == ICMPV6_ECHO_REPLY;
    PatchedTail(e, PseudoHeader6(Swapped(h, 8, 16), len), m, ICMPV6_ECHO_REPLY);
  }

  lemma PseudoSwapped(h: seq<byte>, m: seq<byte>, len: seq<byte>)
    requires |h| == 40 && |len| == 4
    ensures PseudoHeader6(Swapped(h, 8, 16), len) + m == Swapped(PseudoHeader6(h, len) + m, 0, 16)
  {
    hide Swapped;
    var s, t := Swapped(PseudoHeader6(h, len) + m, 0, 16), PseudoHeader6(Swapped(h, 8, 16), len) + m;
    forall i | 0 <= i < |s|
      ensures s[i] == t[i]
    {
    }
  }

  lemma PatchedTail(e: Endian, s: seq<byte>, m: seq<byte>, type_: byte)
    requires 4 <= |m|
    ensures Patched(e, s + m, |s|, type_) == s + Patched(e, m, 0, type_)
  {
    assert (s + m)[|s|..|s + m|] == m;
    PatchedSlice(e, s + m, |s|, type_, |s|, |s + m|);
    var r := Patched(e, s + m, |s|, type_);
    assert r[..|s|] == s;
    assert r == r[..|s|] + r[|s|..];
  }
}
