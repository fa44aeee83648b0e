/** The XDP router: lookup, TTL decrement with the checksum patched in place,
    new Ethernet addresses; and chains of such hops. */
module Router {
  import opened Words
  import opened Checksum
  import opened Incremental
  import opened Packet
  import opened Parsing

  const FIB_SUCCESS: int := 0
  const FIB_BLACKHOLE: int := 1
  const FIB_UNREACHABLE: int := 2
  const FIB_PROHIBIT: int := 3

  type Mac = s: seq<byte> | |s| == 6 witness [0, 0, 0, 0, 0, 0]

  /** What the program hands to `bpf_fib_lookup`. */
  datatype FibParams = FibParams(v6: bool, tos: seq<byte>, l4: byte, totLen: u16, src: seq<byte>, dst: seq<byte>)

  /** What the lookup answers; the addresses mean something on success only. */
  datatype FibResult = FibResult(rc: int, dmac: Mac, smac: Mac)

  /** The routing table of one hop, of which nothing is assumed. */
  type Lookup = FibParams -> FibResult

  // ---------------------------------------------------------------------------
  // One packet.

  /** The checksum `ip_decrease_ttl` stores: a 32-bit add, its carry folded by hand. */
  function DecreaseTtlCsum(e: Endian, check: u16): u16 {
    var c := check + Htons(e, 0x0100);
    (c + if c >= 0xFFFF then 1 else 0) % 0x1_0000
  }

  predicate IsIp4(p: seq<byte>) { 34 <= |p| && Wire16(p, 12) == ETH_P_IP }

  predicate IsIp6(p: seq<byte>) { 54 <= |p| && Wire16(p, 12) == ETH_P_IPV6 }

  /** Where the TTL or hop limit stands. */
  function LifeOff(p: seq<byte>): nat { if IsIp4(p) then 22 else 21 }

  function Life(p: seq<byte>): byte {
    if IsIp4(p) || IsIp6(p) then p[LifeOff(p)] else 0
  }

  function Params(p: seq<byte>): FibParams
    requires IsIp4(p) || IsIp6(p)
  {
    if IsIp4(p) then FibParams(false, [p[15]], p[23], Wire16(p, 16), p[26..30], p[30..34])
    else FibParams(true, [p[14] % 16] + p[15..18], p[20], Wire16(p, 18), p[22..38], p[38..54])
  }

  predicate Truncated(p: seq<byte>) {
    |p| < 14 || (Wire16(p, 12) == ETH_P_IP && |p| < 34) || (Wire16(p, 12) == ETH_P_IPV6 && |p| < 54)
  }

  /** The packet as it leaves the hop. */
  function Forwarded(e: Endian, p: seq<byte>, r: FibResult): (q: seq<byte>)
    requires (IsIp4(p) || IsIp6(p)) && Life(p) > 1
    ensures |q| == |p|
  {
    var p1 := if IsIp4(p) then Splice(p, 24, Store16(e, DecreaseTtlCsum(e, Host16(e, p, 24)))) else p;
    var p2 := Splice(p1, LifeOff(p), [Life(p) - 1]);
    Splice(Splice(p2, 0, r.dmac), 6, r.smac)
  }

  function RouterAction(p: seq<byte>, lookup: Lookup): int {
    if Truncated(p) then XDP_DROP
    else if Life(p) <= 1 then XDP_PASS
    else
      var rc := lookup(Params(p)).rc;
      if rc == FIB_SUCCESS then XDP_REDIRECT
      else if rc == FIB_BLACKHOLE || rc == FIB_UNREACHABLE || rc == FIB_PROHIBIT then XDP_DROP
      else XDP_PASS
  }

  /** One run: the bytes change only when the packet is forwarded. */
  function RouterStep(e: Endian, p: seq<byte>, lookup: Lookup): (q: seq<byte>)
    ensures |q| == |p|
  {
    if RouterAction(p, lookup) == XDP_REDIRECT then Forwarded(e, p, lookup(Params(p))) else p
  }

  /** `ip_decrease_ttl` on the IPv4 header at `iph`, whose TTL the caller has tested. */
  method IpDecreaseTtl(e: Endian, ctx: XdpMd, iph: nat) returns (ttl: byte)
    requires ctx.Valid() && iph + 20 <= |ctx.Bytes()| && ctx.Bytes()[iph + 8] > 0
    modifies ctx.mem
    ensures ttl == old(ctx.Bytes())[iph + 8] - 1
    ensures var p := old(ctx.Bytes());
            ctx.Bytes() == Splice(Splice(p, iph + 10, Store16(e, DecreaseTtlCsum(e, Host16(e, p, iph + 10)))),
                                  iph + 8, [ttl])
  {
    hide Splice, Store16, Host16, Htons;
    var p := ctx.Bytes();
    ttl := p[iph + 8] - 1;
    var check := Host16(e, p, iph + 10) + Htons(e, 0x0100);
    ctx.Write(iph + 10, Store16(e, (check + if check >= 0xFFFF then 1 else 0) % 0x1_0000));
    ctx.Write(iph + 8, [ttl]);
  }

  /** The success branch of the router. */
  method ForwardFrame(e: Endian, ctx: XdpMd, ip4: bool, r: FibResult)
    requires ctx.Valid()
    requires var p := ctx.Bytes();
             (IsIp4(p) || IsIp6(p)) && Life(p) > 1 && ip4 == IsIp4(p)
    modifies ctx.mem
    ensures ctx.Bytes() == Forwarded(e, old(ctx.Bytes()), r)
  {
    hide DecreaseTtlCsum, Splice, Store16, Host16;
    if ip4 {
      var ttl := IpDecreaseTtl(e, ctx, 14);
    } else {
      ctx.Write(21, [ctx.Bytes()[21] - 1]);
    }
    ctx.Write(0, r.dmac);
    ctx.Write(6, r.smac);
  }

  /** `xdp_router_func`, up to the recording of its action; a redirect with no
      flags is assumed to answer XDP_REDIRECT. */
  method XdpRouter(e: Endian, ctx: XdpMd, lookup: Lookup) returns (action: int)
    requires ctx.Valid()
    modifies ctx.mem
    ensures action == RouterAction(old(ctx.Bytes()), lookup)
    ensures ctx.Bytes() == RouterStep(e, old(ctx.Bytes()), lookup)
  {
    hide Forwarded;
    var p := ctx.Bytes();
    if 14 > |p| {
      return XDP_DROP;
    }
    HostIsHtonsOfWire(e, p, 12);
    HtonsInjective(e, Wire16(p, 12), ETH_P_IP);
    HtonsInjective(e, Wire16(p, 12), ETH_P_IPV6);
    var hProto := Host16(e, p, 12);
    var fib;
    if hProto == Htons(e, ETH_P_IP) {
      if 34 > |p| {
        return XDP_DROP;
      }
      if p[22] <= 1 {
        return XDP_PASS;
      }
      fib := FibParams(false, [p[15]], p[23], Ntohs16(e, p, 16), p[26..30], p[30..34]);
    } else if hProto == Htons(e, ETH_P_IPV6) {
      if 54 > |p| {
        return XDP_DROP;
      }
      if p[21] <= 1 {
        return XDP_PASS;
      }
      fib := FibParams(true, [p[14] % 16] + p[15..18], p[20], Ntohs16(e, p, 18), p[22..38], p[38..54]);
    } else {
      return XDP_PASS;
    }
    var r := lookup(fib);
    if r.rc == FIB_SUCCESS {
      ForwardFrame(e, ctx, hProto == Htons(e, ETH_P_IP), r);
      action := XDP_REDIRECT;
    } else if r.rc == FIB_BLACKHOLE || r.rc == FIB_UNREACHABLE || r.rc == FIB_PROHIBIT {
      action := XDP_DROP;
    } else {
      action := XDP_PASS;
    }
  }

  // ---------------------------------------------------------------------------
  // What a forwarded packet carries.

  /** Every byte of a forwarded packet outside the IPv4 checksum: the Ethernet
      addresses the lookup gave, the life less one, the rest as it came. */
  lemma ForwardedBytes(e: Endian, p: seq<byte>, r: FibResult, i: nat)
    requires (IsIp4(p) || IsIp6(p)) && Life(p) > 1
    requires i < |p| && !(IsIp4(p) && 24 <= i < 26)
    ensures Forwarded(e, p, r)[i] ==
            if i < 6 then r.dmac[i]
            else if i < 12 then r.smac[i - 6]
            else if i == LifeOff(p) then p[i] - 1
            else p[i]
  {
    hide DecreaseTtlCsum, Splice;
  }

  lemma ForwardedKind(e: Endian, p: seq<byte>, r: FibResult)
    requires (IsIp4(p) || IsIp6(p)) && Life(p) > 1
    ensures var q := Forwarded(e, p, r);
            IsIp4(q) == IsIp4(p) && IsIp6(q) == IsIp6(p) && Life(q) == Life(p) - 1
  {
    hide Forwarded;
    ForwardedBytes(e, p, r, 12);
    ForwardedBytes(e, p, r, 13);
    ForwardedBytes(e, p, r, LifeOff(p));
  }

  /** The patched field undoes the change of the TTL word, up to a multiple of
      0xFFFF, and is never all ones. The TTL word falls by 0x100 on a big-endian
      host and by 1 on a little-endian one, as `htons` has it. */
  lemma DecreaseTtlValue(e: Endian, c: u16, ttl: byte, proto: byte)
    requires ttl > 0
    ensures var d := DecreaseTtlCsum(e, c) as int - c + Load16(e, ttl - 1, proto) - Load16(e, ttl, proto);
            (d == 0 || d == -0xFFFF) && DecreaseTtlCsum(e, c) != ONES
  {
    SwapBytes(1, 0);
    var t: int := c + Htons(e, 0x0100);
    assert t < 0xFFFF ==> t % 0x1_0000 == t;
    assert t >= 0xFFFF ==> (t + 1) % 0x1_0000 == t + 1 - 0x1_0000;
  }

  /** A header with its TTL decremented, as the hop leaves it. */
  function HopHeader(e: Endian, h: seq<byte>): seq<byte>
    requires 20 <= |h| && h[8] > 0
  {
    Splice(Splice(h, 10, Store16(e, DecreaseTtlCsum(e, Host16(e, h, 10)))), 8, [h[8] - 1, h[9]])
  }

  lemma ForwardedHeader(e: Endian, p: seq<byte>, r: FibResult, end: nat)
    requires IsIp4(p) && Life(p) > 1 && 34 <= end <= |p|
    ensures Forwarded(e, p, r)[14..end] == HopHeader(e, p[14..end])
  {
    hide DecreaseTtlCsum, Splice;
    var q, h := Forwarded(e, p, r)[14..end], HopHeader(e, p[14..end]);
    var hd := p[14..end];
    assert hd[10] == p[24] && hd[11] == p[25] && hd[8] == p[22] && hd[9] == p[23];
    forall i | 0 <= i < |q|
      ensures q[i] == h[i]
    {
      assert q[i] == Forwarded(e, p, r)[14 + i] && hd[i] == p[14 + i];
    }
  }

  lemma HopHeaderSum(e: Endian, h: seq<byte>)
    requires 20 <= |h| && h[8] > 0
    ensures var d := Sum(e, HopHeader(e, h)) as int - Sum(e, h);
            d == 0 || d == -0xFFFF
  {
    hide DecreaseTtlCsum;
    var cs := Store16(e, DecreaseTtlCsum(e, Host16(e, h, 10)));
    SumSplice(e, h, 10, cs);
    SumSplice(e, Splice(h, 10, cs), 8, [h[8] - 1, h[9]]);
    DecreaseTtlValue(e, Host16(e, h, 10), h[8], h[9]);
  }

  /** A hop is transparent to the header checksum, whatever the header's length:
      a receiver accepts the new header exactly when it accepted the old one,
      and then the field is, in either byte order, the fully recomputed one. */
  lemma HopHeaderOk(e: Endian, h: seq<byte>, any: Endian)
    requires 20 <= |h| && h[8] > 1
    ensures ChecksumOk(HopHeader(e, h)) <==> ChecksumOk(h)
    ensures ChecksumOk(h) ==> Exact(any, HopHeader(e, h), 10)
  {
    hide DecreaseTtlCsum;
    var q := HopHeader(e, h);
    HopHeaderSum(e, h);
    SameBy(Sum(e, q), Sum(e, h), if Sum(e, q) == Sum(e, h) then 0 else -1);
    SameZero(Sum(e, q), Sum(e, h));
    assert q[8] == h[8] - 1 && Cleared(q, 10)[8] == h[8] - 1;
    OkIff(e, h);
    OkIff(e, q);
    HopFieldNotOnes(e, h);
    ExactIff(any, q, 10);
  }

  lemma HopFieldNotOnes(e: Endian, h: seq<byte>)
    requires 20 <= |h| && h[8] > 0
    ensures Wire16(HopHeader(e, h), 10) != ONES
  {
    hide DecreaseTtlCsum;
    var q := HopHeader(e, h);
    DecreaseTtlValue(e, Host16(e, h, 10), h[8], h[9]);
    assert Host16(e, q, 10) == DecreaseTtlCsum(e, Host16(e, h, 10));
    ClearedZero(e, q, 10);
  }

  // ---------------------------------------------------------------------------
  // Chains of hops.

  /** How many hops of the chain forward the packet before one does not. */
  function HopsTaken(e: Endian, p: seq<byte>, lookups: seq<Lookup>): nat
    decreases |lookups|
  {
    if lookups == [] || RouterAction(p, lookups[0]) != XDP_REDIRECT then 0
    else 1 + HopsTaken(e, RouterStep(e, p, lookups[0]), lookups[1..])
  }

  /** The packet behind the last hop that forwarded it. */
  function AfterHops(e: Endian, p: seq<byte>, lookups: seq<Lookup>): seq<byte>
    decreases |lookups|
  {
    if lookups == [] || RouterAction(p, lookups[0]) != XDP_REDIRECT then p
    else AfterHops(e, RouterStep(e, p, lookups[0]), lookups[1..])
  }

  /** Over any chain with any routing tables, the life falls by one at each
      forwarding hop and never reaches zero, so a packet that starts with life t
      is forwarded at most t - 1 times. */
  lemma {:induction false} ChainLife(e: Endian, p: seq<byte>, lookups: seq<Lookup>)
    ensures var n := HopsTaken(e, p, lookups);
            && Life(AfterHops(e, p, lookups)) == Life(p) - n
            && (n > 0 ==> Life(AfterHops(e, p, lookups)) >= 1)
            && (n == 0 ==> AfterHops(e, p, lookups) == p)
            && n <= (if Life(p) == 0 then 0 else Life(p) - 1)
    decreases |lookups|
  {
    if lookups != [] && RouterAction(p, lookups[0]) == XDP_REDIRECT {
      hide Forwarded;
      var q := RouterStep(e, p, lookups[0]);
      ForwardedKind(e, p, lookups[0](Params(p)));
      ChainLife(e, q, lookups[1..]);
    }
  }

  lemma HopChecksum(e: Endian, p: seq<byte>, lookup: Lookup, end: nat, any: Endian)
    requires IsIp4(p) && 34 <= end <= |p| && RouterAction(p, lookup) == XDP_REDIRECT
    ensures var q := RouterStep(e, p, lookup);
            && |q| == |p| && IsIp4(q)
            && (ChecksumOk(q[14..end]) <==> ChecksumOk(p[14..end]))
            && (ChecksumOk(p[14..end]) ==> Exact(any, q[14..end], 10))
  {
    hide Forwarded, HopHeader, ChecksumOk, Exact;
    var r := lookup(Params(p));
    ForwardedKind(e, p, r);
    ForwardedHeader(e, p, r, end);
    HopHeaderOk(e, p[14..end], any);
  }

  /** Over any chain, the IPv4 header up to any end stays accepted exactly as it
      was, and behind the first hop an accepted header carries the recomputed
      checksum of either byte order. */
  lemma {:induction false} ChainChecksum(e: Endian, p: seq<byte>, lookups: seq<Lookup>, end: nat, any: Endian)
    requires IsIp4(p) && 34 <= end <= |p|
    ensures var q := AfterHops(e, p, lookups);
            && |q| == |p| && IsIp4(q)
            && (ChecksumOk(q[14..end]) <==> ChecksumOk(p[14..end]))
            && (HopsTaken(e, p, lookups) > 0 && ChecksumOk(p[14..end]) ==> Exact(any, q[14..end], 10))
    decreases |lookups|
  {
    hide RouterStep, RouterAction, ChecksumOk, Exact, IsIp4;
    if lookups != [] && RouterAction(p, lookups[0]) == XDP_REDIRECT {
      HopChecksum(e, p, lookups[0], end, any);
      ChainChecksum(e, RouterStep(e, p, lookups[0]), lookups[1..], end, any);
    }
  }
}
