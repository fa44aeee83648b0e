/** What each packet program makes of a packet, byte by byte: offsets, types and
    actions as numbers, without the names the programs are written with. */
module ProgramBytes {
  import opened Words
  import opened Parsing
  import opened Layout
  import Echo
  import Ports
  import Router
  import TailGrow
  import Vlan
  import XskEcho

  // ---------------------------------------------------------------------------
  // The echo responder.

  /** Which packets are answered; all others stay as they are. */
  lemma RequestByBytes(e: Endian, p: seq<byte>)
    ensures var net := Dissect(p, 2);
            && (Echo.IsRequest(p, net) <==>
                  net.Net? && net.pos + 4 <= |p|
                  && if net.v6 then net.proto == 58 && p[net.pos] == 128 else net.proto == 1 && p[net.pos] == 8)
            && (!Echo.IsRequest(p, net) ==> Echo.EchoStep(e, p) == p)
  {
    hide Dissect, Echo.Reply;
    ChainInBounds(p, 2);
    DissectByBytes(p);
  }

  /** The reply to an IPv4 ping in parts: both pairs of addresses exchanged, the
      type 0, two bytes of checksum, everything else as it came. */
  lemma Echo4ByBytes(e: Endian, p: seq<byte>, h: nat, n: nat)
    requires Dissect(p, 2) == Net(false, h, n, 1) && n + 4 <= |p| && p[n] == 8
    ensures 14 <= h && h + 20 <= n && |Echo.EchoStep(e, p)| == |p|
    ensures var r := Echo.EchoStep(e, p);
            r == p[6..12] + p[0..6] + p[12..h + 12] + p[h + 16..h + 20] + p[h + 12..h + 16] + p[h + 20..n]
                 + [0, p[n + 1]] + r[n + 2..n + 4] + p[n + 4..]
  {
    hide Dissect, Echo.Marked, Echo.Swapped, Echo.EchoStep;
    ChainInBounds(p, 2);
    var cs := ReplyIsMarked(e, p);
    ReplyParts(p, h + 12, 4, n, 0, cs);
  }

  /** Likewise for IPv6, its addresses 16 bytes each and the type 129. */
  lemma Echo6ByBytes(e: Endian, p: seq<byte>, h: nat, n: nat)
    requires Dissect(p, 2) == Net(true, h, n, 58) && n + 4 <= |p| && p[n] == 128
    ensures 14 <= h && h + 40 == n && |Echo.EchoStep(e, p)| == |p|
    ensures var r := Echo.EchoStep(e, p);
            r == p[6..12] + p[0..6] + p[12..h + 8] + p[h + 24..h + 40] + p[h + 8..h + 24]
                 + [129, p[n + 1]] + r[n + 2..n + 4] + p[n + 4..]
  {
    hide Dissect, Echo.Marked, Echo.Swapped, Echo.EchoStep;
    ChainInBounds(p, 2);
    DissectByBytes(p);
    var cs := ReplyIsMarked(e, p);
    ReplyParts(p, h + 8, 16, n, 129, cs);
    assert p[h + 40..n] == [];
    NoMiddle(p[6..12] + p[0..6] + p[12..h + 8] + p[h + 24..h + 40] + p[h + 8..h + 24]);
  }

  /** The reply is the exchanged packet with its type and some checksum bytes. */
  lemma ReplyIsMarked(e: Endian, p: seq<byte>) returns (cs: seq<byte>)
    requires Echo.IsRequest(p, Dissect(p, 2))
    ensures var net := Dissect(p, 2);
            |cs| == 2 && Echo.EchoStep(e, p) == Echo.Marked(Echo.Returned(p, net), net.pos, Echo.ReplyType(net), cs)
  {
    hide Dissect, Echo.PatchedCsum, Echo.Marked, Echo.Swapped;
    var net := Dissect(p, 2);
    cs := Echo.PatchedCsum(e, Echo.Returned(p, net)[net.pos..net.pos + 4], Echo.ReplyType(net));
  }

  /** What the checksum of an ICMPv6 message covers in front of it: both addresses,
      the length, three zero bytes and 58. */
  lemma PseudoBytes(header: seq<byte>, len: seq<byte>)
    requires |header| == 40 && |len| == 4
    ensures Echo.PseudoHeader6(header, len) == header[8..24] + header[24..40] + len + [0, 0, 0, 58]
  {
    assert header[8..40] == header[8..24] + header[24..40];
  }

  lemma NoMiddle(s: seq<byte>)
    ensures s + [] == s
  {
  }

  /** The exchanges and the patch in parts: `n` bytes of address at `a`, twice. */
  lemma ReplyParts(p: seq<byte>, a: nat, n: nat, pos: nat, type_: byte, cs: seq<byte>)
    requires 12 <= a && a + 2 * n <= pos && pos + 4 <= |p| && |cs| == 2
    ensures var r := Echo.Marked(Echo.Swapped(Echo.Swapped(p, a, n), 0, 6), pos, type_, cs);
            && |r| == |p|
            && r == p[6..12] + p[0..6] + p[12..a] + p[a + n..a + 2 * n] + p[a..a + n] + p[a + 2 * n..pos]
                    + [type_, p[pos + 1]] + r[pos + 2..pos + 4] + p[pos + 4..]
  {
    hide Echo.Marked, Echo.Swapped;
    var s := Echo.Swapped(Echo.Swapped(p, a, n), 0, 6);
    ExchangedParts(p, a, n, pos);
    MarkedParts(s, pos, type_, cs);
  }

  lemma ExchangedParts(p: seq<byte>, a: nat, n: nat, pos: nat)
    requires 12 <= a && a + 2 * n <= pos < |p|
    ensures var s := Echo.Swapped(Echo.Swapped(p, a, n), 0, 6);
            && s[..pos] == p[6..12] + p[0..6] + p[12..a] + p[a + n..a + 2 * n] + p[a..a + n] + p[a + 2 * n..pos]
            && s[pos..] == p[pos..]
  {
    hide Echo.Swapped;
    var q := Echo.Swapped(p, a, n);
    var s := Echo.Swapped(q, 0, 6);
    NetworkSwap(p, a, n, pos);
    EthernetSwap(q, pos);
    SixParts(s, q, a, a + n, a + 2 * n, pos);
  }

  lemma NetworkSwap(p: seq<byte>, a: nat, n: nat, pos: nat)
    requires 12 <= a && a + 2 * n <= pos < |p|
    ensures var q := Echo.Swapped(p, a, n);
            && q[6..12] == p[6..12] && q[0..6] == p[0..6] && q[12..a] == p[12..a]
            && q[a..a + n] == p[a + n..a + 2 * n] && q[a + n..a + 2 * n] == p[a..a + n]
            && q[a + 2 * n..pos] == p[a + 2 * n..pos] && q[pos..] == p[pos..]
  {
    hide Echo.Swapped;
  }

  lemma EthernetSwap(q: seq<byte>, pos: nat)
    requires 12 <= pos < |q|
    ensures var s := Echo.Swapped(q, 0, 6);
            s[..6] == q[6..12] && s[6..12] == q[0..6] && s[12..pos] == q[12..pos] && s[pos..] == q[pos..]
  {
    hide Echo.Swapped;
  }

  lemma SixParts(s: seq<byte>, q: seq<byte>, a: nat, b: nat, c: nat, pos: nat)
    requires 12 <= a <= b <= c <= pos <= |q| && |s| == |q| && s[12..pos] == q[12..pos]
    ensures s[..pos] == s[..6] + s[6..12] + q[12..a] + q[a..b] + q[b..c] + q[c..pos]
  {
    assert s[..6] + s[6..12] == s[..12] && s[..pos] == s[..12] + s[12..pos];
    assert q[12..pos] == q[12..a] + q[a..pos];
    assert q[a..pos] == q[a..b] + q[b..pos];
    assert q[b..pos] == q[b..c] + q[c..pos];
    Joined(s[..12], q[12..a], q[a..b], q[b..c], q[c..pos]);
  }

  lemma Joined(s: seq<byte>, a: seq<byte>, b: seq<byte>, c: seq<byte>, d: seq<byte>)
    ensures s + (a + (b + (c + d))) == s + a + b + c + d
  {
  }

  lemma MarkedParts(s: seq<byte>, pos: nat, type_: byte, cs: seq<byte>)
    requires pos + 4 <= |s| && |cs| == 2
    ensures var r := Echo.Marked(s, pos, type_, cs);
            |r| == |s| && r == s[..pos] + [type_, s[pos..][1]] + r[pos + 2..pos + 4] + s[pos..][4..]
  {
    hide Echo.Marked;
    var r := Echo.Marked(s, pos, type_, cs);
    assert r[..pos] == s[..pos] && r[pos..pos + 2] == [type_, s[pos + 1]] && r[pos + 4..] == s[pos + 4..];
    assert s[pos..][4..] == s[pos + 4..];
    assert r == r[..pos] + r[pos..pos + 2] + r[pos + 2..pos + 4] + r[pos + 4..];
  }

  // ---------------------------------------------------------------------------
  // The router.

  /** A frame that is no IP packet, or is cut inside its header, or whose life is
      at its end, is never looked up. */
  lemma RouterWithoutLookup(e: Endian, p: seq<byte>, lookup: Router.Lookup)
    ensures |p| < 14 || (Wire16(p, 12) == 0x0800 && |p| < 34) || (Wire16(p, 12) == 0x86DD && |p| < 54) ==>
              Router.RouterAction(p, lookup) == 1 && Router.RouterStep(e, p, lookup) == p
    ensures 14 <= |p| && Wire16(p, 12) != 0x0800 && Wire16(p, 12) != 0x86DD ==>
              Router.RouterAction(p, lookup) == 2 && Router.RouterStep(e, p, lookup) == p
    ensures 34 <= |p| && Wire16(p, 12) == 0x0800 && p[22] <= 1 ==>
              Router.RouterAction(p, lookup) == 2 && Router.RouterStep(e, p, lookup) == p
    ensures 54 <= |p| && Wire16(p, 12) == 0x86DD && p[21] <= 1 ==>
              Router.RouterAction(p, lookup) == 2 && Router.RouterStep(e, p, lookup) == p
  {
    hide Router.Forwarded;
  }

  /** An IPv4 frame: what is looked up, and the frame that leaves; `c` is the
      checksum as the host loads it, plus `htons(0x0100)`. */
  lemma Router4ByBytes(e: Endian, p: seq<byte>, lookup: Router.Lookup)
    requires 34 <= |p| && Wire16(p, 12) == 0x0800 && p[22] > 1
    ensures var r := lookup(Router.FibParams(false, [p[15]], p[23], Wire16(p, 16), p[26..30], p[30..34]));
            var c := if e.Big? then Wire16(p, 24) as int + 256 else p[25] as int * 256 + p[24] + 1;
            var x := (c + if c >= 0xFFFF then 1 else 0) % 0x1_0000;
            && Router.RouterAction(p, lookup) == (if r.rc == 0 then 4 else if 1 <= r.rc <= 3 then 1 else 2)
            && Router.RouterStep(e, p, lookup) ==
               if r.rc != 0 then p
               else r.dmac + r.smac + p[12..22] + [p[22] - 1, p[23]]
                    + (if e.Big? then [x / 256, x % 256] else [x % 256, x / 256]) + p[26..]
  {
    hide Splice, Router.DecreaseTtlCsum;
    var r := lookup(Router.FibParams(false, [p[15]], p[23], Wire16(p, 16), p[26..30], p[30..34]));
    assert Router.Params(p) == Router.FibParams(false, [p[15]], p[23], Wire16(p, 16), p[26..30], p[30..34]);
    assert Router.IsIp4(p) && Router.Life(p) == p[22];
    if r.rc == 0 {
      var cs := Store16(e, Router.DecreaseTtlCsum(e, Host16(e, p, 24)));
      Forwarded4(e, p, r, cs);
      TtlSumBytes(e, p);
    }
  }

  lemma Forwarded4(e: Endian, p: seq<byte>, r: Router.FibResult, cs: seq<byte>)
    requires 34 <= |p| && Router.IsIp4(p) && Router.Life(p) > 1
    requires cs == Store16(e, Router.DecreaseTtlCsum(e, Host16(e, p, 24)))
    ensures p[22] > 1
    ensures Router.Forwarded(e, p, r) == r.dmac + r.smac + p[12..22] + [p[22] - 1, p[23]] + cs + p[26..]
  {
    hide Splice, Router.DecreaseTtlCsum, Store16, Host16;
    var q := Router.Forwarded(e, p, r);
    var t := r.dmac + r.smac + p[12..22] + [p[22] - 1, p[23]] + cs + p[26..];
    forall i | 0 <= i < |q|
      ensures q[i] == t[i]
    {
    }
  }

  lemma TtlSumBytes(e: Endian, p: seq<byte>)
    requires 34 <= |p|
    ensures var c := if e.Big? then Wire16(p, 24) as int + 256 else p[25] as int * 256 + p[24] + 1;
            var x := (c + if c >= 0xFFFF then 1 else 0) % 0x1_0000;
            Store16(e, Router.DecreaseTtlCsum(e, Host16(e, p, 24)))
            == if e.Big? then [x / 256, x % 256] else [x % 256, x / 256]
  {
    SwapBytes(1, 0);
  }

  /** An IPv6 frame likewise; nothing but the addresses and the hop limit changes. */
  lemma Router6ByBytes(e: Endian, p: seq<byte>, lookup: Router.Lookup)
    requires 54 <= |p| && Wire16(p, 12) == 0x86DD && p[21] > 1
    ensures var r := lookup(Router.FibParams(true, [p[14] % 16] + p[15..18], p[20], Wire16(p, 18),
                                             p[22..38], p[38..54]));
            && Router.RouterAction(p, lookup) == (if r.rc == 0 then 4 else if 1 <= r.rc <= 3 then 1 else 2)
            && Router.RouterStep(e, p, lookup) ==
               if r.rc != 0 then p else r.dmac + r.smac + p[12..21] + [p[21] - 1] + p[22..]
  {
    hide Splice;
    var params := Router.FibParams(true, [p[14] % 16] + p[15..18], p[20], Wire16(p, 18), p[22..38], p[38..54]);
    var r := lookup(params);
    assert Router.Params(p) == params;
    assert Router.IsIp6(p) && !Router.IsIp4(p) && Router.Life(p) == p[21];
    if r.rc == 0 {
      var q := Router.Forwarded(e, p, r);
      var t := r.dmac + r.smac + p[12..21] + [p[21] - 1] + p[22..];
      forall i | 0 <= i < |q|
        ensures q[i] == t[i]
      {
      }
    }
  }

  // ---------------------------------------------------------------------------
  // The port programs.

  /** The field after `+=` of the number `delta` in wire order, as each host
      computes it, and once more when that gives zero. */
  lemma StepBytes(e: Endian, s: seq<byte>, off: nat, delta: u16)
    requires off + 2 <= |s|
    ensures var c := if e.Big? then s[off] as int * 256 + s[off + 1] else s[off + 1] as int * 256 + s[off];
            var d := if e.Big? then delta as int else delta % 256 * 256 + delta / 256;
            var x := if (c + d) % 0x1_0000 == 0 then d else (c + d) % 0x1_0000;
            Store16(e, Ports.StepCheck(e, Host16(e, s, off), delta))
            == if e.Big? then [x / 256, x % 256] else [x % 256, x / 256]
  {
    hide Ports.StepCheck;
    WordBytes(s, off, delta);
    Ports.StepValue(e, Host16(e, s, off), delta);
    Ports.Wrap16(Host16(e, s, off) as int + Htons(e, delta));
    WordBytes(s, off, Ports.StepCheck(e, Host16(e, s, off), delta));
  }

  /** Where the checksum of the segment stands, when there is a segment. */
  lemma FieldByBytes(p: seq<byte>, net: Net)
    requires net.Net?
    ensures Ports.CheckOff(p, net) ==
            if net.proto == 17 && net.pos + 8 <= |p| && Wire16(p, net.pos + 4) >= 8 then 6
            else if net.proto == 6 && net.pos + 20 <= |p| && 5 <= p[net.pos + 12] / 16
                    && net.pos + p[net.pos + 12] / 16 * 4 <= |p| then 16
            else -1
  {
  }

  /** The ingress program: the destination port, the second word of the segment
      at `n`, falls by one; the field at `k` is stepped; every other byte stays. */
  lemma PatchPortsByBytes(e: Endian, p: seq<byte>)
    ensures var (net, d) := (Dissect(p, 2), Ports.PatchPortsStep(e, p));
            if net.Net? && Ports.CheckOff(p, net) >= 0 then
              var (n, k) := (net.pos, Ports.CheckOff(p, net));
              && (k == 6 || k == 16) && n + k + 2 <= |p|
              && var port := (Wire16(p, n + 2) - 1) % 0x1_0000;
                 var cs := Store16(e, Ports.StepCheck(e, Host16(e, p, n + k), 1));
                 d == p[..n + 2] + [port / 256, port % 256] + p[n + 4..n + k] + cs + p[n + k + 2..]
            else d == p
  {
    hide Dissect, Ports.StepCheck, Ports.Moved;
    var net := Dissect(p, 2);
    ChainInBounds(p, 2);
    if net.Net? && Ports.CheckOff(p, net) >= 0 {
      FieldByBytes(p, net);
      MovedParts(e, p, net.pos, 2, Ports.CheckOff(p, net), -1, 1);
    }
  }

  /** The egress program: the source port, the first word of the segment, rises by
      one; the field steps down by one. */
  lemma FixPortByBytes(e: Endian, p: seq<byte>)
    ensures var (net, u) := (Dissect(p, 2), Ports.FixPortStep(e, p));
            if net.Net? && Ports.CheckOff(p, net) >= 0 then
              var (n, k) := (net.pos, Ports.CheckOff(p, net));
              && (k == 6 || k == 16) && n + k + 2 <= |p|
              && var port := (Wire16(p, n) + 1) % 0x1_0000;
                 var cs := Store16(e, Ports.StepCheck(e, Host16(e, p, n + k), 0xFFFF));
                 u == p[..n] + [port / 256, port % 256] + p[n + 2..n + k] + cs + p[n + k + 2..]
            else u == p
    ensures Ports.TC_ACT_OK == 0
  {
    hide Dissect, Ports.StepCheck, Ports.Moved;
    var net := Dissect(p, 2);
    ChainInBounds(p, 2);
    if net.Net? && Ports.CheckOff(p, net) >= 0 {
      FieldByBytes(p, net);
      MovedParts(e, p, net.pos, 0, Ports.CheckOff(p, net), 1, 0xFFFF);
    }
  }

  lemma MovedParts(e: Endian, p: seq<byte>, pos: nat, a: nat, k: nat, portDelta: int, csumDelta: u16)
    requires pos + k + 2 <= |p| && a + 2 <= k
    ensures var port := (Wire16(p, pos + a) + portDelta) % 0x1_0000;
            var cs := Store16(e, Ports.StepCheck(e, Host16(e, p, pos + k), csumDelta));
            Ports.WithSegment(p, pos, Ports.Moved(e, p[pos..], a, k, portDelta, csumDelta))
            == p[..pos + a] + [port / 256, port % 256] + p[pos + a + 2..pos + k] + cs + p[pos + k + 2..]
  {
    hide Splice, Ports.StepCheck, Ports.Moved, Ports.WithSegment, Host16, Wire16;
    Ports.MovedWithin(e, p, pos, a, k, portDelta, csumDelta);
    TwoSplices(p, pos + a, Store16(Big, (Wire16(p, pos + a) + portDelta) % 0x1_0000), pos + k,
               Store16(e, Ports.StepCheck(e, Host16(e, p, pos + k), csumDelta)));
  }

  lemma TwoSplices(p: seq<byte>, i: nat, x: seq<byte>, j: nat, y: seq<byte>)
    requires i + 2 <= j && j + 2 <= |p| && |x| == 2 && |y| == 2
    ensures Splice(Splice(p, i, x), j, y) == p[..i] + x + p[i + 2..j] + y + p[j + 2..]
  {
  }

  // ---------------------------------------------------------------------------
  // The stamp.

  /** What is stamped, where, and with what; the magic is stored in host order. */
  lemma StampByBytes(e: Endian, g: seq<byte>, time: TailGrow.Time)
    ensures var (net, r) := (Dissect(g, 2), TailGrow.StampStep(e, g, time));
            if |g| < 14 then r == (0, g)
            else if net.Net? && !net.v6 && net.proto == 1 && net.hdr + 20 <= |g| && Wire16(g, net.hdr + 2) >= 2 then
              var at := net.hdr + Wire16(g, net.hdr + 2) % 4096;
              if at + 10 > |g| then r == (0, g)
              else r == (2, g[..at] + (if e.Big? then [0x53, 0x54] else [0x54, 0x53]) + time + g[at + 10..])
            else r == (2, g)
  {
    hide Dissect, Splice;
    TailGrow.MagicOnWire(e);
    var net := Dissect(g, 2);
    if TailGrow.IsStampable(g, net) && TailGrow.StampPos(g, net) + 10 <= |g| {
      SpliceParts(g, TailGrow.StampPos(g, net), TailGrow.Stamp(e, time),
                  if e.Big? then [0x53, 0x54] else [0x54, 0x53], time);
    }
  }

  lemma SpliceParts(g: seq<byte>, at: nat, s: seq<byte>, x: seq<byte>, y: seq<byte>)
    requires s == x + y && at + |s| <= |g|
    ensures Splice(g, at, s) == g[..at] + x + y + g[at + |s|..]
  {
    assert g[..at] + (x + y) == g[..at] + x + y;
  }

  /** Growing appends ten zero bytes. */
  lemma GrownBytes(p: seq<byte>)
    ensures TailGrow.Grown(p) == p + [0, 0, 0, 0, 0, 0, 0, 0, 0, 0]
  {
  }

  // ---------------------------------------------------------------------------
  // VLAN tags.

  /** One run of the swapping program on `room` bytes of headroom and the frame. */
  lemma SwapByBytes(room: nat, p: seq<byte>)
    ensures var f := Vlan.SwapStep(Vlan.Frame(room, p));
            f == if |p| < 14 then Vlan.Frame(room, p)
                 else if Wire16(p, 12) == 0x8100 || Wire16(p, 12) == 0x88A8 then
                   if |p| < 18 then Vlan.Frame(room, p) else Vlan.Frame(room + 4, p[..12] + p[16..])
                 else if room < 4 then Vlan.Frame(room, p)
                 else Vlan.Frame(room - 4, p[..12] + [0x81, 0x00, 0x00, 0x01] + p[12..])
  {
    if 14 <= |p| {
      TaggedBytes(p, 0x8100, 1);
    }
  }

  /** A tag on the wire, and whether there is one. */
  lemma TaggedBytes(p: seq<byte>, tagType: u16, tci: u16)
    requires 14 <= |p|
    ensures Vlan.Tagged(p, tagType, tci)
            == p[..12] + [tagType / 256, tagType % 256, tci / 256, tci % 256] + p[12..]
    ensures Vlan.HasTag(p) <==> 18 <= |p| && (Wire16(p, 12) == 0x8100 || Wire16(p, 12) == 0x88A8)
    ensures 18 <= |p| ==> Vlan.Untagged(p) == p[..12] + p[16..]
    ensures ETH_P_8021Q == 0x8100
  {
    var x, y := Store16(Big, tagType), Store16(Big, tci);
    assert x + y == [tagType / 256, tagType % 256, tci / 256, tci % 256];
    assert p[..12] + x + y == p[..12] + (x + y);
  }

  // ---------------------------------------------------------------------------
  // The AF_XDP lesson.

  /** What it answers is exactly an untagged ICMPv6 echo request of at least 62
      bytes, as the parsers see it at depth 0. */
  lemma PingByBytes(p: seq<byte>)
    ensures XskEcho.IsPing(p) <==> Dissect(p, 0) == Net(true, 14, 54, 58) && 62 <= |p| && p[54] == 128
    ensures XskEcho.IsPing(p) <==> 62 <= |p| && Wire16(p, 12) == 0x86DD && p[20] == 58 && p[54] == 128
  {
  }

  /** The reply in parts. */
  lemma PongByBytes(e: Endian, p: seq<byte>)
    requires XskEcho.IsPing(p)
    ensures var r := XskEcho.Pong(e, p);
            && |r| == |p|
            && r == p[6..12] + p[0..6] + p[12..22] + p[38..54] + p[22..38] + [129, p[55]] + r[56..58] + p[58..]
  {
    hide Echo.Marked, Echo.Swapped;
    var cs := Store16(e, XskEcho.PongCsum(e, Host16(e, p, 56)));
    SwapsCommute(p);
    ReplyParts(p, 22, 16, 54, 129, cs);
    assert p[54..54] == [];
    NoMiddle(p[6..12] + p[0..6] + p[12..22] + p[38..54] + p[22..38]);
  }

  lemma SwapsCommute(p: seq<byte>)
    requires 54 <= |p|
    ensures Echo.Swapped(Echo.Swapped(p, 0, 6), 22, 16) == Echo.Swapped(Echo.Swapped(p, 22, 16), 0, 6)
  {
    hide Echo.Swapped;
    var u, v := Echo.Swapped(Echo.Swapped(p, 0, 6), 22, 16), Echo.Swapped(Echo.Swapped(p, 22, 16), 0, 6);
    forall i | 0 <= i < |p|
      ensures u[i] == v[i]
    {
      var a, b := Echo.Swapped(p, 0, 6), Echo.Swapped(p, 22, 16);
      assert u[i] == if 22 <= i < 38 then a[i + 16] else if 38 <= i < 54 then a[i - 16] else a[i];
      assert v[i] == if i < 6 then b[i + 6] else if i < 12 then b[i - 6] else b[i];
    }
  }
}
