/** Port rewriting with an in-place checksum step: XDP decrements the destination
    port on ingress, TC increments the source port on egress. */
module Ports {
  import opened Words
  import opened Checksum
  import opened Incremental
  import opened Packet
  import opened Parsing

  const TC_ACT_OK: int := 0
  const UDP_CHECK: nat := 6
  const TCP_CHECK: nat := 16
  const SOURCE_PORT: nat := 0
  const DEST_PORT: nat := 2

  /** Adds `htons(delta)` to the field as a 16-bit word, and once more when that gives zero. */
  function StepCheck(e: Endian, check: u16, delta: u16): u16 {
    var c := (check + Htons(e, delta)) % 0x1_0000;
    if c == 0 then (c + Htons(e, delta)) % 0x1_0000 else c
  }

  /** A segment with the port at `a` moved by `portDelta` and the field at `k` stepped by `csumDelta`. */
  function Moved(e: Endian, s: seq<byte>, a: nat, k: nat, portDelta: int, csumDelta: u16): (r: seq<byte>)
    requires a + 2 <= k && k + 2 <= |s|
    ensures |r| == |s|
  {
    Splice(Splice(s, a, Store16(Big, (Wire16(s, a) + portDelta) % 0x1_0000)),
           k, Store16(e, StepCheck(e, Host16(e, s, k), csumDelta)))
  }

  /** The ingress program: destination port down by one, field up by `htons(1)`. */
  function PortDown(e: Endian, s: seq<byte>, k: nat): (r: seq<byte>)
    requires 4 <= k && k + 2 <= |s|
    ensures |r| == |s|
  {
    Moved(e, s, DEST_PORT, k, -1, 1)
  }

  /** The egress program: source port up by one, field up by `htons(-1)`. */
  function PortUp(e: Endian, s: seq<byte>, k: nat): (r: seq<byte>)
    requires 4 <= k && k + 2 <= |s|
    ensures |r| == |s|
  {
    Moved(e, s, SOURCE_PORT, k, 1, 0xFFFF)
  }

  // ---------------------------------------------------------------------------
  // The field, byte by byte.

  lemma Wrap16(x: nat)
    requires x < 0x2_0000
    ensures x % 0x1_0000 == if x < 0x1_0000 then x else x - 0x1_0000
  {
  }

  /** `StepCheck` with the modulus worked out. */
  lemma StepValue(e: Endian, c: u16, delta: u16)
    ensures var d := Htons(e, delta) as int;
            var x := if c + d < 0x1_0000 then c + d else c + d - 0x1_0000;
            StepCheck(e, c, delta) == if x == 0 then d else x
  {
    var d: int := Htons(e, delta);
    Wrap16(c + d);
    Wrap16(d);
  }

  /** The wire value of the field after the ingress step, for wire bytes h and l. */
  lemma StepUp(e: Endian, h: byte, l: byte)
    ensures var c: int := h * 0x100 + l;
            var r := Htons(e, StepCheck(e, Load16(e, h, l), 1)) as int;
            && r != 0
            && (e.Big? || l != 0xFF ==> r == c + 1 || r == c + 1 - 0xFFFF)
            && (e.Little? && l == 0xFF ==> r == c - (if h == 0 then 0xFE else 0xFF))
  {
    hide StepCheck, Swap16;
    StepValue(e, Load16(e, h, l), 1);
    SwapBytes(0, 1);
    SwapBytes(1, 0);
    SwapBytes(0, h);
    if l < 0xFF {
      SwapBytes(l + 1, h);
    }
  }

  /** The wire value of the field after the egress step. */
  lemma StepDown(e: Endian, h: byte, l: byte)
    ensures var c: int := h * 0x100 + l;
            var r := Htons(e, StepCheck(e, Load16(e, h, l), 0xFFFF)) as int;
            && r != 0
            && (e.Big? && c != 0 ==> r == c - 1 || r == c - 1 + 0xFFFF)
            && (c == 0 ==> r == 0xFFFF)
            && (e.Little? && c != 0 ==> r == c - 0x100 || r == c + 0xFEFF)
  {
    hide StepCheck, Swap16;
    StepValue(e, Load16(e, h, l), 0xFFFF);
    SwapBytes(0xFF, 0xFF);
    if h > 0 {
      SwapBytes(l, h - 1);
    } else if l > 0 {
      SwapBytes(l - 1, 0xFF);
    }
  }

  // ---------------------------------------------------------------------------
  // The segment.

  lemma WireStored(e: Endian, x: u16)
    ensures var b := Store16(e, x); Load16(Big, b[0], b[1]) == Htons(e, x)
  {
    SwapSwap(x);
    var b := Store16(e, x);
    SwapBytes(b[1], b[0]);
  }

  /** How the sum over any prefix of whole words and the segment moves. */
  lemma MovedSum(e: Endian, pre: seq<byte>, s: seq<byte>, a: nat, k: nat, portDelta: int, csumDelta: u16)
    requires |pre| % 2 == 0 && a % 2 == 0 && k % 2 == 0 && a + 2 <= k && k + 2 <= |s|
    ensures var r := Moved(e, s, a, k, portDelta, csumDelta);
            var field := Htons(e, StepCheck(e, Host16(e, s, k), csumDelta));
            && Sum(Big, pre + r) == Sum(Big, pre + s) - Wire16(s, a) + (Wire16(s, a) + portDelta) % 0x1_0000
                                    - Wire16(s, k) + field
            && Wire16(r, k) == field
  {
    hide StepCheck;
    var port := Store16(Big, (Wire16(s, a) + portDelta) % 0x1_0000);
    var cs := Store16(e, StepCheck(e, Host16(e, s, k), csumDelta));
    var s1 := Splice(s, a, port);
    WireStored(e, StepCheck(e, Host16(e, s, k), csumDelta));
    SumSplice(Big, s, a, port);
    SumSplice(Big, s1, k, cs);
    assert Wire16(s1, k) == Wire16(s, k);
    SumConcat(Big, pre, s);
    SumConcat(Big, pre, Splice(s1, k, cs));
  }

  /** The port moves by exactly one step and, the checksum aside, no other byte changes. */
  lemma MovedBytes(e: Endian, s: seq<byte>, a: nat, k: nat, portDelta: int, csumDelta: u16)
    requires a + 2 <= k && k + 2 <= |s|
    ensures var r := Moved(e, s, a, k, portDelta, csumDelta);
            && Wire16(r, a) == (Wire16(s, a) + portDelta) % 0x1_0000
            && (forall i :: 0 <= i < |s| && !(a <= i < a + 2) && !(k <= i < k + 2) ==> r[i] == s[i])
  {
    hide StepCheck, Splice, Store16;
    var port := Store16(Big, (Wire16(s, a) + portDelta) % 0x1_0000);
    var r := Moved(e, s, a, k, portDelta, csumDelta);
    assert r[a] == port[0] && r[a + 1] == port[1];
  }

  /** When the field is not zero, only the residue of the sum decides. */
  lemma OkByDelta(s: seq<byte>, r: seq<byte>, d: int, at: nat)
    requires ChecksumOk(s) && at + 2 <= |r| && Wire16(r, at) != 0
    requires Sum(Big, r) == Sum(Big, s) + d
    ensures ChecksumOk(r) <==> IsZeroMod(d)
  {
    OkIff(Big, s);
    OkIff(Big, r);
    assert r[at] != 0 || r[at + 1] != 0;
    var q :| Sum(Big, s) == Times(q);
    ZeroModIff(Sum(Big, r), q, d);
  }

  lemma SmallZeroMod(d: int)
    requires -0x1_FFFE < d < 0x1_FFFE
    ensures IsZeroMod(d) <==> d == 0 || d == 0xFFFF || d == -0xFFFF
  {
    if IsZeroMod(d) {
      var q :| d == Times(q);
    }
    ZeroModBy(0, 0);
    ZeroModBy(0xFFFF, 1);
    ZeroModBy(-0xFFFF, -1);
  }

  lemma PortWrap(port: u16)
    ensures (port - 1) % 0x1_0000 == if port == 0 then 0xFFFF else port - 1
    ensures (port + 1) % 0x1_0000 == if port == 0xFFFF then 0 else port + 1
  {
  }

  /** The ingress step on an accepted TCP or UDP segment of any length, behind
      any pseudo-header: the new segment is accepted exactly when the port was
      not zero and, on a little-endian host, the second wire byte of the field
      was not 0xFF. The field is never left zero. */
  lemma PortDownOk(e: Endian, pre: seq<byte>, s: seq<byte>, k: nat)
    requires |pre| % 2 == 0 && k % 2 == 0 && 4 <= k && k + 2 <= |s| && ChecksumOk(pre + s)
    ensures Wire16(PortDown(e, s, k), k) != 0
    ensures ChecksumOk(pre + PortDown(e, s, k)) <==>
              Wire16(s, DEST_PORT) != 0 && (e.Big? || s[k + 1] != 0xFF)
  {
    hide StepCheck, Moved;
    MovedSum(e, pre, s, DEST_PORT, k, -1, 1);
    StepUp(e, s[k], s[k + 1]);
    PortWrap(Wire16(s, DEST_PORT));
    var r := PortDown(e, s, k);
    var d := Sum(Big, pre + r) as int - Sum(Big, pre + s);
    AppendedField(pre, r, k);
    OkByDelta(pre + s, pre + r, d, |pre| + k);
    SmallZeroMod(d);
  }

  /** The egress step on an accepted segment: accepted exactly when, on a
      big-endian host, neither port nor field wraps, or, on any host, the port
      was 65535 over a zero field. So a little-endian host breaks every segment
      whose port did not wrap. */
  lemma PortUpOk(e: Endian, pre: seq<byte>, s: seq<byte>, k: nat)
    requires |pre| % 2 == 0 && k % 2 == 0 && 4 <= k && k + 2 <= |s| && ChecksumOk(pre + s)
    ensures Wire16(PortUp(e, s, k), k) != 0
    ensures ChecksumOk(pre + PortUp(e, s, k)) <==>
              if Wire16(s, SOURCE_PORT) == 0xFFFF then Wire16(s, k) == 0
              else e.Big? && Wire16(s, k) != 0
  {
    hide StepCheck, Moved;
    MovedSum(e, pre, s, SOURCE_PORT, k, 1, 0xFFFF);
    StepDown(e, s[k], s[k + 1]);
    PortWrap(Wire16(s, SOURCE_PORT));
    var r := PortUp(e, s, k);
    var d := Sum(Big, pre + r) as int - Sum(Big, pre + s);
    AppendedField(pre, r, k);
    OkByDelta(pre + s, pre + r, d, |pre| + k);
    SmallZeroMod(d);
  }

  lemma AppendedField(pre: seq<byte>, r: seq<byte>, k: nat)
    requires k + 2 <= |r|
    ensures Wire16(pre + r, |pre| + k) == Wire16(r, k)
  {
  }

  /** The step from a zero field. */
  lemma StepFromZero(e: Endian)
    ensures Store16(e, StepCheck(e, 0, 1)) == [0, 1]
    ensures Store16(e, StepCheck(e, 0, 0xFFFF)) == [0xFF, 0xFF]
  {
    SwapBytes(0, 1);
    SwapBytes(0xFF, 0xFF);
    var one, ones: int := Htons(e, 1), Htons(e, 0xFFFF);
    assert one % 0x1_0000 == one && ones % 0x1_0000 == ones;
    assert StepCheck(e, 0, 1) == one && StepCheck(e, 0, 0xFFFF) == ones;
  }

  // ---------------------------------------------------------------------------
  // The programs.

  /** Where the checksum field of the segment stands, if the packet carries a
      TCP or UDP segment whose header parses. */
  function CheckOff(p: seq<byte>, net: Net): int
    requires net.Net?
  {
    if net.proto == IPPROTO_UDP && ParseUdp(p, net.pos).Transport? then UDP_CHECK
    else if net.proto == IPPROTO_TCP && ParseTcp(p, net.pos).Transport? then TCP_CHECK
    else -1
  }

  /** The packet with its segment, which starts at `pos`, replaced. */
  function WithSegment(p: seq<byte>, pos: nat, s: seq<byte>): seq<byte>
    requires pos <= |p|
  {
    p[..pos] + s
  }

  /** What the ingress program leaves of a packet. */
  function PatchPortsStep(e: Endian, p: seq<byte>): (r: seq<byte>)
    ensures |r| == |p|
  {
    var net := Dissect(p, VLAN_MAX_DEPTH);
    ChainInBounds(p, VLAN_MAX_DEPTH);
    if net.Net? && CheckOff(p, net) >= 0 then
      WithSegment(p, net.pos, PortDown(e, p[net.pos..], CheckOff(p, net)))
    else p
  }

  /** What the egress program leaves of a packet. */
  function FixPortStep(e: Endian, p: seq<byte>): (r: seq<byte>)
    ensures |r| == |p|
  {
    var net := Dissect(p, VLAN_MAX_DEPTH);
    ChainInBounds(p, VLAN_MAX_DEPTH);
    if net.Net? && CheckOff(p, net) >= 0 then
      WithSegment(p, net.pos, PortUp(e, p[net.pos..], CheckOff(p, net)))
    else p
  }

  /** The bytes behind the segment's end do not matter to the step. */
  lemma MovedPrefix(e: Endian, s: seq<byte>, a: nat, k: nat, portDelta: int, csumDelta: u16, n: nat)
    requires a + 2 <= k && k + 2 <= n <= |s|
    ensures Moved(e, s, a, k, portDelta, csumDelta)[..n] == Moved(e, s[..n], a, k, portDelta, csumDelta)
  {
    hide Splice, Store16, StepCheck;
    var u, v := Moved(e, s, a, k, portDelta, csumDelta), Moved(e, s[..n], a, k, portDelta, csumDelta);
    forall i | 0 <= i < n
      ensures u[i] == v[i]
    {
    }
  }

  /** The ingress program on a whole packet, the segment ending anywhere: what
      stands before the segment is untouched, and an accepted segment stays
      accepted exactly under the condition of `PortDownOk`. */
  lemma PatchPortsOk(e: Endian, p: seq<byte>, pre: seq<byte>, end: nat)
    requires |pre| % 2 == 0
    requires var net := Dissect(p, VLAN_MAX_DEPTH);
             && net.Net? && CheckOff(p, net) >= 0 && net.pos + CheckOff(p, net) + 2 <= end <= |p|
             && ChecksumOk(pre + p[net.pos..end])
    ensures var (net, q) := (Dissect(p, VLAN_MAX_DEPTH), PatchPortsStep(e, p));
            var k := CheckOff(p, net);
            && |q| == |p| && q[..net.pos] == p[..net.pos]
            && (ChecksumOk(pre + q[net.pos..end]) <==>
                  Wire16(p, net.pos + DEST_PORT) != 0 && (e.Big? || p[net.pos + k + 1] != 0xFF))
  {
    hide PortDown, Dissect, ChecksumOk;
    var net := Dissect(p, VLAN_MAX_DEPTH);
    var k := CheckOff(p, net);
    ChainInBounds(p, VLAN_MAX_DEPTH);
    SegmentSlice(p, net.pos, end, PortDown(e, p[net.pos..], k));
    PortDownPrefix(e, p[net.pos..], k, end - net.pos);
    TailSlice(p, net.pos, end);
    WireInSlice(p, net.pos, end, DEST_PORT);
    WireInSlice(p, net.pos, end, k);
    PortDownOk(e, pre, p[net.pos..end], k);
  }

  lemma TailSlice(p: seq<byte>, pos: nat, end: nat)
    requires pos <= end <= |p|
    ensures p[pos..][..end - pos] == p[pos..end]
  {
  }

  lemma WireInSlice(p: seq<byte>, pos: nat, end: nat, a: nat)
    requires pos + a + 2 <= end <= |p|
    ensures Wire16(p[pos..end], a) == Wire16(p, pos + a)
    ensures p[pos..end][a + 1] == p[pos + a + 1]
  {
  }

  lemma PortDownPrefix(e: Endian, s: seq<byte>, k: nat, n: nat)
    requires 4 <= k && k + 2 <= n <= |s|
    ensures PortDown(e, s, k)[..n] == PortDown(e, s[..n], k)
  {
    MovedPrefix(e, s, DEST_PORT, k, -1, 1, n);
  }

  lemma PortUpPrefix(e: Endian, s: seq<byte>, k: nat, n: nat)
    requires 4 <= k && k + 2 <= n <= |s|
    ensures PortUp(e, s, k)[..n] == PortUp(e, s[..n], k)
  {
    MovedPrefix(e, s, SOURCE_PORT, k, 1, 0xFFFF, n);
  }

  lemma SegmentSlice(p: seq<byte>, pos: nat, end: nat, s: seq<byte>)
    requires pos <= end <= |p| && |s| == |p| - pos
    ensures var q := WithSegment(p, pos, s);
            |q| == |p| && q[..pos] == p[..pos] && q[pos..end] == s[..end - pos]
  {
  }

  /** The egress program on a whole packet, likewise. */
  lemma FixPortOk(e: Endian, p: seq<byte>, pre: seq<byte>, end: nat)
    requires |pre| % 2 == 0
    requires var net := Dissect(p, VLAN_MAX_DEPTH);
             && net.Net? && CheckOff(p, net) >= 0 && net.pos + CheckOff(p, net) + 2 <= end <= |p|
             && ChecksumOk(pre + p[net.pos..end])
    ensures var (net, q) := (Dissect(p, VLAN_MAX_DEPTH), FixPortStep(e, p));
            var k := CheckOff(p, net);
            && |q| == |p| && q[..net.pos] == p[..net.pos]
            && (ChecksumOk(pre + q[net.pos..end]) <==>
                  if Wire16(p, net.pos + SOURCE_PORT) == 0xFFFF then Wire16(p, net.pos + k) == 0
                  else e.Big? && Wire16(p, net.pos + k) != 0)
  {
    hide PortUp, Dissect, ChecksumOk;
    var net := Dissect(p, VLAN_MAX_DEPTH);
    var k := CheckOff(p, net);
    ChainInBounds(p, VLAN_MAX_DEPTH);
    SegmentSlice(p, net.pos, end, PortUp(e, p[net.pos..], k));
    PortUpPrefix(e, p[net.pos..], k, end - net.pos);
    TailSlice(p, net.pos, end);
    WireInSlice(p, net.pos, end, SOURCE_PORT);
    WireInSlice(p, net.pos, end, k);
    PortUpOk(e, pre, p[net.pos..end], k);
  }

  /** What pseudo-header and datagram sum to once the port at `a` has moved. */
  function SumMoved(pre: seq<byte>, s: seq<byte>, a: nat, portDelta: int): int
    requires a + 2 <= |s|
  {
    Sum(Big, pre + s) + (Wire16(s, a) + portDelta) % 0x1_0000 - Wire16(s, a)
  }

  /** A UDP datagram sent without a checksum, its field zero, leaves either
      program with a field that is not zero, 1 on ingress and 0xFFFF on egress, on
      every host. So a receiver will judge it, and accepts it only if the sum of
      what the sender never meant to be summed happens to fit. */
  lemma NoChecksumIsLost(e: Endian, p: seq<byte>, pre: seq<byte>, end: nat)
    requires |pre| % 2 == 0
    requires var net := Dissect(p, VLAN_MAX_DEPTH);
             net.Net? && net.proto == IPPROTO_UDP && CheckOff(p, net) == UDP_CHECK
             && net.pos + 8 <= end <= |p| && Wire16(p, net.pos + UDP_CHECK) == 0
    ensures var (pos, d, u) := (Dissect(p, VLAN_MAX_DEPTH).pos, PatchPortsStep(e, p), FixPortStep(e, p));
            && d[pos + 6..pos + 8] == [0, 1] && u[pos + 6..pos + 8] == [0xFF, 0xFF]
            && (ChecksumOk(pre + d[pos..end]) <==> IsZeroMod(SumMoved(pre, p[pos..end], DEST_PORT, -1) + 1))
            && (ChecksumOk(pre + u[pos..end]) <==> IsZeroMod(SumMoved(pre, p[pos..end], SOURCE_PORT, 1)))
  {
    hide Dissect, StepCheck, Splice, CheckOff, ChecksumOk, Moved, SumMoved, Store16;
    var pos := Dissect(p, VLAN_MAX_DEPTH).pos;
    ChainInBounds(p, VLAN_MAX_DEPTH);
    StepFromZero(e);
    MovedField(e, p, pos, DEST_PORT, UDP_CHECK, -1, 1);
    MovedField(e, p, pos, SOURCE_PORT, UDP_CHECK, 1, 0xFFFF);
    MovedSlice(e, p, pos, DEST_PORT, -1, 1, end);
    MovedSlice(e, p, pos, SOURCE_PORT, 1, 0xFFFF, end);
    WireInSlice(p, pos, end, UDP_CHECK);
    JudgedField(e, pre, p[pos..end], DEST_PORT, -1, 1);
    JudgedField(e, pre, p[pos..end], SOURCE_PORT, 1, 0xFFFF);
    var sum := SumMoved(pre, p[pos..end], SOURCE_PORT, 1);
    ZeroModIff(sum + 0xFFFF, 1, sum);
  }

  lemma MovedSlice(e: Endian, p: seq<byte>, pos: nat, a: nat, portDelta: int, csumDelta: u16, end: nat)
    requires pos + 8 <= end <= |p| && a + 2 <= UDP_CHECK
    ensures var q := WithSegment(p, pos, Moved(e, p[pos..], a, UDP_CHECK, portDelta, csumDelta));
            |q| == |p| && q[pos..end] == Moved(e, p[pos..end], a, UDP_CHECK, portDelta, csumDelta)
  {
    hide Moved, WithSegment;
    SegmentSlice(p, pos, end, Moved(e, p[pos..], a, UDP_CHECK, portDelta, csumDelta));
    MovedPrefix(e, p[pos..], a, UDP_CHECK, portDelta, csumDelta, end - pos);
    TailSlice(p, pos, end);
  }

  /** What the new field over a zero one makes of the datagram. */
  lemma JudgedField(e: Endian, pre: seq<byte>, s: seq<byte>, a: nat, portDelta: int, csumDelta: u16)
    requires |pre| % 2 == 0 && 8 <= |s| && a % 2 == 0 && a <= 4 && Wire16(s, UDP_CHECK) == 0
    requires Store16(e, StepCheck(e, 0, csumDelta)) != [0, 0]
    ensures var cs := Store16(e, StepCheck(e, 0, csumDelta));
            ChecksumOk(pre + Moved(e, s, a, UDP_CHECK, portDelta, csumDelta)) <==>
            IsZeroMod(SumMoved(pre, s, a, portDelta) + Load16(Big, cs[0], cs[1]))
  {
    hide StepCheck, Store16, Splice, ChecksumOk, Moved, Sum;
    var r := Moved(e, s, a, UDP_CHECK, portDelta, csumDelta);
    FieldOfStep(e, s, csumDelta);
    MovedSum(e, pre, s, a, UDP_CHECK, portDelta, csumDelta);
    AppendedField(pre, r, UDP_CHECK);
    OkByField(pre + r, |pre| + UDP_CHECK);
  }

  lemma FieldOfStep(e: Endian, s: seq<byte>, csumDelta: u16)
    requires UDP_CHECK + 2 <= |s| && Wire16(s, UDP_CHECK) == 0
    requires Store16(e, StepCheck(e, 0, csumDelta)) != [0, 0]
    ensures var cs := Store16(e, StepCheck(e, 0, csumDelta));
            Htons(e, StepCheck(e, Host16(e, s, UDP_CHECK), csumDelta)) == Load16(Big, cs[0], cs[1]) != 0
  {
    hide StepCheck, Store16;
    assert Host16(e, s, UDP_CHECK) == 0;
    WireStored(e, StepCheck(e, 0, csumDelta));
  }

  /** With a field that is not zero a segment is not all zero. */
  lemma OkByField(s: seq<byte>, at: nat)
    requires at + 2 <= |s| && Wire16(s, at) != 0
    ensures ChecksumOk(s) <==> IsZeroMod(Sum(Big, s))
  {
    OkIff(Big, s);
    assert s[at] != 0 || s[at + 1] != 0;
  }

  lemma MovedField(e: Endian, p: seq<byte>, pos: nat, a: nat, k: nat, portDelta: int, csumDelta: u16)
    requires pos + k + 2 <= |p| && a + 2 <= k && Wire16(p, pos + k) == 0
    ensures var q := WithSegment(p, pos, Moved(e, p[pos..], a, k, portDelta, csumDelta));
            |q| == |p| && q[pos + k..pos + k + 2] == Store16(e, StepCheck(e, 0, csumDelta))
  {
    hide StepCheck, Store16, Splice;
    var s := p[pos..];
    assert s[k] == p[pos + k] && s[k + 1] == p[pos + k + 1];
    assert Host16(e, s, k) == 0;
    var cs := Store16(e, StepCheck(e, 0, csumDelta));
    var r := Moved(e, s, a, k, portDelta, csumDelta);
    assert r[k] == cs[0] && r[k + 1] == cs[1];
    var q := WithSegment(p, pos, r);
    assert q[pos + k] == r[k] && q[pos + k + 1] == r[k + 1];
  }

  /** The three field updates both programs make, on the segment at `pos`. */
  method MovePort(e: Endian, ctx: XdpMd, pos: nat, a: nat, k: nat, portDelta: int, csumDelta: u16)
    requires ctx.Valid() && pos + k + 2 <= |ctx.Bytes()| && a + 2 <= k
    modifies ctx.mem
    ensures var p := old(ctx.Bytes());
            ctx.Bytes() == WithSegment(p, pos, Moved(e, p[pos..], a, k, portDelta, csumDelta))
  {
    hide Splice, Store16, Htons, StepCheck, Moved;
    var p := ctx.Bytes();
    MovedWithin(e, p, pos, a, k, portDelta, csumDelta);
    var port: u16 := (Ntohs16(e, p, pos + a) + portDelta) % 0x1_0000;
    ctx.Write(pos + a, Store16(Big, port));
    var check := Host16(e, ctx.Bytes(), pos + k);
    assert check == Host16(e, p, pos + k);
    ctx.Write(pos + k, Store16(e, StepCheck(e, check, csumDelta)));
  }

  lemma MovedWithin(e: Endian, p: seq<byte>, pos: nat, a: nat, k: nat, portDelta: int, csumDelta: u16)
    requires pos + k + 2 <= |p| && a + 2 <= k
    ensures WithSegment(p, pos, Moved(e, p[pos..], a, k, portDelta, csumDelta)) ==
            Splice(Splice(p, pos + a, Store16(Big, (Wire16(p, pos + a) + portDelta) % 0x1_0000)),
                   pos + k, Store16(e, StepCheck(e, Host16(e, p, pos + k), csumDelta)))
  {
    hide Splice, Store16, Htons, StepCheck;
    assert Wire16(p[pos..], a) == Wire16(p, pos + a) && Host16(e, p[pos..], k) == Host16(e, p, pos + k);
    SegmentSplices(p, pos, a, Store16(Big, (Wire16(p, pos + a) + portDelta) % 0x1_0000),
                   k, Store16(e, StepCheck(e, Host16(e, p, pos + k), csumDelta)));
  }

  lemma SegmentSplices(p: seq<byte>, pos: nat, a: nat, x: seq<byte>, k: nat, y: seq<byte>)
    requires |x| == 2 && |y| == 2 && a + 2 <= k && pos + k + 2 <= |p|
    ensures Splice(Splice(p, pos + a, x), pos + k, y) == p[..pos] + Splice(Splice(p[pos..], a, x), k, y)
  {
    hide Splice;
    var u, v := Splice(Splice(p, pos + a, x), pos + k, y), p[..pos] + Splice(Splice(p[pos..], a, x), k, y);
    forall i | 0 <= i < |p|
      ensures u[i] == v[i]
    {
      if pos <= i {
        assert p[pos..][i - pos] == p[i];
      }
    }
  }

  /** `xdp_patch_ports_func`, up to the recording of its action. */
  method XdpPatchPorts(e: Endian, ctx: XdpMd) returns (action: int)
    requires ctx.Valid()
    modifies ctx.mem
    ensures ctx.Bytes() == PatchPortsStep(e, old(ctx.Bytes()))
    ensures var p := old(ctx.Bytes());
            var net := Dissect(p, VLAN_MAX_DEPTH);
            action == if |p| < 14 || (net.Net? && (net.proto == IPPROTO_UDP || net.proto == IPPROTO_TCP)
                                      && CheckOff(p, net) < 0) then XDP_ABORTED else XDP_PASS
  {
    hide Moved;
    var p := ctx.Bytes();
    ChainInBounds(p, VLAN_MAX_DEPTH);
    var nh := new HdrCursor(0);
    var ethType, v6, ipType, iphdr := ParseHeaders(e, p, nh);
    if ethType < 0 {
      return XDP_ABORTED;
    }
    action := XDP_PASS;
    if ipType == IPPROTO_UDP {
      var len, udphdr := ParseUdphdr(e, p, nh);
      if len < 0 {
        return XDP_ABORTED;
      }
      MovePort(e, ctx, udphdr, DEST_PORT, UDP_CHECK, -1, 1);
    } else if ipType == IPPROTO_TCP {
      var len, tcphdr := ParseTcphdr(p, nh);
      if len < 0 {
        return XDP_ABORTED;
      }
      MovePort(e, ctx, tcphdr, DEST_PORT, TCP_CHECK, -1, 1);
    }
  }

  /** `_fix_port_egress`; the skb's linear data stands for the packet. */
  method FixPortEgress(e: Endian, skb: XdpMd) returns (ret: int)
    requires skb.Valid()
    modifies skb.mem
    ensures ret == TC_ACT_OK
    ensures skb.Bytes() == FixPortStep(e, old(skb.Bytes()))
  {
    hide Moved;
    var p := skb.Bytes();
    ChainInBounds(p, VLAN_MAX_DEPTH);
    var nh := new HdrCursor(0);
    var ethType, v6, ipType, iphdr := ParseHeaders(e, p, nh);
    ret := TC_ACT_OK;
    if ethType < 0 {
      return;
    }
    if ipType == IPPROTO_UDP {
      var len, udphdr := ParseUdphdr(e, p, nh);
      if len < 0 {
        return;
      }
      MovePort(e, skb, udphdr, SOURCE_PORT, UDP_CHECK, 1, 0xFFFF);
    } else if ipType == IPPROTO_TCP {
      var len, tcphdr := ParseTcphdr(p, nh);
      if len < 0 {
        return;
      }
      MovePort(e, skb, tcphdr, SOURCE_PORT, TCP_CHECK, 1, 0xFFFF);
    }
  }
}
