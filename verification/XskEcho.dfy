/** The AF_XDP lesson: an IPv6 echo request in a UMEM frame is turned into its
    reply in place, the checksum patched by `csum_replace2`. */
module XskEcho {
  import opened Words
  import opened Checksum
  import opened Incremental
  import opened Parsing
  import Echo

  const HEADERS: nat := 62
  const ICMP_OFF: nat := 54

  /** The packet the lesson answers: untagged IPv6 whose next header is ICMPv6. */
  predicate IsPing(p: seq<byte>) {
    HEADERS <= |p| && Wire16(p, 12) == ETH_P_IPV6 && p[20] == IPPROTO_ICMPV6 && p[54] == Echo.ICMPV6_ECHO_REQUEST
  }

  /** The checksum field after `csum_replace2` with `htons(type << 8)` for old and new. */
  function PongCsum(e: Endian, check: u16): u16 {
    CsumReplace2(check, Htons(e, Echo.ICMPV6_ECHO_REQUEST * 0x100), Htons(e, Echo.ICMPV6_ECHO_REPLY * 0x100))
  }

  /** The reply. */
  function Pong(e: Endian, p: seq<byte>): (r: seq<byte>)
    requires IsPing(p)
    ensures |r| == |p|
  {
    Echo.Marked(Echo.Swapped(Echo.Swapped(p, 0, 6), 22, 16), ICMP_OFF, Echo.ICMPV6_ECHO_REPLY,
                Store16(e, PongCsum(e, Host16(e, p, 56))))
  }

  method CopyTo(a: array<byte>, at: nat, bs: seq<byte>)
    requires at + |bs| <= a.Length
    modifies a
    ensures a[..] == Splice(old(a[..]), at, bs)
  {
    ghost var before := a[..];
    for i := 0 to |bs|
      invariant a[..] == Splice(before, at, bs[..i])
    {
      a[at + i] := bs[i];
      assert a[..] == Splice(before, at, bs[..i + 1]);
    }
    assert bs[..|bs|] == bs;
  }

  /** The rewriting part of `process_packet` on the frame at `addr`: answers
      whether the packet is a ping, and then leaves the reply in its place. */
  method RewritePing(e: Endian, buffer: array<byte>, addr: nat, len: nat) returns (ok: bool)
    requires addr + len <= buffer.Length && 14 <= len
    modifies buffer
    ensures var p := old(buffer[addr..addr + len]);
            && ok == IsPing(p)
            && buffer[..] == if ok then Splice(old(buffer[..]), addr, Pong(e, p)) else old(buffer[..])
  {
    hide Splice, Store16, PongCsum, Echo.Swapped, Echo.Marked;
    var p := buffer[addr..addr + len];
    if Ntohs16(e, p, 12) != ETH_P_IPV6 || len < HEADERS ||
       p[20] != IPPROTO_ICMPV6 || p[54] != Echo.ICMPV6_ECHO_REQUEST
    {
      return false;
    }
    CopyTo(buffer, addr, p[6..12] + p[..6]);
    CopyTo(buffer, addr + 22, p[38..54] + p[22..38]);
    CopyTo(buffer, addr + 54, [Echo.ICMPV6_ECHO_REPLY]);
    assert buffer[addr + 56] == p[56] && buffer[addr + 57] == p[57];
    var cksum := Load16(e, buffer[addr + 56], buffer[addr + 57]);
    CopyTo(buffer, addr + 56, Store16(e, PongCsum(e, cksum)));
    PongByCopies(e, old(buffer[..]), addr, len);
    ok := true;
  }

  lemma PongByCopies(e: Endian, b: seq<byte>, addr: nat, len: nat)
    requires addr + len <= |b| && IsPing(b[addr..addr + len])
    ensures var p := b[addr..addr + len];
            var cs := Store16(e, PongCsum(e, Load16(e, p[56], p[57])));
            Splice(Splice(Splice(Splice(b, addr, p[6..12] + p[..6]), addr + 22, p[38..54] + p[22..38]),
                          addr + 54, [Echo.ICMPV6_ECHO_REPLY]), addr + 56, cs)
            == Splice(b, addr, Pong(e, p))
  {
    hide Splice, Store16, PongCsum, Echo.Swapped, Echo.Marked;
    var p := b[addr..addr + len];
    var cs := Store16(e, PongCsum(e, Load16(e, p[56], p[57])));
    var u := Splice(Splice(Splice(Splice(b, addr, p[6..12] + p[..6]), addr + 22, p[38..54] + p[22..38]),
                           addr + 54, [Echo.ICMPV6_ECHO_REPLY]), addr + 56, cs);
    var v := Splice(b, addr, Pong(e, p));
    forall i | 0 <= i < |b|
      ensures u[i] == v[i]
    {
      if addr <= i < addr + len {
        PongByte(e, p, i - addr);
        assert p[i - addr] == b[i];
      }
    }
  }

  lemma PongByte(e: Endian, p: seq<byte>, i: nat)
    requires IsPing(p) && i < |p|
    ensures Pong(e, p)[i] ==
            if i < 6 then p[i + 6]
            else if i < 12 then p[i - 6]
            else if 22 <= i < 38 then p[i + 16]
            else if 38 <= i < 54 then p[i - 16]
            else if i == 54 then Echo.ICMPV6_ECHO_REPLY
            else if 56 <= i < 58 then Store16(e, PongCsum(e, Load16(e, p[56], p[57])))[i - 56]
            else p[i]
  {
    hide Store16, PongCsum, Echo.Swapped, Echo.Marked;
    var q := Echo.Swapped(p, 0, 6);
    assert Echo.Swapped(q, 22, 16)[i] == if 22 <= i < 38 then q[i + 16] else if 38 <= i < 54 then q[i - 16] else q[i];
  }

  /** The code patches with the two types alone, whatever the code byte: the words
      differ as the real ones do, so the complemented sum has the right residue
      and is never zero. */
  lemma PongValue(e: Endian, c: u16, code: byte)
    ensures var v := Replace2Sum(c, Htons(e, 0x8000), Htons(e, 0x8100));
            && v > 0 && PongCsum(e, c) == ONES - Canon(v)
            && Same(v, Not16(c) as int - Load16(e, 0x80, code) + Load16(e, 0x81, code))
  {
    SwapBytes(0x80, 0);
    SwapBytes(0x81, 0);
    Replace2Value(c, Htons(e, 0x8000), Htons(e, 0x8100));
  }

  /** For every end of the message and every length field, the reply is accepted
      over pseudo-header and message exactly when the request was. */
  lemma PongOk(e: Endian, p: seq<byte>, end: nat, len: seq<byte>)
    requires IsPing(p) && |len| == 4 && 58 <= end <= |p|
    ensures var r := Pong(e, p);
            ChecksumOk(Echo.PseudoHeader6(r[14..54], len) + r[54..end]) <==>
            ChecksumOk(Echo.PseudoHeader6(p[14..54], len) + p[54..end])
  {
    hide PongCsum, Store16;
    var h, m := p[14..54], p[54..end];
    var cs := Store16(e, PongCsum(e, Host16(e, p, 56)));
    PongSlices(e, p, end);
    assert m[0] == p[54] && m[2] == p[56] && m[3] == p[57];
    PongMessage(e, h, m, len);
  }

  lemma PongSlices(e: Endian, p: seq<byte>, end: nat)
    requires IsPing(p) && 58 <= end <= |p|
    ensures Pong(e, p)[14..54] == Echo.Swapped(p[14..54], 8, 16)
    ensures Pong(e, p)[54..end] ==
            Echo.Marked(p[54..end], 0, Echo.ICMPV6_ECHO_REPLY, Store16(e, PongCsum(e, Host16(e, p, 56))))
  {
    hide PongCsum, Store16, Echo.Swapped, Echo.Marked;
    var r, h, m := Pong(e, p), p[14..54], p[54..end];
    forall i | 0 <= i < 40
      ensures r[14..54][i] == Echo.Swapped(h, 8, 16)[i]
    {
      PongByte(e, p, 14 + i);
    }
    var t := Echo.Marked(m, 0, Echo.ICMPV6_ECHO_REPLY, Store16(e, PongCsum(e, Host16(e, p, 56))));
    forall i | 0 <= i < end - 54
      ensures r[54..end][i] == t[i]
    {
      PongByte(e, p, 54 + i);
    }
  }

  lemma PongMessage(e: Endian, h: seq<byte>, m: seq<byte>, len: seq<byte>)
    requires |h| == 40 && 4 <= |m| && |len| == 4 && m[0] == Echo.ICMPV6_ECHO_REQUEST
    ensures var r := Echo.Marked(m, 0, Echo.ICMPV6_ECHO_REPLY, Store16(e, PongCsum(e, Host16(e, m, 2))));
            ChecksumOk(Echo.PseudoHeader6(Echo.Swapped(h, 8, 16), len) + r) <==>
            ChecksumOk(Echo.PseudoHeader6(h, len) + m)
  {
    hide PongCsum, Store16, Echo.PseudoHeader6, Echo.Swapped;
    var c := Host16(e, m, 2);
    var pre := Echo.PseudoHeader6(Echo.Swapped(h, 8, 16), len);
    Echo.PseudoSwapped(h, m, len);
    Echo.SwappedSum(Big, Echo.PseudoHeader6(h, len) + m, 0, 16);
    Echo.OkBySum(Echo.PseudoHeader6(h, len) + m, pre + m);
    PongValue(e, c, m[1]);
    PongSegment(e, pre, m, Replace2Sum(c, Htons(e, 0x8000), Htons(e, 0x8100)), PongCsum(e, c));
  }

  lemma PongSegment(e: Endian, pre: seq<byte>, m: seq<byte>, v: nat, f: u16)
    requires |pre| == 40 && 4 <= |m| && m[0] == Echo.ICMPV6_ECHO_REQUEST && v > 0 && f == ONES - Canon(v)
    requires Same(v, Not16(Host16(e, m, 2)) as int - Load16(e, 0x80, m[1]) + Load16(e, 0x81, m[1]))
    ensures ChecksumOk(pre + Echo.Marked(m, 0, Echo.ICMPV6_ECHO_REPLY, Store16(e, f))) <==> ChecksumOk(pre + m)
  {
    hide Store16;
    var s := pre + m;
    var new_ := [Echo.ICMPV6_ECHO_REPLY, m[1]];
    assert s[40] == m[0] && s[41] == m[1] && s[42] == m[2] && s[43] == m[3];
    Replace2Segment(e, s, 42, 40, new_, v, f);
    var s1 := Splice(s, 40, new_);
    assert Cleared(s1, 42)[40] == Echo.ICMPV6_ECHO_REPLY;
    OkOrZero(e, s);
    PongJoin(pre, m, Store16(e, f));
  }

  lemma PongJoin(pre: seq<byte>, m: seq<byte>, cs: seq<byte>)
    requires |pre| == 40 && 4 <= |m| && |cs| == 2
    ensures pre + Echo.Marked(m, 0, Echo.ICMPV6_ECHO_REPLY, cs)
            == Splice(Splice(pre + m, 40, [Echo.ICMPV6_ECHO_REPLY, m[1]]), 42, cs)
  {
    hide Splice, Echo.Marked;
    var u := pre + Echo.Marked(m, 0, Echo.ICMPV6_ECHO_REPLY, cs);
    var v := Splice(Splice(pre + m, 40, [Echo.ICMPV6_ECHO_REPLY, m[1]]), 42, cs);
    forall i | 0 <= i < |u|
      ensures u[i] == v[i]
    {
    }
  }
}
