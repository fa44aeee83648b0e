/** Packets any peer may send, on which the conditions of `Echo.ReplyIcmp4Ok`,
    `Ports.PatchPortsOk`, `Ports.FixPortOk` and `TailGrow.FrameSurvivesIff` fail. */
module Failures {
  import opened Words
  import opened Checksum
  import opened Parsing
  import Echo
  import Ports
  import TailGrow

  // ---------------------------------------------------------------------------
  // A 60-byte Ethernet frame with 28 bytes of IPv4 in it.

  /** An IPv4 header from 10.0.0.1 to 10.0.0.2, its length field 28. */
  function Header(proto: byte, check: seq<byte>): (h: seq<byte>)
    requires |check| == 2
    ensures |h| == 20
  {
    ([0x45, 0, 0, 28, 0, 0, 0, 0] + [64, proto] + check + [10, 0, 0, 1]) + [10, 0, 0, 2]
  }

  function Addresses(): (a: seq<byte>)
    ensures |a| == 14
  {
    [2, 0, 0, 0, 0, 1, 2, 0, 0, 0, 0, 2] + [8, 0]
  }

  /** The frame, padded behind its 8-byte segment to the minimum of Ethernet. */
  function Padded(header: seq<byte>, segment: seq<byte>): (p: seq<byte>)
    requires |header| == 20 && |segment| == 8
    ensures |p| == 60
  {
    Addresses() + header + segment + seq(18, _ => 0)
  }

  lemma PaddedParts(header: seq<byte>, segment: seq<byte>)
    requires |header| == 20 && |segment| == 8
    ensures var p := Padded(header, segment);
            && Wire16(p, 12) == ETH_P_IP && p[14..34] == header && p[34..42] == segment
            && forall i :: 42 <= i < 60 ==> p[i] == 0
  {
    var p := Padded(header, segment);
    assert p[12] == Addresses()[12] && p[13] == Addresses()[13];
  }

  lemma PaddedParses(proto: byte, check: seq<byte>, segment: seq<byte>)
    requires |check| == 2 && |segment| == 8
    ensures var p := Padded(Header(proto, check), segment);
            Dissect(p, VLAN_MAX_DEPTH) == Net(false, 14, 34, proto) && Wire16(p, 16) == 28
  {
    hide Padded;
    var h := Header(proto, check);
    var p := Padded(h, segment);
    PaddedParts(h, segment);
    assert p[14] == p[14..34][0] == h[0] && p[16] == p[14..34][2] == h[2];
    assert p[17] == p[14..34][3] == h[3] && p[23] == p[14..34][9] == h[9];
  }

  lemma Sum4(s: seq<byte>)
    requires |s| == 4
    ensures Sum(Big, s) == Wire16(s, 0) as int + Wire16(s, 2)
  {
    SumPair(Big, s[..2]);
    SumPair(Big, s[2..]);
    assert s[2..][0] == s[2] && s[2..][1] == s[3];
    assert s == s[..2] + s[2..];
    SumConcat(Big, s[..2], s[2..]);
  }

  lemma Sum8(s: seq<byte>)
    requires |s| == 8
    ensures Sum(Big, s) == Wire16(s, 0) as int + Wire16(s, 2) + Wire16(s, 4) + Wire16(s, 6)
  {
    Sum4(s[..4]);
    Sum4(s[4..]);
    assert s[4..][0] == s[4] && s[4..][1] == s[5] && s[4..][2] == s[6] && s[4..][3] == s[7];
    assert s == s[..4] + s[4..];
    SumConcat(Big, s[..4], s[4..]);
  }

  lemma OkByQuotient(s: seq<byte>, q: nat)
    requires Sum(Big, s) == 0xFFFF * q && q > 0
    ensures ChecksumOk(s)
  {
    OkIff(Big, s);
    SumZero(Big, s);
    ZeroModBy(Sum(Big, s), q);
  }

  lemma HeaderSum(proto: byte, check: seq<byte>)
    requires |check| == 2
    ensures Sum(Big, Header(proto, check)) == 0x9920 - 1 + proto + Load16(Big, check[0], check[1])
  {
    var a, b, c: seq<byte> := [0x45, 0, 0, 28, 0, 0, 0, 0], [64, proto] + check + [10, 0, 0, 1], [10, 0, 0, 2];
    hide Sum, Header;
    HeaderParts(proto, check);
    Sum8(a);
    Sum8(b);
    Sum4(c);
    SumConcat(Big, b, c);
    SumConcat(Big, a, b + c);
  }

  lemma HeaderParts(proto: byte, check: seq<byte>)
    requires |check| == 2
    ensures Header(proto, check) == [0x45, 0, 0, 28, 0, 0, 0, 0] + ([64, proto] + check + [10, 0, 0, 1] + [10, 0, 0, 2])
  {
  }

  // ---------------------------------------------------------------------------
  // A ping whose reply is all zero, and whose frame is padded.

  function Ping(): (p: seq<byte>)
    ensures |p| == 60
  {
    Padded(Header(IPPROTO_ICMP, [0x66, 0xDF]), [8, 0, 0xF7, 0xFF, 0, 0, 0, 0])
  }

  lemma PingIsGood()
    ensures Dissect(Ping(), VLAN_MAX_DEPTH) == Net(false, 14, 34, IPPROTO_ICMP) && Wire16(Ping(), 16) == 28
    ensures ChecksumOk(Ping()[14..34]) && ChecksumOk(Ping()[34..42])
    ensures Ping()[34..42] == [8, 0, 0xF7, 0xFF, 0, 0, 0, 0] && forall i :: 42 <= i < 60 ==> Ping()[i] == 0
  {
    hide Padded, Dissect, ChecksumOk;
    var h, m: seq<byte> := Header(IPPROTO_ICMP, [0x66, 0xDF]), [8, 0, 0xF7, 0xFF, 0, 0, 0, 0];
    PaddedParses(IPPROTO_ICMP, [0x66, 0xDF], m);
    PaddedParts(h, m);
    HeaderSum(IPPROTO_ICMP, [0x66, 0xDF]);
    OkByQuotient(h, 1);
    Sum8(m);
    OkByQuotient(m, 1);
  }

  /** A valid ping, header and message accepted, is answered on every host with a
      reply no receiver accepts. */
  lemma EchoFails(e: Endian)
    ensures var (p, net) := (Ping(), Dissect(Ping(), VLAN_MAX_DEPTH));
            && Echo.IsRequest(p, net) && !net.v6
            && ChecksumOk(p[net.hdr..net.pos]) && ChecksumOk(p[net.pos..42])
            && !ChecksumOk(Echo.EchoStep(e, p)[net.pos..42])
  {
    hide Dissect, ChecksumOk, Ping;
    PingIsGood();
    var p, m := Ping(), Ping()[34..42];
    var net := Dissect(p, VLAN_MAX_DEPTH);
    assert p[34] == m[0] && p[35] == m[1];
    assert p[38..42] == m[4..];
    assert Echo.IsRequest(p, net);
    Echo.ReplyIcmp4Ok(e, p, net, 42);
  }

  /** The same ping, padded as Ethernet demands, is damaged by the stamp on every
      host at every time. */
  lemma StampFails(e: Endian, time: TailGrow.Time)
    ensures TailGrow.IsStampable(Ping(), Dissect(Ping(), VLAN_MAX_DEPTH))
    ensures TailGrow.StampStep(e, TailGrow.Grown(Ping()), time).1[..60] != Ping()
  {
    hide Dissect, Ping, TailGrow.Stamp, TailGrow.StampStep, ChecksumOk;
    PingIsGood();
    var p := Ping();
    var net := Dissect(p, VLAN_MAX_DEPTH);
    assert TailGrow.IsStampable(p, net) && TailGrow.StampPos(p, net) == 42;
    TailGrow.StampKeeps(e, p, time, 42);
    TailGrow.StampIsNotZero(e, time);
    assert p[42] != TailGrow.Stamp(e, time)[42 - 42];
  }

  // ---------------------------------------------------------------------------
  // A datagram to port 53, and one to port 0.

  /** Source and destination address, protocol and length, as UDP sums them. */
  const PSEUDO: seq<byte> := [10, 0, 0, 1, 10, 0, 0, 2] + [0, 17, 0, 8]

  /** An empty datagram from port 0xC0A7. */
  function Datagram(port: byte, check: seq<byte>): (p: seq<byte>)
    requires |check| == 2
    ensures |p| == 60
  {
    Padded(Header(IPPROTO_UDP, [0x66, 0xCF]), [0xC0, 0xA7, 0, port, 0, 8] + check)
  }

  lemma DatagramIsGood(port: byte, check: seq<byte>)
    requires |check| == 2 && 0xD4CB + port + Load16(Big, check[0], check[1]) == 0xFFFF
    ensures var p := Datagram(port, check);
            && Dissect(p, VLAN_MAX_DEPTH) == Net(false, 14, 34, IPPROTO_UDP) && ChecksumOk(p[14..34])
            && p[34..42] == [0xC0, 0xA7, 0, port, 0, 8] + check && ChecksumOk(PSEUDO + p[34..42])
            && Ports.CheckOff(p, Dissect(p, VLAN_MAX_DEPTH)) == Ports.UDP_CHECK
  {
    hide Padded, Dissect, ChecksumOk, Sum;
    var h, m: seq<byte> := Header(IPPROTO_UDP, [0x66, 0xCF]), [0xC0, 0xA7, 0, port, 0, 8] + check;
    var p := Datagram(port, check);
    PaddedParses(IPPROTO_UDP, [0x66, 0xCF], m);
    PaddedParts(h, m);
    HeaderSum(IPPROTO_UDP, [0x66, 0xCF]);
    OkByQuotient(h, 1);
    PseudoSum(m);
    OkByQuotient(PSEUDO + m, 1);
    assert p[38] == p[34..42][4] && p[39] == p[34..42][5];
  }

  lemma PseudoSum(m: seq<byte>)
    requires |m| == 8
    ensures |PSEUDO + m| == 20
    ensures Sum(Big, PSEUDO + m) == 0x141C + Wire16(m, 0) as int + Wire16(m, 2) + Wire16(m, 4) + Wire16(m, 6)
  {
    PseudoBase();
    Sum8(m);
    SumConcat(Big, PSEUDO, m);
  }

  lemma PseudoBase()
    ensures |PSEUDO| == 12 && Sum(Big, PSEUDO) == 0x141C
  {
    var a, b: seq<byte> := [10, 0, 0, 1, 10, 0, 0, 2], [0, 17, 0, 8];
    Sum8(a);
    Sum4(b);
    SumConcat(Big, a, b);
    assert PSEUDO == a + b;
  }

  /** A valid datagram to port 53 that the ingress program breaks on little-endian
      hosts only, and one to port 0 that it breaks on every host. */
  lemma PortDownFails(e: Endian)
    ensures ChecksumOk(PSEUDO + Datagram(53, [0x2A, 0xFF])[34..42])
    ensures ChecksumOk(PSEUDO + Ports.PatchPortsStep(e, Datagram(53, [0x2A, 0xFF]))[34..42]) <==> e.Big?
    ensures ChecksumOk(PSEUDO + Datagram(0, [0x2B, 0x34])[34..42])
    ensures !ChecksumOk(PSEUDO + Ports.PatchPortsStep(e, Datagram(0, [0x2B, 0x34]))[34..42])
  {
    hide Dissect, ChecksumOk, Datagram, Ports.PatchPortsStep, Ports.CheckOff;
    PortDownOf(e, 53, [0x2A, 0xFF]);
    PortDownOf(e, 0, [0x2B, 0x34]);
  }

  lemma PortDownOf(e: Endian, port: byte, check: seq<byte>)
    requires |check| == 2 && 0xD4CB + port + Load16(Big, check[0], check[1]) == 0xFFFF
    ensures ChecksumOk(PSEUDO + Datagram(port, check)[34..42])
    ensures |Ports.PatchPortsStep(e, Datagram(port, check))| == 60
    ensures ChecksumOk(PSEUDO + Ports.PatchPortsStep(e, Datagram(port, check))[34..42])
            <==> port != 0 && (e.Big? || check[1] != 0xFF)
  {
    hide Dissect, ChecksumOk, Datagram, Ports.PatchPortsStep, Ports.CheckOff;
    var p := Datagram(port, check);
    DatagramIsGood(port, check);
    var m := p[34..42];
    assert p[36] == m[2] && p[37] == m[3] && p[41] == m[7];
    Ports.PatchPortsOk(e, p, PSEUDO, 42);
  }

  /** The egress program breaks that same datagram on little-endian hosts, as any
      whose port does not wrap, and leaves it valid on big-endian ones. */
  lemma PortUpFails(e: Endian)
    ensures ChecksumOk(PSEUDO + Datagram(53, [0x2A, 0xFF])[34..42])
    ensures |Ports.FixPortStep(e, Datagram(53, [0x2A, 0xFF]))| == 60
    ensures ChecksumOk(PSEUDO + Ports.FixPortStep(e, Datagram(53, [0x2A, 0xFF]))[34..42]) <==> e.Big?
  {
    hide Dissect, ChecksumOk, Datagram, Ports.FixPortStep, Ports.CheckOff;
    var p := Datagram(53, [0x2A, 0xFF]);
    DatagramIsGood(53, [0x2A, 0xFF]);
    var m := p[34..42];
    assert p[34] == m[0] && p[35] == m[1] && p[40] == m[6] && p[41] == m[7];
    Ports.FixPortOk(e, p, PSEUDO, 42);
  }
}
