/** The parsers against the layout of the headers they handle: bytes at their
    offsets and numbers as the standards assign them, without the names the
    parsers are written with. */
module Layout {
  import opened Words
  import opened Packet
  import opened Parsing

  // ---------------------------------------------------------------------------
  // Words.

  /** The wire is big-endian; a host loads and stores in its own order. */
  lemma WordBytes(s: seq<byte>, off: nat, x: u16)
    requires off + 2 <= |s|
    ensures Wire16(s, off) == s[off] as int * 256 + s[off + 1]
    ensures Host16(Big, s, off) == s[off] as int * 256 + s[off + 1]
    ensures Host16(Little, s, off) == s[off + 1] as int * 256 + s[off]
    ensures Store16(Big, x) == [x / 256, x % 256] && Store16(Little, x) == [x % 256, x / 256]
    ensures Htons(Big, x) == x && Htons(Little, x) == x % 256 * 256 + x / 256
  {
  }

  /** What a program answers and what the kernel makes of it. */
  lemma ActionNumbers()
    ensures (XDP_ABORTED, XDP_DROP, XDP_PASS, XDP_TX, XDP_REDIRECT) == (0, 1, 2, 3, 4)
  {
  }

  // ---------------------------------------------------------------------------
  // Parsing.

  /** The two types that announce a VLAN tag, as the wire and as a host has them. */
  lemma TagTypes(e: Endian, x: u16)
    ensures IsVlan(x) <==> x == 0x8100 || x == 0x88A8
    ensures ProtoIsVlan(Big, x) <==> x == 0x8100 || x == 0x88A8
    ensures ProtoIsVlan(Little, x) <==> x == 0x0081 || x == 0xA888
  {
    SwapBytes(0x81, 0);
    SwapBytes(0x88, 0xA8);
  }

  /** Behind at most two complete tags stands the type of the network header; an
      ID is the low 12 bits of its TCI. */
  lemma TagsByBytes(p: seq<byte>)
    requires 14 <= |p|
    ensures var s := SkipTags(p, 14, Wire16(p, 12), VLAN_MAX_DEPTH);
            if |p| < 18 || (Wire16(p, 12) != 0x8100 && Wire16(p, 12) != 0x88A8) then
              s == Skip(14, Wire16(p, 12), [])
            else if |p| < 22 || (Wire16(p, 16) != 0x8100 && Wire16(p, 16) != 0x88A8) then
              s == Skip(18, Wire16(p, 16), [Wire16(p, 14) % 4096])
            else
              s == Skip(22, Wire16(p, 20), [Wire16(p, 14) % 4096, Wire16(p, 18) % 4096])
  {
    hide Load16;
    if 18 <= |p| && IsVlan(Wire16(p, 12)) {
      if 22 <= |p| && IsVlan(Wire16(p, 16)) {
        assert SkipTags(p, 22, Wire16(p, 20), 0) == Skip(22, Wire16(p, 20), []);
        assert SkipTags(p, 18, Wire16(p, 16), 1) == Skip(22, Wire16(p, 20), [Wire16(p, 18) % 4096]);
      } else {
        assert SkipTags(p, 18, Wire16(p, 16), 1) == Skip(18, Wire16(p, 16), []);
      }
    }
  }

  /** The network layer behind type `type_`, its header at `h`. */
  lemma NetByBytes(p: seq<byte>, h: nat, type_: u16)
    ensures ParseNet(p, h, type_) ==
            if type_ == 0x0800 && h + 20 <= |p| && 5 <= p[h] % 16 && h + p[h] % 16 * 4 <= |p| then
              Net(false, h, h + p[h] % 16 * 4, p[h + 9])
            else if type_ == 0x86DD && h + 40 <= |p| then Net(true, h, h + 40, p[h + 6])
            else NoNet
  {
  }

  /** The whole dissection, of every packet. */
  lemma DissectByBytes(p: seq<byte>)
    ensures |p| < 14 ==> Dissect(p, VLAN_MAX_DEPTH) == NoNet
    ensures 14 <= |p| ==>
              var h := if |p| < 18 || (Wire16(p, 12) != 0x8100 && Wire16(p, 12) != 0x88A8) then 14
                       else if |p| < 22 || (Wire16(p, 16) != 0x8100 && Wire16(p, 16) != 0x88A8) then 18
                       else 22;
              Dissect(p, VLAN_MAX_DEPTH) ==
              if Wire16(p, h - 2) == 0x0800 && h + 20 <= |p| && 5 <= p[h] % 16 && h + p[h] % 16 * 4 <= |p| then
                Net(false, h, h + p[h] % 16 * 4, p[h + 9])
              else if Wire16(p, h - 2) == 0x86DD && h + 40 <= |p| then Net(true, h, h + 40, p[h + 6])
              else NoNet
  {
    if 14 <= |p| {
      hide SkipTags, Load16, ParseNet;
      TagsByBytes(p);
      var s := SkipTags(p, 14, Wire16(p, 12), VLAN_MAX_DEPTH);
      NetByBytes(p, s.pos, s.proto);
    }
  }

  /** A stack of at most two tags: each is a type and a TCI in front of what follows. */
  predicate TagStack(tags: seq<byte>) {
    && (|tags| == 0 || |tags| == 4 || |tags| == 8)
    && (4 <= |tags| ==> tags[0..2] == [0x81, 0x00] || tags[0..2] == [0x88, 0xA8])
    && (8 == |tags| ==> tags[4..6] == [0x81, 0x00] || tags[4..6] == [0x88, 0xA8])
  }

  /** What is built is parsed: addresses, at most two tags, a type, and the rest. */
  lemma BuiltFrame(macs: seq<byte>, tags: seq<byte>, a: byte, b: byte, rest: seq<byte>)
    requires |macs| == 12 && TagStack(tags) && [a, b] != [0x81, 0x00] && [a, b] != [0x88, 0xA8]
    ensures var p := macs + tags + [a, b] + rest;
            Dissect(p, VLAN_MAX_DEPTH) == ParseNet(p, 14 + |tags|, a as int * 256 + b)
  {
    hide SkipTags, ParseNet;
    var p := macs + tags + [a, b] + rest;
    var n := |tags|;
    assert p[12 + n] == a && p[13 + n] == b;
    if 4 <= n {
      assert p[12] == tags[0..2][0] && p[13] == tags[0..2][1];
    }
    if n == 8 {
      assert p[16] == tags[4..6][0] && p[17] == tags[4..6][1];
    }
    TagsByBytes(p);
  }

  /** For every number `k` of option words, every version nibble and every payload
      an IPv4 frame dissects to its payload behind the options. Cut anywhere inside
      the header, or with a header length below five words, it does not dissect. */
  lemma BuiltIp4(macs: seq<byte>, tags: seq<byte>, header: seq<byte>, k: nat, rest: seq<byte>, cut: nat)
    requires |macs| == 12 && TagStack(tags) && k <= 10 && |header| == 20 + 4 * k && cut < |header|
    ensures header[0] % 16 == 5 + k ==>
              && Dissect(macs + tags + [8, 0] + (header + rest), VLAN_MAX_DEPTH)
                 == Net(false, 14 + |tags|, 34 + |tags| + 4 * k, header[9])
              && Dissect(macs + tags + [8, 0] + header[..cut], VLAN_MAX_DEPTH) == NoNet
    ensures header[0] % 16 < 5 ==> Dissect(macs + tags + [8, 0] + (header + rest), VLAN_MAX_DEPTH) == NoNet
  {
    hide Dissect, ParseNet;
    var h := 14 + |tags|;
    var p, c := macs + tags + [8, 0] + (header + rest), macs + tags + [8, 0] + header[..cut];
    BuiltFrame(macs, tags, 8, 0, header + rest);
    BuiltFrame(macs, tags, 8, 0, header[..cut]);
    NetByBytes(p, h, 0x0800);
    NetByBytes(c, h, 0x0800);
    assert p[h] == header[0] && p[h + 9] == header[9];
    assert 0 < cut ==> c[h] == header[0];
  }

  /** Likewise for IPv6, whose header has one length. */
  lemma BuiltIp6(macs: seq<byte>, tags: seq<byte>, header: seq<byte>, rest: seq<byte>, cut: nat)
    requires |macs| == 12 && TagStack(tags) && |header| == 40 && cut < 40
    ensures Dissect(macs + tags + [0x86, 0xDD] + (header + rest), VLAN_MAX_DEPTH)
            == Net(true, 14 + |tags|, 54 + |tags|, header[6])
    ensures Dissect(macs + tags + [0x86, 0xDD] + header[..cut], VLAN_MAX_DEPTH) == NoNet
  {
    hide Dissect, ParseNet;
    var h := 14 + |tags|;
    var p, c := macs + tags + [0x86, 0xDD] + (header + rest), macs + tags + [0x86, 0xDD] + header[..cut];
    BuiltFrame(macs, tags, 0x86, 0xDD, header + rest);
    BuiltFrame(macs, tags, 0x86, 0xDD, header[..cut]);
    NetByBytes(p, h, 0x86DD);
    NetByBytes(c, h, 0x86DD);
    assert p[h + 6] == header[6];
  }

  /** For every number `k` of option words and every payload a TCP header is found
      with its options; cut, or with a data offset below five, it is refused. */
  lemma BuiltTcp(front: seq<byte>, header: seq<byte>, k: nat, rest: seq<byte>, cut: nat)
    requires k <= 10 && |header| == 20 + 4 * k && cut < |header|
    ensures header[12] / 16 == 5 + k ==>
              && ParseTcp(front + (header + rest), |front|) == Transport(|front|, |front| + 20 + 4 * k, 20 + 4 * k)
              && ParseTcp(front + header[..cut], |front|) == NoTransport
    ensures header[12] / 16 < 5 ==> ParseTcp(front + (header + rest), |front|) == NoTransport
  {
    var p, c := front + (header + rest), front + header[..cut];
    assert p[|front| + 12] == header[12];
    assert 12 < cut ==> c[|front| + 12] == header[12];
  }

  /** A UDP header is 8 bytes and its length field covers them. */
  lemma BuiltUdp(front: seq<byte>, header: seq<byte>, rest: seq<byte>, cut: nat)
    requires |header| == 8 && cut < 8
    ensures var len := header[4] as int * 256 + header[5];
            ParseUdp(front + (header + rest), |front|)
            == if 8 <= len then Transport(|front|, |front| + 8, len - 8) else NoTransport
    ensures ParseUdp(front + header[..cut], |front|) == NoTransport
  {
    var p := front + (header + rest);
    assert p[|front| + 4] == header[4] && p[|front| + 5] == header[5];
  }

  /** The common ICMP header is 4 bytes, the type in front. */
  lemma BuiltIcmp(front: seq<byte>, header: seq<byte>, rest: seq<byte>, cut: nat)
    requires |header| == 4 && cut < 4
    ensures ParseIcmp(front + (header + rest), |front|) == Transport(|front|, |front| + 4, header[0])
    ensures ParseIcmp(front + header[..cut], |front|) == NoTransport
  {
    var p := front + (header + rest);
    assert p[|front|] == header[0];
  }

  /** Which transport header follows which protocol number. */
  lemma TransportByNumber(p: seq<byte>, net: Net)
    requires net.Net?
    ensures ParseTransport(p, net) ==
            if net.proto == (if net.v6 then 58 else 1) then ParseIcmp(p, net.pos)
            else if net.proto == 17 then ParseUdp(p, net.pos)
            else if net.proto == 6 then ParseTcp(p, net.pos)
            else NoTransport
  {
  }
}
