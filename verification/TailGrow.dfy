/** The tail-grow experiment: ten bytes are added behind the packet, and ICMP
    packets over IPv4 get a timestamp where their IP length says they end. */
module TailGrow {
  import opened Words
  import opened Packet
  import opened Parsing

  const STAMP_SIZE: nat := 10
  const STAMP_MAGIC: u16 := 0x5354
  const TOT_LEN_MODULUS: nat := 0x1000

  type Time = s: seq<byte> | |s| == 8 witness [0, 0, 0, 0, 0, 0, 0, 0]

  /** The ten bytes of the stamp: magic and time, each in host byte order. */
  function Stamp(e: Endian, time: Time): (s: seq<byte>)
    ensures |s| == STAMP_SIZE
  {
    Store16(e, STAMP_MAGIC) + time
  }

  /** On a little-endian host the magic reads "TS" on the wire, as intended; on
      a big-endian host it reads "ST". */
  lemma MagicOnWire(e: Endian)
    ensures Store16(e, STAMP_MAGIC) == if e.Little? then [0x54, 0x53] else [0x53, 0x54]
  {
  }

  /** An ICMP packet over IPv4, tagged or not, whose length is at least 2. */
  predicate IsStampable(p: seq<byte>, net: Net) {
    net.Net? && !net.v6 && net.proto == IPPROTO_ICMP && net.hdr + 20 <= |p| && Wire16(p, net.hdr + 2) >= 2
  }

  /** Where the stamp goes: the IP length, cut to 12 bits, behind the IP header. */
  function StampPos(p: seq<byte>, net: Net): nat
    requires IsStampable(p, net)
  {
    net.hdr + Wire16(p, net.hdr + 2) % TOT_LEN_MODULUS
  }

  /** What a run does to the grown packet `g`: the action and the bytes left. */
  function StampStep(e: Endian, g: seq<byte>, time: Time): (r: (int, seq<byte>))
    ensures |r.1| == |g|
  {
    var net := Dissect(g, VLAN_MAX_DEPTH);
    if |g| < 14 then (XDP_ABORTED, g)
    else if !IsStampable(g, net) then (XDP_PASS, g)
    else if StampPos(g, net) + STAMP_SIZE > |g| then (XDP_ABORTED, g)
    else (XDP_PASS, Splice(g, StampPos(g, net), Stamp(e, time)))
  }

  function Grown(p: seq<byte>): (g: seq<byte>)
    ensures |g| == |p| + STAMP_SIZE
  {
    p + seq(STAMP_SIZE, _ => 0)
  }

  /** `grow_parse`, up to the recording of its action; the clock is a parameter. */
  method GrowParse(e: Endian, ctx: XdpMd, time: Time) returns (action: int)
    requires ctx.Valid()
    modifies ctx`dataEnd, ctx.mem
    ensures ctx.Valid()
    ensures var p := old(ctx.Bytes());
            if STAMP_SIZE <= old(ctx.Tailroom()) && 4 <= |p| then
              (action, ctx.Bytes()) == StampStep(e, Grown(p), time)
            else action == XDP_PASS && ctx.Bytes() == p
  {
    hide Splice, Stamp, Dissect;
    ghost var before := ctx.Bytes();
    var rc := ctx.GrowTail(STAMP_SIZE);
    if rc != 0 {
      return XDP_PASS;
    }
    var g := ctx.Bytes();
    assert g == Grown(before);
    ChainInBounds(g, VLAN_MAX_DEPTH);
    var nh := new HdrCursor(0);
    var ethType, v6, ipType, iphdr := ParseHeaders(e, g, nh);
    if ethType < 0 {
      return XDP_ABORTED;
    }
    if v6 || ipType != IPPROTO_ICMP {
      return XDP_PASS;
    }
    var ipTotLen: nat := Ntohs16(e, g, iphdr + 2);
    if ipTotLen < 2 {
      return XDP_PASS;
    }
    ipTotLen := ipTotLen % TOT_LEN_MODULUS;
    if iphdr + ipTotLen + STAMP_SIZE > |g| {
      return XDP_ABORTED;
    }
    ctx.Write(iphdr + ipTotLen, Stamp(e, time));
    action := XDP_PASS;
  }

  /** Growing does not change how a packet whose headers are complete parses, so
      the stamp goes where the packet itself says. */
  lemma GrownParsesAlike(p: seq<byte>)
    requires Dissect(p, VLAN_MAX_DEPTH).Net?
    ensures var net := Dissect(p, VLAN_MAX_DEPTH);
            && Dissect(Grown(p), VLAN_MAX_DEPTH) == net
            && IsStampable(Grown(p), net) == IsStampable(p, net)
            && (IsStampable(p, net) ==> StampPos(Grown(p), net) == StampPos(p, net))
  {
    hide Dissect;
    ChainStable(p, seq(STAMP_SIZE, _ => 0), VLAN_MAX_DEPTH);
    ChainInBounds(p, VLAN_MAX_DEPTH);
  }

  /** For every ICMP packet over IPv4, tagged or not: either the cut length
      points behind the frame and the run aborts with nothing written, or the
      stamp lies inside the grown packet and nothing else changes. */
  lemma StampInside(e: Endian, p: seq<byte>, time: Time)
    requires IsStampable(p, Dissect(p, VLAN_MAX_DEPTH))
    ensures var pos := StampPos(p, Dissect(p, VLAN_MAX_DEPTH));
            var (action, q) := StampStep(e, Grown(p), time);
            if pos > |p| then action == XDP_ABORTED && q == Grown(p)
            else action == XDP_PASS && q == Grown(p)[..pos] + Stamp(e, time) + Grown(p)[pos + STAMP_SIZE..]
  {
    hide Stamp, Dissect;
    GrownParsesAlike(p);
  }

  /** When the cut length ends at the frame's end, the frame keeps all its bytes
      and the stamp is exactly the new tail. */
  lemma StampIsTail(e: Endian, p: seq<byte>, time: Time)
    requires IsStampable(p, Dissect(p, VLAN_MAX_DEPTH))
    requires StampPos(p, Dissect(p, VLAN_MAX_DEPTH)) == |p|
    ensures StampStep(e, Grown(p), time) == (XDP_PASS, p + Stamp(e, time))
  {
    hide Stamp, Dissect;
    StampInside(e, p, time);
    assert Grown(p)[..|p|] == p && Grown(p)[|p| + STAMP_SIZE..] == [];
    assert p + Stamp(e, time) + [] == p + Stamp(e, time);
  }

  /** Whenever a run stamps, the frame survives for every clock value exactly
      when the bytes the cut length leaves behind it are none, or happen to
      begin the magic already. */
  lemma FrameSurvivesIff(e: Endian, p: seq<byte>)
    requires IsStampable(p, Dissect(p, VLAN_MAX_DEPTH))
    requires StampPos(p, Dissect(p, VLAN_MAX_DEPTH)) <= |p|
    ensures (forall time: Time :: StampStep(e, Grown(p), time).1[..|p|] == p) <==>
              p[StampPos(p, Dissect(p, VLAN_MAX_DEPTH))..] <= Store16(e, STAMP_MAGIC)
  {
    hide Dissect, Store16, StampStep;
    var pos := StampPos(p, Dissect(p, VLAN_MAX_DEPTH));
    if p[pos..] <= Store16(e, STAMP_MAGIC) {
      forall time: Time
        ensures StampStep(e, Grown(p), time).1[..|p|] == p
      {
        StampKeeps(e, p, time, pos);
        StampPrefix(e, p, time, pos);
      }
    } else {
      var t := Damaging(p, pos);
      StampKeeps(e, p, t, pos);
      StampDamages(e, p, t, pos);
    }
  }

  /** A clock value whose first byte is not the one it would be written over. */
  function Damaging(p: seq<byte>, pos: nat): Time {
    seq(8, i requires 0 <= i => if pos + 2 + i < |p| && p[pos + 2 + i] == 0 then 1 else 0)
  }

  lemma StampDamages(e: Endian, p: seq<byte>, time: Time, pos: nat)
    requires pos <= |p| && !(p[pos..] <= Store16(e, STAMP_MAGIC)) && time == Damaging(p, pos)
    ensures exists i :: pos <= i < |p| && i < pos + STAMP_SIZE && p[i] != Stamp(e, time)[i - pos]
  {
    hide Store16;
    if |p| - pos > 2 {
      assert Stamp(e, time)[pos + 2 - pos] == time[0] != p[pos + 2];
    } else {
      StampPrefix(e, p, time, pos);
    }
  }

  /** A stamping run keeps the frame exactly when the overwritten bytes begin the stamp. */
  lemma StampKeeps(e: Endian, p: seq<byte>, time: Time, pos: nat)
    requires IsStampable(p, Dissect(p, VLAN_MAX_DEPTH))
    requires StampPos(p, Dissect(p, VLAN_MAX_DEPTH)) == pos <= |p|
    ensures StampStep(e, Grown(p), time).1[..|p|] == p <==>
              (forall i :: pos <= i < |p| && i < pos + STAMP_SIZE ==> p[i] == Stamp(e, time)[i - pos])
  {
    hide Stamp, Dissect, Splice;
    GrownParsesAlike(p);
    var q := Splice(Grown(p), pos, Stamp(e, time));
    assert StampStep(e, Grown(p), time).1 == q;
    assert forall i :: 0 <= i < |p| ==> q[..|p|][i] == q[i] && Grown(p)[i] == p[i];
  }

  lemma StampPrefix(e: Endian, p: seq<byte>, time: Time, pos: nat)
    requires pos <= |p| <= pos + 2
    ensures p[pos..] <= Store16(e, STAMP_MAGIC) <==>
              (forall i :: pos <= i < |p| && i < pos + STAMP_SIZE ==> p[i] == Stamp(e, time)[i - pos])
  {
    hide Store16;
    var u, m := p[pos..], Store16(e, STAMP_MAGIC);
    assert forall i :: 0 <= i < |u| ==> u[i] == p[pos + i] && Stamp(e, time)[i] == m[i];
    if u <= m {
      assert forall i :: 0 <= i < |u| ==> u[i] == m[i];
      forall i | pos <= i < |p|
        ensures p[i] == Stamp(e, time)[i - pos]
      {
        assert u[i - pos] == m[i - pos];
      }
    }
    if forall i :: pos <= i < |p| && i < pos + STAMP_SIZE ==> p[i] == Stamp(e, time)[i - pos] {
      forall i | 0 <= i < |u|
        ensures u[i] == m[i]
      {
        assert p[pos + i] == Stamp(e, time)[pos + i - pos];
      }
      assert m[..|u|] == u;
    }
  }

  /** The length as the header states it: below 4096 it is not cut. */
  lemma ShortLengthIsExact(p: seq<byte>)
    requires IsStampable(p, Dissect(p, VLAN_MAX_DEPTH))
    ensures var (net, pos) := (Dissect(p, VLAN_MAX_DEPTH), StampPos(p, Dissect(p, VLAN_MAX_DEPTH)));
            pos == net.hdr + Wire16(p, net.hdr + 2) <==> Wire16(p, net.hdr + 2) < TOT_LEN_MODULUS
  {
  }

  /** What the program is for: a frame that ends where its IP header says is kept
      whole and gets the stamp as its tail, exactly when the length is below 4096. */
  lemma UnpaddedIsStampedIff(e: Endian, p: seq<byte>, time: Time)
    requires IsStampable(p, Dissect(p, VLAN_MAX_DEPTH))
    requires var net := Dissect(p, VLAN_MAX_DEPTH); net.hdr + Wire16(p, net.hdr + 2) == |p|
    ensures StampStep(e, Grown(p), time) == (XDP_PASS, p + Stamp(e, time)) <==>
              Wire16(p, Dissect(p, VLAN_MAX_DEPTH).hdr + 2) < TOT_LEN_MODULUS
  {
    hide Stamp, Dissect, StampStep;
    ShortLengthIsExact(p);
    var net := Dissect(p, VLAN_MAX_DEPTH);
    if Wire16(p, net.hdr + 2) < TOT_LEN_MODULUS {
      StampIsTail(e, p, time);
    } else {
      CutIsFarAway(p, net);
      StampInside(e, p, time);
      StampIsNotZero(e, time);
      var q := StampStep(e, Grown(p), time).1;
      assert Grown(p)[|p|] == 0 && (p + Stamp(e, time))[|p|] == Stamp(e, time)[0];
      TailUntouched(p, StampPos(p, net), Stamp(e, time));
    }
  }

  /** A cut length is short by 4096 at least. */
  lemma CutIsFarAway(p: seq<byte>, net: Net)
    requires IsStampable(p, net) && net.hdr + Wire16(p, net.hdr + 2) == |p| && Wire16(p, net.hdr + 2) >= TOT_LEN_MODULUS
    ensures StampPos(p, net) + TOT_LEN_MODULUS <= |p|
  {
    var len: int := Wire16(p, net.hdr + 2);
    var q := len / TOT_LEN_MODULUS;
    assert len == TOT_LEN_MODULUS * q + len % TOT_LEN_MODULUS && q >= 1;
  }

  lemma TailUntouched(p: seq<byte>, pos: nat, stamp: seq<byte>)
    requires |stamp| == STAMP_SIZE && pos + STAMP_SIZE <= |p|
    ensures var q := Grown(p)[..pos] + stamp + Grown(p)[pos + STAMP_SIZE..];
            |q| == |p| + STAMP_SIZE && q[|p|] == 0
  {
    assert Grown(p)[|p|] == 0;
  }

  lemma StampIsNotZero(e: Endian, time: Time)
    ensures Stamp(e, time)[0] != 0
  {
    MagicOnWire(e);
  }
}
