/** Pushing and popping VLAN tags in place, and the program that swaps them. */
module Vlan {
  import opened Words
  import opened Packet
  import opened Parsing

  // ---------------------------------------------------------------------------
  // What push and pop mean for the bytes of a frame.

  /** The frame with a tag of the given type and TCI behind its addresses. */
  function Tagged(p: seq<byte>, tagType: u16, tci: u16): seq<byte>
    requires 14 <= |p|
  {
    p[..12] + Store16(Big, tagType) + Store16(Big, tci) + p[12..]
  }

  /** The frame without its outermost tag. */
  function Untagged(p: seq<byte>): seq<byte>
    requires 18 <= |p|
  {
    p[..12] + p[16..]
  }

  predicate HasTag(p: seq<byte>) {
    18 <= |p| && IsVlan(Wire16(p, 12))
  }

  /** Popping what was pushed restores every byte, and gives back the TCI. */
  lemma PopUndoesPush(p: seq<byte>, tagType: u16, tci: u16)
    requires 14 <= |p| && IsVlan(tagType)
    ensures var q := Tagged(p, tagType, tci);
            HasTag(q) && Wire16(q, 12) == tagType && Wire16(q, 14) == tci && Untagged(q) == p
  {
    var q := Tagged(p, tagType, tci);
    assert q[12..14] == Store16(Big, tagType) && q[14..16] == Store16(Big, tci);
    assert q[12] == q[12..14][0] && q[13] == q[12..14][1];
    assert q[14] == q[14..16][0] && q[15] == q[14..16][1];
    assert q[16..] == p[12..];
  }

  lemma StoreOfLoad(a: byte, b: byte)
    ensures Store16(Big, Load16(Big, a, b)) == [a, b]
  {
    var x: u16 := a * 0x100 + b;
    assert x / 0x100 == a && x % 0x100 == b;
  }

  /** `vlan_tag_push` always writes type 802.1Q, so pushing back a popped tag
      restores the frame exactly when that was the type removed. */
  lemma PushUndoesPop(p: seq<byte>)
    requires HasTag(p)
    ensures Tagged(Untagged(p), ETH_P_8021Q, Wire16(p, 14)) == p <==> Wire16(p, 12) == ETH_P_8021Q
  {
    var u := Untagged(p);
    var q := Tagged(u, ETH_P_8021Q, Wire16(p, 14));
    StoreOfLoad(p[14], p[15]);
    StoreOfLoad(p[12], p[13]);
    assert q == p[..12] + Store16(Big, ETH_P_8021Q) + [p[14], p[15]] + p[16..];
    assert p == p[..12] + [p[12], p[13]] + [p[14], p[15]] + p[16..];
    PopUndoesPush(u, ETH_P_8021Q, Wire16(p, 14));
  }

  /** Pushing a tag keeps the meaning of a frame: the parser finds the same type
      and the same bytes behind the tags, the new ID in front of the old ones,
      exactly when the frame had fewer complete tags than the parser's depth. */
  lemma PushKeepsMeaning(p: seq<byte>, tci: u16, depth: nat)
    requires 14 <= |p|
    ensures var q := Tagged(p, ETH_P_8021Q, tci);
            var r, s := SkipTags(p, 14, Wire16(p, 12), depth), SkipTags(q, 14, Wire16(q, 12), depth);
            && r.pos <= |p| && s.pos <= |q|
            && (CompleteTags(p, 14, Wire16(p, 12)) < depth <==> q[s.pos..] == p[r.pos..])
            && (CompleteTags(p, 14, Wire16(p, 12)) < depth ==>
                  s.proto == r.proto && s.ids == [tci % VLAN_VID_MODULUS] + r.ids)
    ensures var q := Tagged(p, ETH_P_8021Q, tci);
            CompleteTags(q, 14, Wire16(q, 12)) == 1 + CompleteTags(p, 14, Wire16(p, 12))
  {
    hide SkipTags, CompleteTags, Tagged;
    TaggedTags(p, tci, depth);
    if CompleteTags(p, 14, Wire16(p, 12)) < depth {
      PushWithinDepth(p, tci, depth);
    } else {
      PushBeyondDepth(p, tci, depth);
    }
  }

  /** The bytes behind the new tag are those behind the addresses. */
  lemma TaggedTail(p: seq<byte>, tci: u16)
    requires 14 <= |p|
    ensures var q := Tagged(p, ETH_P_8021Q, tci);
            && |q| == |p| + 4 && Wire16(q, 12) == ETH_P_8021Q && Wire16(q, 14) == tci && Wire16(q, 16) == Wire16(p, 12)
            && q[18..] == p[14..]
  {
    var q := Tagged(p, ETH_P_8021Q, tci);
    PopUndoesPush(p, ETH_P_8021Q, tci);
    assert q[16..] == p[12..];
    assert q[16..][0] == q[16] && q[16..][1] == q[17] && p[12..][0] == p[12] && p[12..][1] == p[13];
    assert q[18..] == q[16..][2..] && p[14..] == p[12..][2..];
  }

  /** The parser passes the new tag and then sees the old frame. */
  lemma TaggedTags(p: seq<byte>, tci: u16, depth: nat)
    requires 14 <= |p|
    ensures var q := Tagged(p, ETH_P_8021Q, tci);
            && |q| == |p| + 4 && q[18..] == p[14..]
            && CompleteTags(q, 14, Wire16(q, 12)) == 1 + CompleteTags(p, 14, Wire16(p, 12))
            && (depth > 0 ==>
                  var r, s := SkipTags(p, 14, Wire16(p, 12), depth - 1), SkipTags(q, 14, Wire16(q, 12), depth);
                  s.pos == r.pos + 4 && s.proto == r.proto && s.ids == [tci % VLAN_VID_MODULUS] + r.ids)
  {
    hide Tagged;
    var q := Tagged(p, ETH_P_8021Q, tci);
    TaggedTail(p, tci);
    SkipTagsSuffix(p, 14, q, 18, Wire16(p, 12), if depth > 0 then depth - 1 else 0);
  }

  lemma PushWithinDepth(p: seq<byte>, tci: u16, depth: nat)
    requires 14 <= |p| && CompleteTags(p, 14, Wire16(p, 12)) < depth
    ensures var q := Tagged(p, ETH_P_8021Q, tci);
            var r, s := SkipTags(p, 14, Wire16(p, 12), depth), SkipTags(q, 14, Wire16(q, 12), depth);
            && r.pos <= |p| && s.pos <= |q| && q[s.pos..] == p[r.pos..]
            && s.proto == r.proto && s.ids == [tci % VLAN_VID_MODULUS] + r.ids
  {
    hide SkipTags, CompleteTags, Tagged;
    var q := Tagged(p, ETH_P_8021Q, tci);
    TaggedTags(p, tci, depth);
    DepthsAgree(p, 14, Wire16(p, 12), depth - 1, depth);
    SkipTagsMeaning(p, 14, Wire16(p, 12), depth);
    SameTail(p, q, SkipTags(p, 14, Wire16(p, 12), depth).pos);
  }

  lemma SameTail(p: seq<byte>, q: seq<byte>, pos: nat)
    requires 14 <= pos <= |p| && |q| == |p| + 4 && q[18..] == p[14..]
    ensures q[pos + 4..] == p[pos..]
  {
    assert q[pos + 4..] == q[18..][pos - 14..] && p[pos..] == p[14..][pos - 14..];
  }

  /** Too deep: the parser stops one tag earlier than before. */
  lemma PushBeyondDepth(p: seq<byte>, tci: u16, depth: nat)
    requires 14 <= |p| && depth <= CompleteTags(p, 14, Wire16(p, 12))
    ensures var q := Tagged(p, ETH_P_8021Q, tci);
            var r, s := SkipTags(p, 14, Wire16(p, 12), depth), SkipTags(q, 14, Wire16(q, 12), depth);
            r.pos <= |p| && s.pos <= |q| && q[s.pos..] != p[r.pos..]
  {
    hide SkipTags, CompleteTags, Tagged;
    var q := Tagged(p, ETH_P_8021Q, tci);
    TaggedTags(p, tci, depth);
    SkipTagsMeaning(p, 14, Wire16(p, 12), depth);
    SkipTagsMeaning(q, 14, Wire16(q, 12), depth);
    var r, s := SkipTags(p, 14, Wire16(p, 12), depth), SkipTags(q, 14, Wire16(q, 12), depth);
    assert |q[s.pos..]| == |p[r.pos..]| + 4;
  }

  // ---------------------------------------------------------------------------
  // The helpers, in place.

  /** `vlan_tag_pop` on the Ethernet header at the front of the packet, which the
      caller has found complete. Returns the TCI of the removed tag, priority
      bits included, or -1 with the frame untouched. */
  method VlanTagPop(e: Endian, ctx: XdpMd) returns (ret: int)
    requires ctx.Valid() && 14 <= |ctx.Bytes()|
    modifies ctx`data, ctx.mem
    ensures ctx.Valid()
    ensures var p := old(ctx.Bytes());
            if HasTag(p) then
              ret == Wire16(p, 14) && ctx.Bytes() == Untagged(p) && ctx.data == old(ctx.data) + 4
            else
              ret == -1 && ctx.Bytes() == p && ctx.data == old(ctx.data)
  {
    var p := ctx.Bytes();
    HostIsHtonsOfWire(e, p, 12);
    ProtoIsVlanOnWire(e, Wire16(p, 12));
    if !ProtoIsVlan(e, Host16(e, p, 12)) {
      return -1;
    }
    if 18 > |p| {
      return -1;
    }
    ret := Ntohs16(e, p, 14);
    var hProto := p[16..18];
    var ethCpy := p[..14];
    var rc := ctx.AdjustHead(4);
    // The re-evaluated bounds check passes: an Ethernet header still fits.
    assert rc == 0 && 14 <= |ctx.Bytes()|;
    assert ctx.Bytes() == p[4..];
    ctx.Write(0, ethCpy);
    ctx.Write(12, hProto);
    assert ctx.Bytes() == Untagged(p);
  }

  /** What a pop returns is the VLAN ID exactly when the priority bits are clear. */
  lemma PopReturnsIdIff(p: seq<byte>)
    requires HasTag(p)
    ensures Wire16(p, 14) == Wire16(p, 14) % VLAN_VID_MODULUS <==> Wire16(p, 14) < VLAN_VID_MODULUS
  {
  }

  /** `vlan_tag_push`: returns 0, or -1 with the frame untouched when there is no
      headroom. Only the low 16 bits of `vlid` reach the tag. */
  method VlanTagPush(e: Endian, ctx: XdpMd, vlid: int) returns (ret: int)
    requires ctx.Valid() && 14 <= |ctx.Bytes()|
    modifies ctx`data, ctx.mem
    ensures ctx.Valid()
    ensures var p := old(ctx.Bytes());
            if 4 <= old(ctx.data) then
              && ret == 0 && ctx.data == old(ctx.data) - 4
              && ctx.Bytes() == Tagged(p, ETH_P_8021Q, vlid % 0x1_0000)
            else
              ret == -1 && ctx.Bytes() == p && ctx.data == old(ctx.data)
  {
    var p := ctx.Bytes();
    var ethCpy := p[..14];
    var rc := ctx.AdjustHead(-4);
    if rc != 0 {
      return -1;
    }
    // Both re-evaluated bounds checks pass: the packet grew by four bytes.
    assert |ctx.Bytes()| == |p| + 4;
    assert ctx.Bytes()[4..] == p;
    ghost var grown := ctx.Bytes();
    ctx.Write(0, ethCpy);
    StoresSwapped(e, vlid % 0x1_0000);
    StoresSwapped(e, ETH_P_8021Q);
    ctx.Write(14, Store16(e, Htons(e, vlid % 0x1_0000)));
    var outer := ctx.Bytes()[12..14];
    ctx.Write(16, outer);
    ctx.Write(12, Store16(e, Htons(e, ETH_P_8021Q)));
    PushLayout(p, grown, Store16(Big, ETH_P_8021Q), Store16(Big, vlid % 0x1_0000));
    ret := 0;
  }

  /** Storing an `htons` value puts its big-endian bytes on the wire. */
  lemma StoresSwapped(e: Endian, x: u16)
    ensures Store16(e, Htons(e, x)) == Store16(Big, x)
  {
    SwapBytes(x / 0x100, x % 0x100);
    var y: u16 := x % 0x100 * 0x100 + x / 0x100;
    assert y / 0x100 == x % 0x100 && y % 0x100 == x / 0x100;
  }

  /** The copies of `vlan_tag_push` over the grown packet add up to the tagged
      frame: the header copy overlaps the old one, the payload is not touched. */
  lemma PushLayout(p: seq<byte>, grown: seq<byte>, tag: seq<byte>, tci: seq<byte>)
    requires 14 <= |p| && |grown| == |p| + 4 && grown[4..] == p && |tag| == 2 && |tci| == 2
    ensures var a := Splice(Splice(grown, 0, p[..14]), 14, tci);
            Splice(Splice(a, 16, a[12..14]), 12, tag) == p[..12] + tag + tci + p[12..]
  {
    hide Splice;
    var a := Splice(Splice(grown, 0, p[..14]), 14, tci);
    var b := Splice(Splice(a, 16, a[12..14]), 12, tag);
    var q := p[..12] + tag + tci + p[12..];
    forall i | 0 <= i < |q|
      ensures b[i] == q[i]
    {
      if 18 <= i {
        assert grown[4..][i - 4] == grown[i];
      }
    }
  }

  // ---------------------------------------------------------------------------
  // xdp_vlan_swap: one run, and any number of runs.

  /** A frame and the headroom in front of it. */
  datatype Frame = Frame(room: nat, bytes: seq<byte>)

  function SwapStep(f: Frame): Frame {
    if |f.bytes| < 14 then f
    else if IsVlan(Wire16(f.bytes, 12)) then
      if |f.bytes| < 18 then f else Frame(f.room + 4, Untagged(f.bytes))
    else if f.room < 4 then f
    else Frame(f.room - 4, Tagged(f.bytes, ETH_P_8021Q, 1))
  }

  /** `xdp_vlan_swap_func`: pops the outermost tag if there is one, else pushes ID 1. */
  method XdpVlanSwap(e: Endian, ctx: XdpMd) returns (action: int)
    requires ctx.Valid()
    modifies ctx`data, ctx.mem
    ensures ctx.Valid() && action == XDP_PASS
    ensures Frame(ctx.data, ctx.Bytes()) == SwapStep(Frame(old(ctx.data), old(ctx.Bytes())))
    ensures ctx.dataEnd == old(ctx.dataEnd)
  {
    var p := ctx.Bytes();
    var nh := new HdrCursor(0);
    var nhType, eth := ParseEthhdr(e, p, nh);
    if nhType < 0 {
      return XDP_PASS;
    }
    HostIsHtonsOfWire(e, p, 12);
    ProtoIsVlanOnWire(e, Wire16(p, 12));
    var rc;
    if ProtoIsVlan(e, Host16(e, p, 12)) {
      rc := VlanTagPop(e, ctx);
    } else {
      rc := VlanTagPush(e, ctx, 1);
    }
    action := XDP_PASS;
  }

  function Runs(n: nat, f: Frame): Frame {
    if n == 0 then f else SwapStep(Runs(n - 1, f))
  }

  function TagCount(p: seq<byte>): nat {
    if |p| < 14 then 0 else CompleteTags(p, 14, Wire16(p, 12))
  }

  /** The frame without its first `n` tags. */
  function Stripped(p: seq<byte>, n: nat): seq<byte>
    requires n > 0 ==> 14 + 4 * n <= |p|
  {
    if n == 0 then p else p[..12] + p[12 + 4 * n..]
  }

  lemma UntaggedCount(p: seq<byte>)
    requires HasTag(p)
    ensures TagCount(p) == 1 + TagCount(Untagged(p))
  {
    var u := Untagged(p);
    assert u[12..] == p[16..];
    assert u[12] == u[12..][0] && u[13] == u[12..][1] && p[16] == p[16..][0] && p[17] == p[16..][1];
    assert u[14..] == u[12..][2..] && p[18..] == p[16..][2..];
    SkipTagsSuffix(u, 14, p, 18, Wire16(u, 12), 0);
  }

  /** The first k runs on a frame with k complete tags strip one tag each. */
  lemma {:induction false} RunsStrip(f: Frame, n: nat)
    requires n <= TagCount(f.bytes)
    ensures n > 0 ==> 14 + 4 * n <= |f.bytes|
    ensures Runs(n, f) == Frame(f.room + 4 * n, Stripped(f.bytes, n))
    ensures TagCount(Runs(n, f).bytes) == TagCount(f.bytes) - n
  {
    hide CompleteTags, Untagged, Stripped, TagCount;
    if n == 0 {
      NoneStripped(f.bytes);
    } else {
      RunsStrip(f, n - 1);
      TagsFit(f.bytes);
      var g := Runs(n - 1, f);
      TagOfCount(g.bytes);
      UntaggedCount(g.bytes);
      StripOne(f.bytes, n);
    }
  }

  lemma NoneStripped(p: seq<byte>)
    ensures Stripped(p, 0) == p
  {
  }

  lemma TagsFit(p: seq<byte>)
    ensures TagCount(p) > 0 ==> 14 + 4 * TagCount(p) <= |p|
  {
    if 14 <= |p| {
      CompleteTagsFit(p, 14, Wire16(p, 12));
    }
  }

  lemma TagOfCount(p: seq<byte>)
    requires TagCount(p) > 0
    ensures HasTag(p)
  {
  }

  lemma StripOne(p: seq<byte>, n: nat)
    requires n > 0 && 14 + 4 * n <= |p|
    ensures |Stripped(p, n - 1)| >= 18 && Untagged(Stripped(p, n - 1)) == Stripped(p, n)
  {
    var s := Stripped(p, n - 1);
    assert s[..12] == p[..12];
    TailOfTail(p, 12 + 4 * (n - 1));
    assert n > 1 ==> s[12..] == p[12 + 4 * (n - 1)..];
    assert n > 1 ==> s[16..] == s[12..][4..];
  }

  lemma TailOfTail(p: seq<byte>, a: nat)
    requires a + 4 <= |p|
    ensures p[a..][4..] == p[a + 4..]
  {
  }

  lemma {:induction false} RunsAdd(m: nat, n: nat, f: Frame)
    ensures Runs(m + n, f) == Runs(m, Runs(n, f))
  {
    if m > 0 {
      RunsAdd(m - 1, n, f);
    }
  }

  lemma {:induction false} FixedPoint(g: Frame, n: nat)
    requires SwapStep(g) == g
    ensures Runs(n, g) == g
  {
    if n > 0 {
      FixedPoint(g, n - 1);
    }
  }

  lemma {:induction false} PeriodTwo(g: Frame, n: nat)
    requires 14 <= |g.bytes| && !IsVlan(Wire16(g.bytes, 12)) && 4 <= g.room
    ensures Runs(n, g) == if n % 2 == 0 then g else Frame(g.room - 4, Tagged(g.bytes, ETH_P_8021Q, 1))
  {
    if n > 0 {
      PeriodTwo(g, n - 1);
      PopUndoesPush(g.bytes, ETH_P_8021Q, 1);
    }
  }

  /** Nothing but tags is left to strip, and no tag can be pushed. */
  predicate Stuck(g: Frame) {
    |g.bytes| < 14 || (IsVlan(Wire16(g.bytes, 12)) && |g.bytes| < 18) ||
    (!IsVlan(Wire16(g.bytes, 12)) && g.room < 4)
  }

  /** Any number of runs on any frame with k complete tags: k runs strip the
      tags, and from then on the frame stays as it is or alternates between the
      bare frame and the frame tagged with ID 1. */
  lemma RunsFromK(f: Frame, n: nat)
    ensures var k := TagCount(f.bytes);
            (k > 0 ==> 14 + 4 * k <= |f.bytes|) &&
            var g := Frame(f.room + 4 * k, Stripped(f.bytes, k));
            && TagCount(g.bytes) == 0
            && Runs(k + n, f) ==
               if Stuck(g) || n % 2 == 0 then g
               else Frame(g.room - 4, Tagged(g.bytes, ETH_P_8021Q, 1))
  {
    var k := TagCount(f.bytes);
    RunsStrip(f, k);
    RunsAdd(n, k, f);
    assert n + k == k + n;
    var g := Runs(k, f);
    if Stuck(g) {
      FixedPoint(g, n);
    } else {
      PeriodTwo(g, n);
    }
  }

  /** Headroom plus length is the same after every run. */
  lemma {:induction false} RunsKeepSpan(f: Frame, n: nat)
    ensures Runs(n, f).room + |Runs(n, f).bytes| == f.room + |f.bytes|
  {
    if n > 0 {
      RunsKeepSpan(f, n - 1);
    }
  }
}
