/** Who may write which bytes of the UMEM: the kernel writes only frames lent to
    it, and the frames of a batch in hand are not. */
module XskMemory {
  import opened Rings
  import opened XskSystem
  import opened XskInvariant
  import opened Words
  import XskEcho

  // ---------------------------------------------------------------------------
  // What the kernel may do.

  /** What a kernel step leaves alone: the application's side of every ring. */
  ghost predicate Untouched(s: Sys, t: Sys) {
    && t.stack == s.stack && t.outstanding == s.outstanding && t.pc == s.pc
    && t.fq.reserved == s.fq.reserved && t.tx.reserved == s.tx.reserved
    && t.fq.size == s.fq.size && |t.fq.published| + t.fq.stale == |s.fq.published| + s.fq.stale
    && t.tx.size == s.tx.size && |t.tx.published| + t.tx.stale == |s.tx.published| + s.tx.stale
    && |t.tx.published| <= |s.tx.published|
    && s.rx.entries <= t.rx.entries && t.rx.seen == s.rx.seen && t.rx.peeked == s.rx.peeked
    && s.cq.entries <= t.cq.entries && t.cq.seen == s.cq.seen && t.cq.peeked == s.cq.peeked
  }

  /** The free slots of TX. */
  function TxFree(s: Sys): int {
    s.tx.size - |s.tx.published| - |s.tx.reserved|
  }

  /** Asking for one slot succeeds exactly when there is one, the cached count
      being refreshed when it shows none. */
  lemma OneSlotIff(s: Sys)
    requires s.tx.Valid()
    ensures s.tx.CanReserve(1) <==> TxFree(s) >= 1
  {
  }

  /** Frame `f` is the kernel's to write: published in FILL or on the receive side. */
  ghost predicate Lent(s: Sys, f: nat) {
    Count(s.fq.published, Frame(f)) + Count(s.krx, Frame(f)) > 0
  }

  /** Nothing more is lent, and no frame is written that is not lent, `f` excepted. */
  ghost predicate OwnFramesBut(s: Sys, t: Sys, before: seq<byte>, after: seq<byte>, f: Key) {
    && (forall g: nat :: Lent(t, g) ==> Lent(s, g))
    && |before| == |after|
    && (forall x {:trigger after[x]} :: 0 <= x < |before| && !Lent(s, Chunk(x)) && f != Frame(Chunk(x)) ==>
          after[x] == before[x])
  }

  /** All that kernel steps from `s` to `t` may do. */
  ghost predicate Rely(s: Sys, t: Sys, before: seq<byte>, after: seq<byte>) {
    Untouched(s, t) && OwnFramesBut(s, t, before, after, Any)
  }

  lemma OwnTransitive(s: Sys, t: Sys, u: Sys, b: seq<byte>, b1: seq<byte>, b2: seq<byte>, f: Key)
    requires OwnFramesBut(s, t, b, b1, f) && OwnFramesBut(t, u, b1, b2, f)
    ensures OwnFramesBut(s, u, b, b2, f)
  {
    hide Lent;
  }

  lemma RelyTransitive(s: Sys, t: Sys, u: Sys, b: seq<byte>, b1: seq<byte>, b2: seq<byte>)
    requires Rely(s, t, b, b1) && Rely(t, u, b1, b2)
    ensures Rely(s, u, b, b2)
  {
    hide OwnFramesBut;
    OwnTransitive(s, t, u, b, b1, b2, Any);
  }

  lemma RelyNothing(s: Sys, b: seq<byte>)
    ensures Rely(s, s, b, b)
  {
  }

  /** Steps that leave FILL and the kernel's receive side lend nothing. */
  ghost predicate SameLent(s: Sys, t: Sys) {
    t.fq.published == s.fq.published && t.krx == s.krx
  }

  lemma SameLentOwn(s: Sys, t: Sys, b: seq<byte>, f: Key)
    requires SameLent(s, t)
    ensures OwnFramesBut(s, t, b, b, f)
  {
  }

  lemma RelyOwn(s: Sys, t: Sys, b: seq<byte>, b1: seq<byte>, f: Key)
    requires Rely(s, t, b, b1)
    ensures OwnFramesBut(s, t, b, b1, f) && s.rx.entries <= t.rx.entries && |b1| == |b|
    ensures TxFree(t) >= TxFree(s)
  {
    hide Lent;
  }

  lemma TakeLends(s: Sys, t: Sys)
    requires TakeFill(s, t)
    ensures forall f: nat :: Lent(t, f) ==> Lent(s, f)
  {
    forall f: nat
      ensures Lent(t, f) ==> Lent(s, f)
    {
      CountPush(s.krx, s.fq.published[0], Frame(f));
    }
  }

  lemma DeliverLends(s: Sys, t: Sys, j: nat, d: Desc)
    requires DeliverAs(s, t, j, d)
    ensures forall f: nat :: Lent(t, f) ==> Lent(s, f)
  {
    forall f: nat
      ensures Lent(t, f) ==> Lent(s, f)
    {
      CountRemove(s.krx, j, Frame(f));
    }
  }

  /** Delivering a packet writes inside one frame, and the kernel holds it. */
  lemma DeliverWrites(s: Sys, t: Sys, j: nat, d: Desc, before: seq<byte>, data: seq<byte>)
    requires DeliverAs(s, t, j, d) && Frames(s.krx) && Fits(d)
    requires |data| == d.len && d.addr + d.len <= |before|
    ensures OwnFramesBut(s, t, before, Splice(before, d.addr, data), Any)
  {
    CountPositive(s.krx, j);
    assert Lent(s, Chunk(d.addr));
    DeliverLends(s, t, j, d);
    hide Lent, Splice, DeliverAs;
    WritesOneFrame(d, before, data);
  }

  lemma WritesOneFrame(d: Desc, before: seq<byte>, data: seq<byte>)
    requires Fits(d) && |data| == d.len && d.addr + d.len <= |before|
    ensures var after := Splice(before, d.addr, data);
            && |after| == |before|
            && forall x {:trigger after[x]} :: 0 <= x < |before| && Chunk(x) != Chunk(d.addr) ==> after[x] == before[x]
  {
    hide Splice, Chunk;
    var after := Splice(before, d.addr, data);
    forall x {:trigger after[x]} | 0 <= x < |before| && Chunk(x) != Chunk(d.addr)
      ensures after[x] == before[x]
    {
      if d.addr <= x < d.addr + d.len {
        SameChunk(d, x);
      }
    }
  }

  lemma SameChunk(d: Desc, x: nat)
    requires Fits(d) && d.addr <= x < d.addr + d.len
    ensures Chunk(x) == Chunk(d.addr)
  {
    var q, r := d.addr / FRAME_SIZE, d.addr % FRAME_SIZE;
    assert x == FRAME_SIZE * q + (r + (x - d.addr));
  }

  lemma SpliceBack(b: seq<byte>, at: nat, x: seq<byte>)
    requires at + |x| <= |b|
    ensures Splice(b, at, x)[at..at + |x|] == x
  {
  }

  // ---------------------------------------------------------------------------
  // Packets in hand.

  /** The bytes of a packet. */
  function PacketAt(b: seq<byte>, d: Desc): seq<byte>
    requires d.addr + d.len <= |b|
  {
    b[d.addr..d.addr + d.len]
  }

  predicate Inside(d: Desc, size: nat) {
    Fits(d) && d.addr + d.len <= size
  }

  /** A packet whose frame is neither lent nor excepted keeps its bytes. */
  lemma PacketStays(s: Sys, t: Sys, b: seq<byte>, b1: seq<byte>, f: Key, d: Desc)
    requires OwnFramesBut(s, t, b, b1, f) && Inside(d, |b|) && !Lent(s, Chunk(d.addr)) && f != Frame(Chunk(d.addr))
    ensures |b1| == |b| && PacketAt(b1, d) == PacketAt(b, d) && !Lent(t, Chunk(d.addr))
  {
    hide Lent, Chunk;
    forall x | d.addr <= x < d.addr + d.len
      ensures b1[x] == b[x]
    {
      SameChunk(d, x);
    }
  }

  /** Exclusive ownership: a received packet not yet dealt with lies inside the
      UMEM, in a frame that is not the kernel's to write. */
  lemma HeldNotLent(c: Cfg, s: Sys, k: nat)
    requires Inv(c, s) && s.RxDone() <= k < |s.rx.entries|
    ensures Inside(s.rx.entries[k], c.n * FRAME_SIZE) && !Lent(s, Chunk(s.rx.entries[k].addr))
  {
    var d := s.rx.entries[k];
    var rest := s.rx.entries[s.RxDone()..];
    assert rest[k - s.RxDone()] == d;
    CountDescsPositive(rest, k - s.RxDone());
    assert Total(s, Frame(Chunk(d.addr))) == Expected(c, Frame(Chunk(d.addr)));
    assert d.addr == FRAME_SIZE * Chunk(d.addr) + d.addr % FRAME_SIZE;
  }

  /** Each packet is in a frame of its own. */
  ghost predicate Apart(batch: seq<Desc>) {
    forall k, m :: 0 <= k < m < |batch| ==> Chunk(batch[k].addr) != Chunk(batch[m].addr)
  }

  lemma HeldApart(c: Cfg, s: Sys)
    requires Inv(c, s) && s.RxDone() == 0
    ensures Apart(s.rx.entries)
  {
    var q := s.rx.entries;
    forall k, m | 0 <= k < m < |q|
      ensures Chunk(q[k].addr) != Chunk(q[m].addr)
    {
      var f := Frame(Chunk(q[k].addr));
      assert Total(s, f) <= 1 && q[0..] == q;
      CountDescsPositive(q[..m], k);
      CountDescsPositive(q[m..], 0);
      CountDescsConcat(q[..m], q[m..], f);
      assert q == q[..m] + q[m..];
    }
  }

  /** A batch of received packets, as yet with the bytes they arrived with. */
  ghost predicate Arrived(s: Sys, now: seq<byte>, batch: seq<Desc>, arrived: seq<byte>) {
    && batch <= s.rx.entries && |now| == |arrived|
    && (forall k {:trigger batch[k]} :: 0 <= k < |batch| ==>
          Inside(batch[k], |now|) && PacketAt(now, batch[k]) == PacketAt(arrived, batch[k]))
  }

  /** Before the batch is dealt with, the kernel leaves its bytes alone. */
  lemma ArrivedStays(c: Cfg, s: Sys, t: Sys, b: seq<byte>, b1: seq<byte>, batch: seq<Desc>, arrived: seq<byte>)
    requires Inv(c, s) && s.RxDone() == 0 && Rely(s, t, b, b1) && Arrived(s, b, batch, arrived)
    ensures Arrived(t, b1, batch, arrived)
  {
    hide Inv, OwnFramesBut, Lent, PacketAt;
    RelyOwn(s, t, b, b1, Any);
    forall k {:trigger batch[k]} | 0 <= k < |batch|
      ensures Inside(batch[k], |b1|) && PacketAt(b1, batch[k]) == PacketAt(arrived, batch[k])
    {
      assert batch[k] == s.rx.entries[k];
      NoneDone(s);
      HeldNotLent(c, s, k);
      PacketStays(s, t, b, b1, Any, batch[k]);
    }
  }

  lemma NoneDone(s: Sys)
    requires s.RxDone() == 0
    ensures forall k {:trigger s.rx.entries[k]} :: 0 <= k < |s.rx.entries| ==> s.RxDone() <= k
  {
  }

  /** `d` is among the first `i` packets of the batch, was a ping, and its frame
      now holds the reply. */
  ghost predicate Answered(e: Endian, d: Desc, batch: seq<Desc>, i: nat, arrived: seq<byte>, now: seq<byte>) {
    && |now| == |arrived| && Inside(d, |now|)
    && XskEcho.IsPing(PacketAt(arrived, d)) && PacketAt(now, d) == XskEcho.Pong(e, PacketAt(arrived, d))
    && exists k {:trigger batch[k]} :: 0 <= k < i && k < |batch| && batch[k] == d
  }

  /** `i` packets of a batch are dealt with, and the descriptors `replies` were
      sent for them. The rest still have their bytes, and no frame of the batch
      is lent. */
  ghost predicate Handled(e: Endian, i: nat, s: Sys, now: seq<byte>, batch: seq<Desc>, arrived: seq<byte>,
                          replies: seq<Desc>) {
    && |now| == |arrived| && i <= |batch| && Apart(batch)
    && (forall k {:trigger batch[k]} :: 0 <= k < |batch| ==>
          Inside(batch[k], |now|) && !Lent(s, Chunk(batch[k].addr))
          && (i <= k ==> PacketAt(now, batch[k]) == PacketAt(arrived, batch[k])))
    && (forall j {:trigger replies[j]} :: 0 <= j < |replies| ==> Answered(e, replies[j], batch, i, arrived, now))
  }

  lemma BeginHandling(c: Cfg, e: Endian, s: Sys, now: seq<byte>, batch: seq<Desc>, arrived: seq<byte>)
    requires Inv(c, s) && s.RxDone() == 0 && Arrived(s, now, batch, arrived)
    ensures Handled(e, 0, s, now, batch, arrived, [])
  {
    hide Inv, Lent, PacketAt;
    HeldApart(c, s);
    NoneDone(s);
    forall k {:trigger batch[k]} | 0 <= k < |batch|
      ensures !Lent(s, Chunk(batch[k].addr))
    {
      assert batch[k] == s.rx.entries[k];
      HeldNotLent(c, s, k);
    }
    forall k, m | 0 <= k < m < |batch|
      ensures Chunk(batch[k].addr) != Chunk(batch[m].addr)
    {
      assert batch[k] == s.rx.entries[k] && batch[m] == s.rx.entries[m];
    }
  }

  /** Whatever else happens, nothing of that changes. */
  lemma HandledStays(e: Endian, i: nat, s: Sys, t: Sys, b: seq<byte>, b1: seq<byte>,
                     batch: seq<Desc>, arrived: seq<byte>, replies: seq<Desc>)
    requires Handled(e, i, s, b, batch, arrived, replies) && OwnFramesBut(s, t, b, b1, Any)
    ensures Handled(e, i, t, b1, batch, arrived, replies)
  {
    hide OwnFramesBut, Lent, PacketAt, Apart, XskEcho.IsPing, XskEcho.Pong, Chunk;
    OwnSize(s, t, b, b1, Any);
    forall k {:trigger batch[k]} | 0 <= k < |batch|
      ensures PacketAt(b1, batch[k]) == PacketAt(b, batch[k]) && !Lent(t, Chunk(batch[k].addr))
    {
      PacketStays(s, t, b, b1, Any, batch[k]);
    }
  }

  lemma OwnSize(s: Sys, t: Sys, b: seq<byte>, b1: seq<byte>, f: Key)
    requires OwnFramesBut(s, t, b, b1, f)
    ensures |b1| == |b|
    ensures forall g: nat :: Lent(t, g) ==> Lent(s, g)
  {
  }

  /** What dealing with one packet may send: nothing, or its own descriptor with
      the reply in place. */
  ghost predicate Outcome(e: Endian, d: Desc, b: seq<byte>, b1: seq<byte>, out: seq<Desc>) {
    out == [] || (out == [d] && |b1| == |b| && Inside(d, |b|) && XskEcho.IsPing(PacketAt(b, d))
                  && PacketAt(b1, d) == XskEcho.Pong(e, PacketAt(b, d)))
  }

  lemma HandledOne(e: Endian, i: nat, s: Sys, t: Sys, b: seq<byte>, b1: seq<byte>,
                   batch: seq<Desc>, arrived: seq<byte>, replies: seq<Desc>, out: seq<Desc>)
    requires Handled(e, i, s, b, batch, arrived, replies) && i < |batch|
    requires OwnFramesBut(s, t, b, b1, Frame(Chunk(batch[i].addr))) && Outcome(e, batch[i], b, b1, out)
    ensures Handled(e, i + 1, t, b1, batch, arrived, replies + out)
  {
    hide OwnFramesBut, Lent, PacketAt, XskEcho.IsPing, XskEcho.Pong, Chunk;
    var f := Frame(Chunk(batch[i].addr));
    OwnSize(s, t, b, b1, f);
    forall k {:trigger batch[k]} | 0 <= k < |batch| && k != i
      ensures PacketAt(b1, batch[k]) == PacketAt(b, batch[k]) && !Lent(t, Chunk(batch[k].addr))
    {
      assert Chunk(batch[k].addr) != Chunk(batch[i].addr);
      PacketStays(s, t, b, b1, f, batch[k]);
    }
    var more := replies + out;
    forall j {:trigger more[j]} | 0 <= j < |more|
      ensures Answered(e, more[j], batch, i + 1, arrived, b1)
    {
      if j < |replies| {
        assert Answered(e, replies[j], batch, i, arrived, b);
      }
    }
  }

  // ---------------------------------------------------------------------------
  // Which packets of a batch are answered.

  ghost predicate WasPing(arrived: seq<byte>, d: Desc) {
    Inside(d, |arrived|) && XskEcho.IsPing(PacketAt(arrived, d))
  }

  /** The pings of a batch, in order. */
  ghost function Pings(batch: seq<Desc>, arrived: seq<byte>): seq<Desc> {
    if batch == [] then []
    else
      var d := batch[|batch| - 1];
      Pings(batch[..|batch| - 1], arrived) + if WasPing(arrived, d) then [d] else []
  }

  /** `a` is `b` with entries left out. */
  predicate Subsequence<T(==)>(a: seq<T>, b: seq<T>) {
    if b == [] then a == []
    else
      || Subsequence(a, b[..|b| - 1])
      || (a != [] && a[|a| - 1] == b[|b| - 1] && Subsequence(a[..|a| - 1], b[..|b| - 1]))
  }

  lemma {:induction false} SubsequenceSize<T>(a: seq<T>, b: seq<T>)
    requires Subsequence(a, b)
    ensures |a| <= |b| && (|a| == |b| ==> a == b)
  {
    if b != [] {
      if Subsequence(a, b[..|b| - 1]) {
        SubsequenceSize(a, b[..|b| - 1]);
      } else {
        SubsequenceSize(a[..|a| - 1], b[..|b| - 1]);
        assert |a| == |b| ==> a == a[..|a| - 1] + [a[|a| - 1]];
        assert b == b[..|b| - 1] + [b[|b| - 1]];
      }
    }
  }

  lemma SubsequencePush<T>(a: seq<T>, b: seq<T>, x: T)
    requires Subsequence(a, b)
    ensures Subsequence(a, b + [x]) && Subsequence(a + [x], b + [x])
  {
    assert (b + [x])[..|b|] == b && (a + [x])[..|a|] == a;
  }

  /** `replies` are pings of the batch in order, none twice, and none without the
      echo code; with it a ping is left out only if as many are answered as there
      were TX slots at the start. */
  ghost predicate Chosen(echo: bool, free: int, batch: seq<Desc>, arrived: seq<byte>, replies: seq<Desc>) {
    && Subsequence(replies, Pings(batch, arrived))
    && (!echo ==> replies == [])
    && (echo && |replies| < free ==> replies == Pings(batch, arrived))
  }

  lemma ChosenOne(echo: bool, free: int, batch: seq<Desc>, i: nat, arrived: seq<byte>, replies: seq<Desc>,
                  out: seq<Desc>, slots: int)
    requires i < |batch| && Chosen(echo, free, batch[..i], arrived, replies) && slots + |replies| >= free
    requires out == [] || (out == [batch[i]] && echo && WasPing(arrived, batch[i]))
    requires echo && WasPing(arrived, batch[i]) && out == [] ==> slots <= 0
    ensures Chosen(echo, free, batch[..i + 1], arrived, replies + out)
  {
    hide WasPing, Subsequence;
    var before := batch[..i + 1];
    assert before[..i] == batch[..i] && before[i] == batch[i];
    var pings := Pings(batch[..i], arrived);
    assert replies + [] == replies;
    if WasPing(arrived, batch[i]) {
      assert Pings(before, arrived) == pings + [batch[i]];
      SubsequencePush(replies, pings, batch[i]);
    } else {
      assert Pings(before, arrived) == pings + [] == pings;
    }
  }

  /** With as many TX slots as pings, every ping is answered. */
  lemma AllAnswered(echo: bool, free: int, batch: seq<Desc>, arrived: seq<byte>, replies: seq<Desc>)
    requires Chosen(echo, free, batch, arrived, replies)
    ensures echo && |Pings(batch, arrived)| <= free ==> replies == Pings(batch, arrived)
    ensures echo ==> |replies| == |Pings(batch, arrived)| || |replies| >= free
  {
    SubsequenceSize(replies, Pings(batch, arrived));
  }
}
