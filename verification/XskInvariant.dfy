/** What every reachable state of the AF_XDP system keeps: each frame is in
    exactly one place, `outstanding_tx` is exact, no assert fires. */
module XskInvariant {
  import opened Rings
  import opened XskSystem
  import Packet

  // ---------------------------------------------------------------------------
  // Counting frames.

  /** What is counted: the entries of one chunk, or all that are frames. */
  datatype Key = Any | Frame(chunk: nat)

  function One(a: Addr, k: Key): nat {
    if a != INVALID_UMEM_FRAME && (k.Any? || Chunk(a) == k.chunk) then 1 else 0
  }

  function Count(q: seq<Addr>, k: Key): nat {
    if q == [] then 0 else One(q[0], k) + Count(q[1..], k)
  }

  function CountDescs(q: seq<Desc>, k: Key): nat {
    if q == [] then 0 else One(q[0].addr, k) + CountDescs(q[1..], k)
  }

  lemma {:induction false} CountConcat(a: seq<Addr>, b: seq<Addr>, k: Key)
    ensures Count(a + b, k) == Count(a, k) + Count(b, k)
  {
    if a == [] {
      assert a + b == b;
    } else {
      assert (a + b)[1..] == a[1..] + b;
      CountConcat(a[1..], b, k);
    }
  }

  lemma CountPush(q: seq<Addr>, a: Addr, k: Key)
    ensures Count(q + [a], k) == Count(q, k) + One(a, k)
  {
    CountConcat(q, [a], k);
    assert [a][1..] == [];
  }

  lemma CountPop(q: seq<Addr>, k: Key)
    requires q != []
    ensures Count(q, k) == Count(q[..|q| - 1], k) + One(q[|q| - 1], k)
  {
    CountPush(q[..|q| - 1], q[|q| - 1], k);
    assert q == q[..|q| - 1] + [q[|q| - 1]];
  }

  lemma CountRemove(q: seq<Addr>, j: nat, k: Key)
    requires j < |q|
    ensures Count(Remove(q, j), k) + One(q[j], k) == Count(q, k)
  {
    CountConcat(q[..j], q[j + 1..], k);
    CountConcat(q[..j], q[j..], k);
    assert q == q[..j] + q[j..];
    assert q[j..][1..] == q[j + 1..];
  }

  /** The counted prefix grows by the entry just written behind it. */
  lemma CountWrite(q: seq<Addr>, i: nat, a: Addr, k: Key)
    requires i < |q|
    ensures Count(q[i := a][..i + 1], k) == Count(q[..i], k) + One(a, k)
  {
    assert q[i := a][..i + 1] == q[..i] + [a];
    CountPush(q[..i], a, k);
  }

  lemma CountSkip(q: seq<Addr>, i: nat, k: Key)
    requires i < |q|
    ensures Count(q[i..], k) == One(q[i], k) + Count(q[i + 1..], k)
  {
    assert q[i..][1..] == q[i + 1..];
  }

  lemma {:induction false} CountDescsConcat(a: seq<Desc>, b: seq<Desc>, k: Key)
    ensures CountDescs(a + b, k) == CountDescs(a, k) + CountDescs(b, k)
  {
    if a == [] {
      assert a + b == b;
    } else {
      assert (a + b)[1..] == a[1..] + b;
      CountDescsConcat(a[1..], b, k);
    }
  }

  lemma CountDescsPush(q: seq<Desc>, d: Desc, k: Key)
    ensures CountDescs(q + [d], k) == CountDescs(q, k) + One(d.addr, k)
  {
    CountDescsConcat(q, [d], k);
    assert [d][1..] == [];
  }

  lemma CountDescsSkip(q: seq<Desc>, i: nat, k: Key)
    requires i < |q|
    ensures CountDescs(q[i..], k) == One(q[i].addr, k) + CountDescs(q[i + 1..], k)
  {
    assert q[i..][1..] == q[i + 1..];
  }

  // ---------------------------------------------------------------------------
  // The places a frame can be.

  /** The prefixes and suffixes that `pc` names lie inside their queues. */
  ghost predicate CountsFit(s: Sys) {
    && s.Filled() <= |s.fq.reserved| && s.RxDone() <= |s.rx.entries|
    && s.TxWrote() <= |s.tx.reserved| && s.CqDone() <= |s.cq.entries|
  }

  /** Occurrences over all places: free stack, FILL, kernel receive side, RX, TX,
      kernel transmit side, COMPLETION. Entries dealt with but not released no
      longer count, entries written but not submitted already do. */
  ghost function Total(s: Sys, k: Key): nat
    requires CountsFit(s)
  {
    Count(s.stack, k)
    + Count(s.fq.published, k) + Count(s.fq.reserved[..s.Filled()], k)
    + Count(s.krx, k) + CountDescs(s.rx.entries[s.RxDone()..], k)
    + CountDescs(s.tx.published, k) + CountDescs(s.tx.reserved[..s.TxWrote()], k)
    + Count(s.ktx, k) + Count(s.cq.entries[s.CqDone()..], k)
  }

  /** One occurrence of each of the n frames, n occurrences in all. */
  function Expected(c: Cfg, k: Key): nat {
    if k.Any? then c.n else if k.chunk < c.n then 1 else 0
  }

  predicate Frames(q: seq<Addr>) {
    forall i :: 0 <= i < |q| ==> q[i] != INVALID_UMEM_FRAME
  }

  /** A packet of at least an Ethernet header lies inside one frame. */
  predicate Fits(d: Desc) {
    d.addr != INVALID_UMEM_FRAME && Packet.ETH_HLEN <= d.len && d.addr % FRAME_SIZE + d.len <= FRAME_SIZE
  }

  predicate DescFrames(q: seq<Desc>) {
    forall i :: 0 <= i < |q| ==> Fits(q[i])
  }

  lemma {:induction false} FramesCount(q: seq<Addr>)
    ensures Frames(q) <==> Count(q, Any) == |q|
    ensures Count(q, Any) <= |q|
  {
    if q != [] {
      FramesCount(q[1..]);
      assert forall i :: 1 <= i < |q| ==> q[i] == q[1..][i - 1];
      if Frames(q[1..]) && q[0] != INVALID_UMEM_FRAME {
        assert Frames(q);
      }
      if Frames(q) {
        assert forall i :: 0 <= i < |q[1..]| ==> q[1..][i] == q[i + 1];
      }
    }
  }

  lemma {:induction false} DescFramesCount(q: seq<Desc>)
    requires DescFrames(q)
    ensures CountDescs(q, Any) == |q|
  {
    if q != [] {
      assert forall i :: 0 <= i < |q[1..]| ==> q[1..][i] == q[i + 1];
      DescFramesCount(q[1..]);
    }
  }

  // ---------------------------------------------------------------------------
  // The invariant.

  /** Ring sizes, and what `pc` says about the cached side of each ring. */
  ghost predicate Shape(c: Cfg, s: Sys) {
    && s.RingsValid()
    && s.fq.size == c.q && s.rx.size == c.rxSize && s.tx.size == c.txSize && s.cq.size == c.cqSize
    && PcShape(s)
  }

  ghost predicate PcShape(s: Sys)
    requires s.RingsValid()
  {
    && (s.pc.Filling? || s.fq.reserved == [])
    && (s.pc.TxReserved? || s.pc.TxWritten? || s.tx.reserved == [])
    && (s.pc.Completing? || s.cq.peeked == 0)
    && match s.pc
       case Idle | NeedComplete | NeedCqPeek => s.rx.peeked == 0
       case Released(k) => s.rx.peeked == 0 && k <= |s.stack|
       case NeedStock(r) => s.rx.peeked == r
       case NeedReserve(r, k) => s.rx.peeked == r && 0 < k && s.fq.CachedFree() == k
       case Filling(r, k, i) => s.rx.peeked == r && i <= k == |s.fq.reserved|
       case Processing(r, i) => s.rx.peeked == r && i <= r
       case TxReserved(r, i) => s.rx.peeked == r && i < r && |s.tx.reserved| == 1
       case TxWritten(r, i) => s.rx.peeked == r && i < r && |s.tx.reserved| == 1
       case TxSubmitted(r, i) => s.rx.peeked == r && i < r
       case Completing(k, i) => s.rx.peeked == 0 && s.cq.peeked == k && 0 < k && i <= k && i <= |s.stack|
       case Retry(_, _) => false
       case AssertFailed => false
  }

  /** Outside FILL every entry is a frame. */
  ghost predicate OnlyFrames(s: Sys) {
    && Frames(s.stack) && Frames(s.krx) && DescFrames(s.rx.entries)
    && DescFrames(s.tx.published) && (s.pc.TxWritten? ==> DescFrames(s.tx.reserved))
    && Frames(s.ktx) && Frames(s.cq.entries)
  }

  /** `outstanding_tx` counts the frames on their way out; `pc` tells the two
      places where the code is about to add or subtract. */
  ghost predicate OutstandingExact(s: Sys) {
    s.outstanding + (if s.pc.TxSubmitted? then 1 else 0)
    == |s.tx.published| + |s.ktx| + |s.cq.entries| + (if s.pc.Released? then s.pc.done else 0)
  }

  ghost predicate Conserved(c: Cfg, s: Sys)
    requires CountsFit(s)
  {
    forall k: Key :: Total(s, k) == Expected(c, k)
  }

  ghost predicate Inv(c: Cfg, s: Sys) {
    && Shape(c, s) && OnlyFrames(s) && OutstandingExact(s)
    && CountsFit(s) && Conserved(c, s)
  }

  /** The invariant without its counts. */
  lemma InvParts(c: Cfg, s: Sys)
    requires Inv(c, s)
    ensures Shape(c, s) && OnlyFrames(s) && CountsFit(s)
  {
  }

  // ---------------------------------------------------------------------------
  // It holds after setup.

  lemma {:induction false} CountInitialStack(m: nat, k: Key)
    requires m * FRAME_SIZE <= INVALID_UMEM_FRAME
    ensures Count(InitialStack(m), k) == if k.Any? then m else if k.chunk < m then 1 else 0
  {
    if m > 0 {
      var q := InitialStack(m);
      CountInitialStack(m - 1, k);
      assert q[..m - 1] == InitialStack(m - 1);
      CountPop(q, k);
      assert Chunk((m - 1) * FRAME_SIZE) == m - 1;
    }
  }

  lemma {:induction false} CountDescending(top: nat, m: nat, k: Key)
    requires m <= top && top * FRAME_SIZE <= INVALID_UMEM_FRAME
    ensures Count(Descending(top, m), k)
            == if k.Any? then m else if top - m <= k.chunk < top then 1 else 0
  {
    if m > 0 {
      var q := Descending(top, m);
      CountDescending(top, m - 1, k);
      assert q[..m - 1] == Descending(top, m - 1);
      CountPop(q, k);
      assert Chunk((top - m) * FRAME_SIZE) == top - m;
    }
  }

  lemma InitInv(c: Cfg)
    requires c.Valid()
    ensures Inv(c, Init(c))
  {
    var s := Init(c);
    forall k: Key
      ensures Total(s, k) == Expected(c, k)
    {
      CountInitialStack(c.n - c.q, k);
      CountDescending(c.n, c.q, k);
    }
  }

  // ---------------------------------------------------------------------------
  // Every step conserves every count.

  lemma TakeFillTotal(s: Sys, t: Sys, k: Key)
    requires s.RingsValid() && CountsFit(s) && TakeFill(s, t)
    ensures CountsFit(t) && Total(t, k) == Total(s, k)
  {
    CountPush(s.krx, s.fq.published[0], k);
  }

  lemma DeliverTotal(s: Sys, t: Sys, j: nat, d: Desc, k: Key)
    requires s.RingsValid() && CountsFit(s) && Frames(s.krx) && DeliverAs(s, t, j, d)
    ensures CountsFit(t) && Total(t, k) == Total(s, k)
  {
    CountRemove(s.krx, j, k);
    assert t.rx.entries[s.RxDone()..] == s.rx.entries[s.RxDone()..] + [d];
    CountDescsPush(s.rx.entries[s.RxDone()..], d, k);
  }

  lemma TakeTxTotal(s: Sys, t: Sys, k: Key)
    requires s.RingsValid() && CountsFit(s) && TakeTx(s, t)
    ensures CountsFit(t) && Total(t, k) == Total(s, k)
  {
    CountPush(s.ktx, s.tx.published[0].addr, k);
  }

  lemma CompleteTotal(s: Sys, t: Sys, j: nat, k: Key)
    requires s.RingsValid() && CountsFit(s) && CompleteAs(s, t, j)
    ensures CountsFit(t) && Total(t, k) == Total(s, k)
  {
    CountRemove(s.ktx, j, k);
    assert t.cq.entries[s.CqDone()..] == s.cq.entries[s.CqDone()..] + [s.ktx[j]];
    CountPush(s.cq.entries[s.CqDone()..], s.ktx[j], k);
  }

  lemma KernelTotal(s: Sys, t: Sys, k: Key)
    requires s.RingsValid() && CountsFit(s) && Frames(s.krx) && KernelStep(s, t)
    ensures CountsFit(t) && Total(t, k) == Total(s, k)
  {
    hide Total;
    if TakeFill(s, t) {
      TakeFillTotal(s, t, k);
    } else if Deliver(s, t) {
      var j: nat, d: Desc :| DeliverAs(s, t, j, d);
      DeliverTotal(s, t, j, d, k);
    } else if TakeTx(s, t) {
      TakeTxTotal(s, t, k);
    } else {
      var j: nat :| CompleteAs(s, t, j);
      CompleteTotal(s, t, j, k);
    }
  }

  /** A frame from the front of a counted suffix goes to the stack. */
  lemma FreedRxTotal(c: Cfg, s: Sys, t: Sys, k: Key)
    requires s.RingsValid() && CountsFit(s) && |s.stack| < c.n
    requires s.pc.Processing? && s.pc.i < s.pc.rcvd && s.pc.i < |s.rx.entries| && DropStep(c, s, t)
    ensures CountsFit(t) && Total(t, k) == Total(s, k)
  {
    CountPush(s.stack, s.rx.entries[s.pc.i].addr, k);
    CountDescsSkip(s.rx.entries, s.pc.i, k);
  }

  lemma FreedCqTotal(c: Cfg, s: Sys, t: Sys, k: Key)
    requires s.RingsValid() && CountsFit(s) && |s.stack| < c.n
    requires s.pc.Completing? && s.pc.i < s.pc.done && s.pc.i < |s.cq.entries| && AppStep(c, s, t)
    ensures CountsFit(t) && Total(t, k) == Total(s, k)
  {
    CountPush(s.stack, s.cq.entries[s.pc.i], k);
    CountSkip(s.cq.entries, s.pc.i, k);
  }

  lemma FillTotal(c: Cfg, s: Sys, t: Sys, k: Key)
    requires s.RingsValid() && CountsFit(s)
    requires s.pc.Filling? && AppStep(c, s, t) && s.pc.i < s.pc.stock == |s.fq.reserved|
    ensures CountsFit(t) && Total(t, k) == Total(s, k)
  {
    CountWrite(s.fq.reserved, s.pc.i, Alloc(s.stack).1, k);
    if s.stack != [] {
      CountPop(s.stack, k);
    }
  }

  lemma SubmitTotal(c: Cfg, s: Sys, t: Sys, k: Key)
    requires s.RingsValid() && CountsFit(s)
    requires s.pc.Filling? && AppStep(c, s, t) && s.pc.i == s.pc.stock == |s.fq.reserved|
    ensures CountsFit(t) && Total(t, k) == Total(s, k)
  {
    CountConcat(s.fq.published, s.fq.reserved[..s.pc.stock], k);
  }

  lemma TxWriteTotal(c: Cfg, s: Sys, t: Sys, k: Key)
    requires s.RingsValid() && CountsFit(s) && s.pc.TxReserved?
    requires |s.tx.reserved| == 1 && s.pc.i < |s.rx.entries| && AppStep(c, s, t)
    ensures CountsFit(t) && Total(t, k) == Total(s, k)
  {
    var d := s.rx.entries[s.pc.i];
    CountDescsSkip(s.rx.entries, s.pc.i, k);
    assert t.tx.reserved[..1] == [] + [d];
    CountDescsPush([], d, k);
  }

  lemma TxSubmitTotal(c: Cfg, s: Sys, t: Sys, k: Key)
    requires s.RingsValid() && CountsFit(s) && s.pc.TxWritten?
    requires |s.tx.reserved| == 1 && AppStep(c, s, t)
    ensures CountsFit(t) && Total(t, k) == Total(s, k)
  {
    CountDescsConcat(s.tx.published, s.tx.reserved[..1], k);
  }

  lemma TxCountTotal(c: Cfg, s: Sys, t: Sys, k: Key)
    requires s.RingsValid() && CountsFit(s) && s.pc.TxSubmitted? && AppStep(c, s, t)
    ensures CountsFit(t) && Total(t, k) == Total(s, k)
  {
  }

  lemma EchoTotal(c: Cfg, s: Sys, t: Sys, k: Key)
    requires s.RingsValid() && CountsFit(s) && |s.stack| < c.n
    requires s.pc.Processing? && s.pc.i < s.pc.rcvd && s.pc.i < |s.rx.entries| && EchoStep(c, s, t)
    ensures CountsFit(t) && Total(t, k) == Total(s, k)
  {
    if !s.tx.CanReserve(1) {
      var u := s.(tx := t.tx);
      assert Total(u, k) == Total(s, k);
      FreedRxTotal(c, u, t, k);
    }
  }

  /** Releasing a batch drops entries that no longer count. */
  lemma ReleaseTotal(c: Cfg, s: Sys, t: Sys, k: Key)
    requires s.RingsValid() && CountsFit(s) && AppStep(c, s, t)
    requires (s.pc.Processing? && s.pc.i == s.pc.rcvd) || (s.pc.Completing? && s.pc.i == s.pc.done)
    ensures CountsFit(t) && Total(t, k) == Total(s, k)
  {
    if s.pc.Processing? {
      assert t.rx.entries[0..] == s.rx.entries[s.pc.i..];
    } else {
      assert t.cq.entries[0..] == s.cq.entries[s.pc.i..];
    }
  }

  /** The steps that move no frame. */
  lemma QuietTotal(c: Cfg, s: Sys, t: Sys, k: Key)
    requires s.RingsValid() && CountsFit(s) && AppStep(c, s, t)
    requires s.pc.Idle? || s.pc.NeedStock? || s.pc.NeedReserve? || s.pc.Retry?
             || s.pc.NeedComplete? || s.pc.NeedCqPeek? || s.pc.Released?
    ensures CountsFit(t) && Total(t, k) == Total(s, k)
  {
    SamePlaces(s, t, k);
  }

  lemma SamePlaces(s: Sys, t: Sys, k: Key)
    requires CountsFit(s) && s.Filled() == s.RxDone() == s.TxWrote() == s.CqDone() == 0
    requires t.Filled() == t.RxDone() == t.TxWrote() == t.CqDone() == 0
    requires t.stack == s.stack && t.fq.published == s.fq.published && t.krx == s.krx && t.ktx == s.ktx
    requires t.rx.entries == s.rx.entries && t.tx.published == s.tx.published && t.cq.entries == s.cq.entries
    ensures CountsFit(t) && Total(t, k) == Total(s, k)
  {
  }

  lemma AppTotal(c: Cfg, s: Sys, t: Sys, k: Key)
    requires Shape(c, s) && CountsFit(s) && AppStep(c, s, t) && (Frees(s) ==> |s.stack| < c.n)
    ensures CountsFit(t) && Total(t, k) == Total(s, k)
  {
    hide Total;
    match s.pc
    case Filling(r, m, i) =>
      if i < m {
        FillTotal(c, s, t, k);
      } else {
        SubmitTotal(c, s, t, k);
      }
    case TxReserved(r, i) => TxWriteTotal(c, s, t, k);
    case TxWritten(r, i) => TxSubmitTotal(c, s, t, k);
    case TxSubmitted(r, i) => TxCountTotal(c, s, t, k);
    case Processing(r, i) =>
      if i == r {
        ReleaseTotal(c, s, t, k);
      } else if DropStep(c, s, t) {
        FreedRxTotal(c, s, t, k);
      } else {
        EchoTotal(c, s, t, k);
      }
    case Completing(m, i) =>
      if i == m {
        ReleaseTotal(c, s, t, k);
      } else {
        FreedCqTotal(c, s, t, k);
      }
    case _ => QuietTotal(c, s, t, k);
  }

  /** The application is about to give a frame back. */
  ghost predicate Frees(s: Sys) {
    (s.pc.Processing? && s.pc.i < s.pc.rcvd) || (s.pc.Completing? && s.pc.i < s.pc.done)
  }

  /** A frame not yet dealt with is outside the stack, so the stack has room and
      the assert of `xsk_free_umem_frame` holds. */
  lemma RoomToFree(c: Cfg, s: Sys)
    requires Inv(c, s) && Frees(s)
    ensures |s.stack| < c.n
  {
    FramesCount(s.stack);
    assert Total(s, Any) == c.n;
    if s.pc.Processing? {
      CountDescsSkip(s.rx.entries, s.pc.i, Any);
      assert Fits(s.rx.entries[s.pc.i]);
    } else {
      CountSkip(s.cq.entries, s.pc.i, Any);
      assert s.cq.entries[s.pc.i] != INVALID_UMEM_FRAME;
    }
  }

  lemma {:induction false} CountDescsPositive(q: seq<Desc>, i: nat)
    requires i < |q| && q[i].addr != INVALID_UMEM_FRAME
    ensures CountDescs(q, Frame(Chunk(q[i].addr))) >= 1
  {
    if i > 0 {
      assert q[1..][i - 1] == q[i];
      CountDescsPositive(q[1..], i - 1);
    }
  }

  /** A packet not yet dealt with lies inside the UMEM. */
  lemma PacketInUmem(c: Cfg, s: Sys)
    requires Inv(c, s) && s.pc.Processing? && s.pc.i < s.pc.rcvd
    ensures var d := s.rx.entries[s.pc.i];
            Packet.ETH_HLEN <= d.len && d.addr + d.len <= c.n * FRAME_SIZE
  {
    var d := s.rx.entries[s.pc.i];
    assert Fits(d);
    var rest := s.rx.entries[s.pc.i..];
    assert rest[0] == d;
    CountDescsPositive(rest, 0);
    assert Total(s, Frame(Chunk(d.addr))) == Expected(c, Frame(Chunk(d.addr)));
    assert Chunk(d.addr) < c.n;
    assert d.addr == FRAME_SIZE * Chunk(d.addr) + d.addr % FRAME_SIZE;
  }

  // ---------------------------------------------------------------------------
  // Every step keeps the rest.

  lemma DeliverKeeps(c: Cfg, s: Sys, t: Sys, j: nat, d: Desc)
    requires Shape(c, s) && OnlyFrames(s) && OutstandingExact(s) && |s.rx.entries| < s.rx.size && DeliverAs(s, t, j, d)
    ensures Shape(c, t) && OnlyFrames(t) && OutstandingExact(t)
  {
  }

  lemma CompleteKeeps(c: Cfg, s: Sys, t: Sys, j: nat)
    requires Shape(c, s) && OnlyFrames(s) && OutstandingExact(s) && |s.cq.entries| < s.cq.size && CompleteAs(s, t, j)
    ensures Shape(c, t) && OnlyFrames(t) && OutstandingExact(t)
  {
  }

  lemma TakeKeeps(c: Cfg, s: Sys, t: Sys)
    requires Shape(c, s) && OnlyFrames(s) && OutstandingExact(s) && (TakeFill(s, t) || TakeTx(s, t))
    ensures Shape(c, t) && OnlyFrames(t) && OutstandingExact(t)
  {
  }

  lemma KernelKeeps(c: Cfg, s: Sys, t: Sys)
    requires Shape(c, s) && OnlyFrames(s) && OutstandingExact(s) && KernelStep(s, t)
    ensures Shape(c, t) && OnlyFrames(t) && OutstandingExact(t)
  {
    hide Shape, OnlyFrames, OutstandingExact, DeliverAs, CompleteAs, TakeFill, TakeTx;
    if Deliver(s, t) {
      var j: nat, d: Desc :| DeliverAs(s, t, j, d);
      DeliverKeeps(c, s, t, j, d);
    } else if Complete(s, t) {
      var j: nat :| CompleteAs(s, t, j);
      CompleteKeeps(c, s, t, j);
    } else {
      TakeKeeps(c, s, t);
    }
  }

  lemma FillKeeps(c: Cfg, s: Sys, t: Sys)
    requires Shape(c, s) && OnlyFrames(s) && OutstandingExact(s) && AppStep(c, s, t)
    requires s.pc.Idle? || s.pc.NeedStock? || s.pc.NeedReserve? || s.pc.Filling?
    ensures Shape(c, t) && OnlyFrames(t) && OutstandingExact(t)
  {
  }

  lemma ProcessKeeps(c: Cfg, s: Sys, t: Sys)
    requires Shape(c, s) && OnlyFrames(s) && OutstandingExact(s) && AppStep(c, s, t)
    requires s.pc.Processing? && (s.pc.i < s.pc.rcvd ==> |s.stack| < c.n)
    ensures Shape(c, t) && OnlyFrames(t) && OutstandingExact(t)
  {
  }

  lemma TxKeeps(c: Cfg, s: Sys, t: Sys)
    requires Shape(c, s) && OnlyFrames(s) && OutstandingExact(s) && AppStep(c, s, t)
    requires s.pc.TxReserved? || s.pc.TxWritten? || s.pc.TxSubmitted?
    ensures Shape(c, t) && OnlyFrames(t) && OutstandingExact(t)
  {
  }

  lemma CqKeeps(c: Cfg, s: Sys, t: Sys)
    requires Shape(c, s) && OnlyFrames(s) && OutstandingExact(s) && AppStep(c, s, t)
    requires s.pc.NeedComplete? || s.pc.NeedCqPeek? || s.pc.Completing? || s.pc.Released?
    requires Frees(s) ==> |s.stack| < c.n
    ensures Shape(c, t) && OnlyFrames(t) && OutstandingExact(t)
  {
  }

  lemma AppKeeps(c: Cfg, s: Sys, t: Sys)
    requires Shape(c, s) && OnlyFrames(s) && OutstandingExact(s) && AppStep(c, s, t)
    requires Frees(s) ==> |s.stack| < c.n
    ensures Shape(c, t) && OnlyFrames(t) && OutstandingExact(t)
  {
    hide AppStep, OnlyFrames, OutstandingExact;
    match s.pc
    case Processing(r, i) => ProcessKeeps(c, s, t);
    case Idle | NeedStock(_) | NeedReserve(_, _) | Filling(_, _, _) => FillKeeps(c, s, t);
    case TxReserved(_, _) | TxWritten(_, _) | TxSubmitted(_, _) => TxKeeps(c, s, t);
    case NeedComplete | NeedCqPeek | Completing(_, _) | Released(_) => CqKeeps(c, s, t);
  }

  lemma AppKeepsInv(c: Cfg, s: Sys, t: Sys)
    requires Inv(c, s) && AppStep(c, s, t)
    ensures Inv(c, t)
  {
    hide Total, AppStep, Shape, OnlyFrames, OutstandingExact, CountsFit;
    if Frees(s) {
      RoomToFree(c, s);
    }
    AppKeeps(c, s, t);
    AppTotal(c, s, t, Any);
    forall k: Key
      ensures Total(t, k) == Expected(c, k)
    {
      AppTotal(c, s, t, k);
    }
  }

  lemma KernelKeepsInv(c: Cfg, s: Sys, t: Sys)
    requires Inv(c, s) && KernelStep(s, t)
    ensures Inv(c, t)
  {
    hide Total, KernelStep, CountsFit;
    KernelKeeps(c, s, t);
    KernelTotal(s, t, Any);
    forall k: Key
      ensures Total(t, k) == Expected(c, k)
    {
      KernelTotal(s, t, k);
    }
  }

  // ---------------------------------------------------------------------------
  // Over every run.

  ghost predicate Reachable(c: Cfg, s: Sys) {
    exists run: seq<Sys> :: IsRun(c, run) && Last(run) == s
  }

  /** What comes before a moment of a run is a run. */
  lemma RunUpTo(c: Cfg, run: seq<Sys>, i: nat)
    requires IsRun(c, run) && i < |run|
    ensures IsRun(c, run[..i + 1]) && Last(run[..i + 1]) == run[i]
  {
    hide Step, Init;
    var p := run[..i + 1];
    forall j {:trigger p[j]} | 0 < j < |p|
      ensures Step(c, p[j - 1], p[j])
    {
      assert p[j] == run[j] && p[j - 1] == run[j - 1];
    }
  }

  /** A run is the run before its last state and one more step. */
  lemma RunBefore(c: Cfg, run: seq<Sys>)
    requires IsRun(c, run) && |run| > 1
    ensures var before := run[..|run| - 1];
            IsRun(c, before) && Step(c, Last(before), Last(run))
  {
    hide Step, Init;
    RunUpTo(c, run, |run| - 2);
    assert run[..|run| - 2 + 1] == run[..|run| - 1];
    assert Step(c, run[|run| - 1 - 1], run[|run| - 1]);
  }

  lemma {:induction false} RunInv(c: Cfg, run: seq<Sys>)
    requires IsRun(c, run)
    ensures Inv(c, Last(run))
  {
    hide Inv, AppStep, KernelStep;
    if |run| == 1 {
      InitInv(c);
    } else {
      var before := run[..|run| - 1];
      RunBefore(c, run);
      RunInv(c, before);
      if AppStep(c, Last(before), Last(run)) {
        AppKeepsInv(c, Last(before), Last(run));
      } else {
        KernelKeepsInv(c, Last(before), Last(run));
      }
    }
  }

  /** In every reachable state of every interleaving each of the n frames is in
      exactly one place, and nothing else is anywhere but for the invalid marks
      a refill may have put into FILL. */
  lemma EveryFrameInOnePlace(c: Cfg, s: Sys, f: nat)
    requires Reachable(c, s)
    ensures CountsFit(s) && Total(s, Frame(f)) == if f < c.n then 1 else 0
    ensures OnlyFrames(s)
  {
    var run: seq<Sys> :| IsRun(c, run) && Last(run) == s;
    RunInv(c, run);
  }

  lemma {:induction false} CountPositive(q: seq<Addr>, i: nat)
    requires i < |q| && q[i] != INVALID_UMEM_FRAME
    ensures Count(q, Frame(Chunk(q[i]))) >= 1
  {
    if i > 0 {
      assert q[1..][i - 1] == q[i];
      CountPositive(q[1..], i - 1);
    }
  }

  /** The free stack never holds two entries of one frame. */
  lemma StackHasNoDuplicates(c: Cfg, s: Sys, i: nat, j: nat)
    requires Reachable(c, s) && i < j < |s.stack|
    ensures Chunk(s.stack[i]) != Chunk(s.stack[j]) && Chunk(s.stack[i]) < c.n
  {
    EveryFrameInOnePlace(c, s, Chunk(s.stack[i]));
    var k := Frame(Chunk(s.stack[i]));
    CountPositive(s.stack[..j], i);
    CountConcat(s.stack[..j], s.stack[j..], k);
    assert s.stack == s.stack[..j] + s.stack[j..];
    assert s.stack[j..][0] == s.stack[j];
    CountPositive(s.stack[j..], 0);
  }

  /** No run trips the assert of `xsk_free_umem_frame`, and no run enters the
      retry loop behind `reserve`. */
  lemma NeverFailsNeverRetries(c: Cfg, s: Sys)
    requires Reachable(c, s)
    ensures !s.pc.AssertFailed? && !s.pc.Retry?
    ensures Frees(s) ==> |s.stack| < c.n
  {
    var run: seq<Sys> :| IsRun(c, run) && Last(run) == s;
    RunInv(c, run);
    if Frees(s) {
      RoomToFree(c, s);
    }
  }

  /** `outstanding_tx` is at every rest the number of frames in TX, on the
      kernel's transmit side and in COMPLETION. So the early return of
      `complete_tx` leaves no completed frame behind, and its clamp never acts. */
  lemma OutstandingIsExact(c: Cfg, s: Sys)
    requires Reachable(c, s)
    ensures !s.pc.TxSubmitted? && !s.pc.Released? ==>
              s.outstanding == |s.tx.published| + |s.ktx| + |s.cq.entries|
    ensures s.pc.NeedComplete? && s.outstanding == 0 ==> s.cq.entries == [] && s.ktx == []
    ensures s.pc.Released? ==> s.pc.done <= s.outstanding
    ensures s.outstanding <= c.n
  {
    var run: seq<Sys> :| IsRun(c, run) && Last(run) == s;
    RunInv(c, run);
    OutstandingBound(c, s);
  }

  lemma OutstandingBound(c: Cfg, s: Sys)
    requires Inv(c, s)
    ensures s.outstanding <= c.n
  {
    assert Total(s, Any) == c.n;
    DescFramesCount(s.tx.published);
    FramesCount(s.ktx);
    FramesCount(s.cq.entries[s.CqDone()..]);
    FramesCount(s.stack);
  }
}
