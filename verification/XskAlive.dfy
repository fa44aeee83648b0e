/** When reception can die, for every configuration: as shipped, the echo code
    off, only if one batch takes all frames; with it on, whenever packets can be
    echoed at all. */
module XskAlive {
  import opened Rings
  import opened XskSystem
  import opened XskInvariant
  import opened XskReach
  import XskMarks

  /** Not all frames can be in one batch. */
  predicate Lives(c: Cfg) {
    1 <= c.q && (c.q < c.n || c.q > c.batch || c.q > c.rxSize)
  }

  /** No packet is ever echoed. */
  predicate Silent(c: Cfg) {
    !c.echo || c.txSize == 0 || c.rxSize == 0
  }

  /** Nothing is on its way out. */
  ghost predicate NothingOut(s: Sys) {
    && s.outstanding == 0 && s.tx.published == [] && s.tx.reserved == [] && s.ktx == [] && s.cq.entries == []
    && !s.pc.TxReserved? && !s.pc.TxWritten? && !s.pc.TxSubmitted?
    && !s.pc.NeedCqPeek? && !s.pc.Completing? && !s.pc.Released?
  }

  /** Frames that reception keeps when the batch in hand is given back. */
  ghost function Remaining(s: Sys): int
    requires s.Filled() <= |s.fq.reserved|
  {
    Count(s.fq.published, Any) + Count(s.fq.reserved[..s.Filled()], Any)
    + |s.krx| + |s.rx.entries| - if InBatch(s.pc) then s.pc.rcvd else 0
  }

  /** A full FILL ring holds a frame; the stack is empty before a refill only as
      long as FILL has all frames; a refill begins with a frame. */
  ghost predicate Alive(c: Cfg, s: Sys)
    requires s.Filled() <= |s.fq.reserved|
  {
    && NothingOut(s)
    && (|s.fq.published| >= c.q ==> Count(s.fq.published, Any) >= 1)
    && match s.pc
       case Idle => (s.stack == [] ==> c.n == c.q) && Remaining(s) >= 1
       case NeedStock(_) => s.stack == [] ==> c.n == c.q
       case NeedReserve(_, k) => s.stack != []
       case Filling(_, k, i) => k > 0 && if i == 0 then s.stack != [] else s.fq.reserved[0] != INVALID_UMEM_FRAME
       case Processing(_, i) => (i > 0 ==> s.stack != []) && Remaining(s) >= 1
       case NeedComplete => s.stack != [] && Remaining(s) >= 1
       case _ => true
  }

  /** With nothing on its way out, the stack has what reception has not. */
  lemma StackAndRest(c: Cfg, s: Sys)
    requires Inv(c, s) && NothingOut(s)
    ensures var inHand := if InBatch(s.pc) then s.pc.rcvd else 0;
            |s.stack| + Remaining(s) + inHand - s.RxDone() == c.n
  {
    assert Total(s, Any) == c.n;
    FramesCount(s.stack);
    FramesCount(s.krx);
    DescFramesCount(s.rx.entries[s.RxDone()..]);
  }

  lemma KernelAlive(c: Cfg, s: Sys, t: Sys)
    requires s.Filled() <= |s.fq.reserved| && s.fq.Valid() && s.fq.size == c.q && Alive(c, s) && KernelStep(s, t)
    ensures t.Filled() <= |t.fq.reserved| && Alive(c, t)
  {
    XskMarks.KernelKeepsPc(s, t);
    if Deliver(s, t) {
      var j: nat, d: Desc :| DeliverAs(s, t, j, d);
    } else if TakeFill(s, t) {
      FramesCount(t.fq.published);
    }
  }

  /** The size of a refill: none from an empty stack, else all free slots; a full
      ring, or one still holding all frames, outlasts the batch. */
  lemma StockAlive(c: Cfg, s: Sys, t: Sys)
    requires Inv(c, s) && s.RingsValid() && Paced(c, s) && PcShape(s) && Lives(c)
    requires s.fq.size == c.q && s.rx.size == c.rxSize
    requires s.Filled() <= |s.fq.reserved| && Alive(c, s) && s.pc.NeedStock? && AppStep(c, s, t)
    ensures t.Filled() <= |t.fq.reserved| && Alive(c, t)
  {
    StackAndRest(c, s);
    hide Inv;
    assert t.fq.published == s.fq.published && t.fq.reserved == s.fq.reserved == [];
  }

  lemma FillAlive(c: Cfg, s: Sys, t: Sys)
    requires s.RingsValid() && PcShape(s) && Frames(s.stack) && Paced(c, s)
    requires s.Filled() <= |s.fq.reserved| && Alive(c, s) && (s.pc.NeedReserve? || s.pc.Filling?) && AppStep(c, s, t)
    ensures t.Filled() <= |t.fq.reserved| && Alive(c, t)
  {
    if s.pc.Filling? && s.pc.i == s.pc.stock {
      CountConcat(s.fq.published, s.fq.reserved[..s.pc.stock], Any);
      assert s.fq.reserved[..s.pc.stock] == s.fq.reserved;
      CountConcat([s.fq.reserved[0]], s.fq.reserved[1..], Any);
      assert s.fq.reserved[s.pc.stock..] == [];
    }
  }

  lemma OtherAlive(c: Cfg, s: Sys, t: Sys)
    requires s.RingsValid() && PcShape(s) && Paced(c, s) && Silent(c)
    requires s.tx.size == c.txSize && s.rx.size == c.rxSize
    requires s.Filled() <= |s.fq.reserved| && Alive(c, s) && AppStep(c, s, t) && (Frees(s) ==> |s.stack| < c.n)
    requires !s.pc.NeedStock? && !s.pc.NeedReserve? && !s.pc.Filling?
    ensures t.Filled() <= |t.fq.reserved| && Alive(c, t)
  {
    assert t.fq == s.fq && t.krx == s.krx;
  }

  lemma StepAlive(c: Cfg, s: Sys, t: Sys)
    requires Reachable(c, s) && Lives(c) && Silent(c) && Step(c, s, t)
    requires s.Filled() <= |s.fq.reserved| && Alive(c, s)
    ensures t.Filled() <= |t.fq.reserved| && Alive(c, t)
  {
    hide Inv, Alive, AppStep, KernelStep, Reachable, PcShape, Paced;
    ReachablePaced(c, s);
    InvParts(c, s);
    if KernelStep(s, t) {
      KernelAlive(c, s, t);
    } else if s.pc.NeedStock? {
      StockAlive(c, s, t);
    } else if s.pc.NeedReserve? || s.pc.Filling? {
      FillAlive(c, s, t);
    } else {
      if Frees(s) {
        RoomToFree(c, s);
      }
      OtherAlive(c, s, t);
    }
  }

  lemma {:induction false} RunAlive(c: Cfg, run: seq<Sys>)
    requires IsRun(c, run) && Lives(c) && Silent(c)
    ensures Last(run).Filled() <= |Last(run).fq.reserved| && Alive(c, Last(run))
  {
    hide Inv, Step, Alive, Init;
    if |run| == 1 {
      InitAlive(c);
    } else {
      var before := run[..|run| - 1];
      RunBefore(c, run);
      RunAlive(c, before);
      assert Reachable(c, Last(before));
      StepAlive(c, Last(before), Last(run));
    }
  }

  lemma InitAlive(c: Cfg)
    requires c.Valid() && Lives(c)
    ensures Init(c).Filled() <= |Init(c).fq.reserved| && Alive(c, Init(c))
  {
    CountDescending(c.n, c.q, Any);
  }

  /** Without a bound on anything: some frame is always outside the stack and at
      rest in reach of reception, there is always a frame to begin a refill with,
      unless FILL was given all frames, and a full FILL ring is never all marks. */
  lemma StaysAlive(c: Cfg, s: Sys)
    requires Reachable(c, s) && Lives(c) && Silent(c)
    ensures |s.stack| < c.n
    ensures s.pc.Idle? ==> Count(s.fq.published, Any) + |s.krx| + |s.rx.entries| >= 1
    ensures s.pc.NeedStock? && c.q < c.n ==> s.stack != []
    ensures |s.fq.published| == c.q ==> exists i :: 0 <= i < c.q && s.fq.published[i] != INVALID_UMEM_FRAME
  {
    hide Inv, Step, Init;
    var run: seq<Sys> :| IsRun(c, run) && Last(run) == s;
    RunAlive(c, run);
    ReachablePaced(c, s);
    InvParts(c, s);
    StackAndRest(c, s);
    InHandFirst(c, s);
    if |s.fq.published| == c.q {
      SomeFrame(s.fq.published);
    }
  }

  /** Until a batch is given back its frames are outside the stack. */
  lemma InHandFirst(c: Cfg, s: Sys)
    requires s.RingsValid() && PcShape(s) && Paced(c, s) && s.Filled() <= |s.fq.reserved| && Alive(c, s)
    requires s.rx.peeked <= |s.rx.entries|
    ensures var inHand := if InBatch(s.pc) then s.pc.rcvd else 0;
            Remaining(s) + inHand - s.RxDone() >= 1
  {
  }

  lemma {:induction false} SomeFrame(q: seq<Addr>)
    requires Count(q, Any) >= 1
    ensures exists i :: 0 <= i < |q| && q[i] != INVALID_UMEM_FRAME
  {
    if q[0] == INVALID_UMEM_FRAME {
      SomeFrame(q[1..]);
      var i :| 0 <= i < |q[1..]| && q[1..][i] != INVALID_UMEM_FRAME;
      assert q[i + 1] != INVALID_UMEM_FRAME;
    }
  }

  // ---------------------------------------------------------------------------
  // How reception dies.

  /** At rest, and no frame in FILL, on the kernel's receive side or in RX: only
      a batch makes the application refill or collect what was sent. */
  ghost predicate Starved(s: Sys) {
    s.pc.Idle? && Count(s.fq.published, Any) == 0 && s.krx == [] && s.rx.entries == []
  }

  /** Starving is for ever. */
  lemma {:induction false} StarvedForever(c: Cfg, run: seq<Sys>, i: nat, j: nat)
    requires IsRun(c, run) && i <= j < |run| && Starved(run[i])
    ensures Starved(run[j])
  {
    hide Inv, Step, Init, Reachable, Paced, Starved;
    if i < j {
      StarvedForever(c, run, i, j - 1);
      assert Step(c, run[j - 1], run[j]);
      StarvedStep(c, run[j - 1], run[j]);
    }
  }

  lemma StarvedStep(c: Cfg, s: Sys, t: Sys)
    requires Starved(s) && Step(c, s, t)
    ensures Starved(t)
  {
    if KernelStep(s, t) {
      XskMarks.KernelKeepsPc(s, t);
      if Complete(s, t) {
        var j: nat :| CompleteAs(s, t, j);
      }
    }
  }

  /** The kernel hands up all it holds. */
  lemma {:induction false} DeliverAll(c: Cfg, s: Sys) returns (t: Sys)
    requires Reachable(c, s) && |s.krx| + |s.rx.entries| <= c.rxSize
    ensures Reachable(c, t) && t == s.(krx := [], rx := s.rx.(entries := t.rx.entries))
    ensures |t.rx.entries| == |s.krx| + |s.rx.entries|
    decreases |s.krx|
  {
    hide Reachable;
    t := s;
    if s.krx != [] {
      t := DeliverOldest(c, s);
      t := DeliverAll(c, t);
    }
  }

  /** FILL has all frames and one batch takes them. */
  lemma DiesInOneBatch(c: Cfg) returns (t: Sys)
    requires c.Valid() && c.q == c.n && 1 <= c.q <= c.batch && c.q <= c.rxSize
    ensures Reachable(c, t) && Starved(t)
  {
    hide Inv, Reachable;
    InitReachable(c);
    XskMarks.InitClean(c);
    RealCount(Init(c).fq.published);
    t := TakeAll(c, Init(c));
    t := DeliverAll(c, t);
    t := PeekAll(c, t);
    t := SkipRefill(c, t);
    t := DropAll(c, t);
    t := FinishBatch(c, t);
  }

  /** At rest, nothing received, TX and COMPLETION empty; what was sent is with
      the kernel. */
  ghost predicate Hoarding(c: Cfg, s: Sys) {
    && Reachable(c, s) && s.pc.Idle? && s.fq.reserved == [] && s.rx == ConsQ(c.rxSize, [], 0, 0)
    && s.tx.published == [] && s.cq.entries == []
  }

  /** One packet received and sent back, which the kernel does not complete. */
  lemma OneEcho(c: Cfg, s: Sys) returns (t: Sys)
    requires Hoarding(c, s) && c.echo && c.rxSize >= 1 && c.txSize >= 1 && c.q >= 1
    requires Count(s.fq.published, Any) > 0 || s.krx != []
    ensures Hoarding(c, t) && |t.ktx| == |s.ktx| + 1
  {
    hide Reachable, Inv, Popped, Left;
    ReachablePaced(c, s);
    RealCount(s.fq.published);
    t := TakeAll(c, s);
    t := DeliverOldest(c, t);
    t := PeekAll(c, t);
    if t.stack == [] {
      t := SkipRefill(c, t);
    } else {
      t := RefillWhole(c, t);
    }
    t := EchoOne(c, t);
    t := FinishBatch(c, t);
    t := TakeSent(c, t);
  }

  lemma {:induction false} EchoesStarve(c: Cfg, s: Sys) returns (t: Sys)
    requires Hoarding(c, s) && c.echo && c.rxSize >= 1 && c.txSize >= 1 && c.q >= 1
    ensures Reachable(c, t) && Starved(t)
    decreases c.n - |s.ktx|
  {
    hide Reachable, Inv;
    t := s;
    if Count(s.fq.published, Any) > 0 || s.krx != [] {
      t := OneEcho(c, s);
      ReachablePaced(c, t);
      SentBound(c, t);
      t := EchoesStarve(c, t);
    }
  }

  lemma SentBound(c: Cfg, s: Sys)
    requires Inv(c, s)
    ensures |s.ktx| <= c.n
  {
    assert Total(s, Any) == c.n;
    FramesCount(s.ktx);
  }

  /** Reception starves for good on some run exactly if FILL has no slots, or has
      all frames and one batch can take them all, or packets can be echoed: then
      the kernel may hold on to sent frames, which only a new packet would make
      the program collect. */
  lemma StarvedIff(c: Cfg)
    requires c.Valid()
    ensures (exists s: Sys :: Reachable(c, s) && Starved(s)) <==>
            || c.q == 0 || (c.q == c.n && c.q <= c.batch && c.q <= c.rxSize)
            || (c.echo && c.rxSize >= 1 && c.txSize >= 1)
  {
    hide Inv, Step, Reachable, Count;
    if c.q == 0 {
      InitReachable(c);
      NoneInFill(c);
    } else if c.echo && c.rxSize >= 1 && c.txSize >= 1 {
      InitReachable(c);
      var s := EchoesStarve(c, Init(c));
    } else if c.q == c.n && c.q <= c.batch && c.q <= c.rxSize {
      var s := DiesInOneBatch(c);
    } else {
      forall s: Sys | Reachable(c, s)
        ensures !Starved(s)
      {
        StaysAlive(c, s);
      }
    }
  }

  lemma NoneInFill(c: Cfg)
    requires c.Valid() && c.q == 0
    ensures Starved(Init(c))
  {
  }
}
