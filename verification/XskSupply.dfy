/** Receive never starves: what refilling guarantees on runs where not too many
    frames are away from the stack and FILL. */
module XskSupply {
  import opened Rings
  import opened XskSystem
  import opened XskInvariant

  /** Frames on the kernel receive side, in RX, TX, on the kernel transmit side
      and in COMPLETION. */
  ghost function Elsewhere(s: Sys): nat {
    |s.krx| + |s.rx.entries| + |s.tx.published| + |s.ktx| + |s.cq.entries|
  }

  /** Buffers that reception can still use: in FILL, on the kernel receive side,
      or in RX and not yet dealt with. */
  ghost function Supply(s: Sys): int {
    |s.fq.published| + s.Filled() + |s.krx| + |s.rx.entries| - s.RxDone()
  }

  /** The bound is asked only where the size of a refill is computed. */
  ghost predicate Within(c: Cfg, s: Sys) {
    s.pc.NeedStock? ==> Elsewhere(s) + c.q <= c.n
  }

  /** FILL holds frames only, a running refill has the frames it still needs, and
      the supply covers the FILL ring plus the batch still in hand. */
  ghost predicate Supplied(c: Cfg, s: Sys)
    requires CountsFit(s)
  {
    && Frames(s.fq.published) && Frames(s.fq.reserved[..s.Filled()])
    && Supply(s) >= c.q
    && match s.pc
       case NeedReserve(r, k) => k <= |s.stack| && Supply(s) + k >= c.q + r
       case Filling(r, k, i) => k - i <= |s.stack| && Supply(s) + (k - i) >= c.q + r
       case Processing(r, i) => Supply(s) >= c.q + (r - i)
       case TxReserved(r, i) => Supply(s) >= c.q + (r - i)
       case TxWritten(r, i) => Supply(s) >= c.q + (r - i - 1)
       case TxSubmitted(r, i) => Supply(s) >= c.q + (r - i - 1)
       case _ => true
  }

  /** Without invalid marks in FILL, places outside FILL are what is left of n. */
  lemma StackSize(c: Cfg, s: Sys)
    requires Inv(c, s) && s.pc.NeedStock? && Frames(s.fq.published)
    ensures |s.stack| + |s.fq.published| + Elsewhere(s) == c.n
  {
    assert Total(s, Any) == c.n;
    FramesCount(s.stack);
    FramesCount(s.fq.published);
    FramesCount(s.krx);
    assert s.rx.entries[0..] == s.rx.entries && s.cq.entries[0..] == s.cq.entries;
    DescFramesCount(s.rx.entries);
    DescFramesCount(s.tx.published);
    FramesCount(s.ktx);
    FramesCount(s.cq.entries);
  }

  /** The slots a refill decides on: the free slots as far as the application
      looks, which may be fewer than there are. */
  ghost function Stock(s: Sys): nat
    requires s.fq.Valid()
  {
    s.fq.NbFree(|s.stack|).CachedFree()
  }

  /** How far the count it uses lags behind the kernel. */
  ghost function Lag(s: Sys): nat
    requires s.fq.Valid()
  {
    s.fq.NbFree(|s.stack|).stale
  }

  /** A refill is exact, no slot without a frame, exactly within the bound that
      the number of frames elsewhere sets; a lagging index only loosens it. */
  lemma RefillExactIff(c: Cfg, s: Sys)
    requires Inv(c, s) && s.pc.NeedStock? && Frames(s.fq.published)
    ensures Stock(s) <= |s.stack| <==> Elsewhere(s) + c.q <= c.n + Lag(s)
  {
    StackSize(c, s);
  }

  /** Within the bound a lagging index cannot hide a slot: the refill brings the
      FILL ring to all its slots. */
  lemma RefillFills(c: Cfg, s: Sys)
    requires Inv(c, s) && s.pc.NeedStock? && Frames(s.fq.published) && Within(c, s)
    ensures Stock(s) <= |s.stack| && |s.fq.published| + Stock(s) == c.q
  {
    StackSize(c, s);
  }

  lemma StockStep(c: Cfg, s: Sys, t: Sys)
    requires Inv(c, s) && CountsFit(t) && Supplied(c, s) && Within(c, s) && s.pc.NeedStock? && AppStep(c, s, t)
    ensures Supplied(c, t)
  {
    hide Inv;
    RefillFills(c, s);
    assert PcShape(s) && s.fq.Valid() by { InvParts(c, s); }
  }

  lemma FillStep(c: Cfg, s: Sys, t: Sys)
    requires Inv(c, s) && CountsFit(t) && Supplied(c, s) && AppStep(c, s, t)
    requires s.pc.NeedReserve? || s.pc.Filling?
    ensures Supplied(c, t)
  {
    hide Inv;
    InvParts(c, s);
    if s.pc.Filling? && s.pc.i < s.pc.stock {
      var i, a := s.pc.i, Alloc(s.stack).1;
      assert a != INVALID_UMEM_FRAME;
      assert t.fq.reserved[..i + 1] == s.fq.reserved[..i] + [a];
    }
  }

  lemma OtherStep(c: Cfg, s: Sys, t: Sys)
    requires Inv(c, s) && CountsFit(t) && Supplied(c, s) && AppStep(c, s, t)
    requires !s.pc.NeedStock? && !s.pc.NeedReserve? && !s.pc.Filling?
    requires Frees(s) ==> |s.stack| < c.n
    ensures Supplied(c, t)
  {
    hide Inv;
    InvParts(c, s);
  }

  lemma KernelSupplied(c: Cfg, s: Sys, t: Sys)
    requires Inv(c, s) && CountsFit(t) && Supplied(c, s) && KernelStep(s, t)
    ensures Supplied(c, t)
  {
    hide Inv;
    InvParts(c, s);
    if Deliver(s, t) {
      var j: nat, d: Desc :| DeliverAs(s, t, j, d);
    } else if Complete(s, t) {
      var j: nat :| CompleteAs(s, t, j);
    }
  }

  lemma StepSupplied(c: Cfg, s: Sys, t: Sys)
    requires Inv(c, s) && Inv(c, t) && Supplied(c, s) && Within(c, s) && Step(c, s, t)
    ensures Supplied(c, t)
  {
    hide Inv, Supplied, AppStep, KernelStep, Within;
    InvParts(c, s);
    InvParts(c, t);
    if KernelStep(s, t) {
      KernelSupplied(c, s, t);
    } else if s.pc.NeedStock? {
      StockStep(c, s, t);
    } else if s.pc.NeedReserve? || s.pc.Filling? {
      FillStep(c, s, t);
    } else {
      if Frees(s) {
        RoomToFree(c, s);
      }
      OtherStep(c, s, t);
    }
  }

  ghost predicate WithinRun(c: Cfg, run: seq<Sys>) {
    forall i {:trigger run[i]} :: 0 <= i < |run| ==> Within(c, run[i])
  }

  lemma {:induction false} RunSupplied(c: Cfg, run: seq<Sys>)
    requires IsRun(c, run) && WithinRun(c, run)
    ensures Inv(c, Last(run)) && Supplied(c, Last(run))
  {
    hide Inv, Supplied, AppStep, KernelStep, Within;
    RunInv(c, run);
    if |run| == 1 {
      InitSupplied(c);
    } else {
      var before := run[..|run| - 1];
      RunBefore(c, run);
      assert forall i {:trigger before[i]} :: 0 <= i < |before| ==> before[i] == run[i];
      RunSupplied(c, before);
      StepSupplied(c, Last(before), Last(run));
    }
  }

  lemma InitSupplied(c: Cfg)
    requires c.Valid()
    ensures CountsFit(Init(c)) && Supplied(c, Init(c))
  {
  }

  /** On every run within the bound, at every moment: as many buffers as the FILL
      ring has slots are in FILL, with the kernel's receive side or in RX, though
      refilling happens only with a batch in hand and from a cached index. */
  lemma ReceiveNeverStarves(c: Cfg, run: seq<Sys>, i: nat)
    requires IsRun(c, run) && WithinRun(c, run) && i < |run|
    ensures Supply(run[i]) >= c.q
  {
    PrefixSupplied(c, run, i);
  }

  /** On such a run no FILL entry is ever the invalid mark, neither published
      nor written and waiting. */
  lemma FillHoldsFramesOnly(c: Cfg, run: seq<Sys>, i: nat)
    requires IsRun(c, run) && WithinRun(c, run) && i < |run|
    ensures Frames(run[i].fq.published)
    ensures run[i].Filled() <= |run[i].fq.reserved| && Frames(run[i].fq.reserved[..run[i].Filled()])
  {
    PrefixSupplied(c, run, i);
  }

  lemma PrefixSupplied(c: Cfg, run: seq<Sys>, i: nat)
    requires IsRun(c, run) && WithinRun(c, run) && i < |run|
    ensures CountsFit(run[i]) && Supplied(c, run[i])
  {
    hide Supplied, IsRun, Within;
    var p := run[..i + 1];
    RunUpTo(c, run, i);
    assert forall j {:trigger p[j]} :: 0 <= j < |p| ==> p[j] == run[j];
    RunSupplied(c, p);
  }
}
