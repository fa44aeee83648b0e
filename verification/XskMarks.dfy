/** Refills that run out of frames: what exactly every refill submits, and which
    configurations can put the invalid mark into FILL. */
module XskMarks {
  import opened Rings
  import opened XskSystem
  import opened XskInvariant
  import opened XskSupply
  import opened XskReach

  // ---------------------------------------------------------------------------
  // What a refill submits, on every run.

  /** Entries that are no frame. */
  ghost function Marks(q: seq<Addr>): nat {
    FramesCount(q);
    |q| - Count(q, Any)
  }

  /** The run sizes a refill at `a` and has submitted it at `b`. */
  ghost predicate IsRefill(run: seq<Sys>, a: nat, b: nat) {
    && a < b < |run| && run[a].pc.NeedStock? && run[b].pc.Processing?
    && forall j {:trigger run[j]} :: a < j < b ==> run[j].pc.NeedReserve? || run[j].pc.Filling?
  }

  /** A refill of `k` slots that found `stack` is under way. */
  ghost predicate Refilling(stack: seq<Addr>, k: nat, s: Sys) {
    || (s.pc.NeedReserve? && s.pc.stock == k && s.stack == stack)
    || (s.pc.Filling? && s.pc.stock == k == |s.fq.reserved| && s.pc.i <= k && s.stack == Left(stack, s.pc.i)
        && s.fq.reserved[..s.pc.i] == Popped(stack, s.pc.i))
  }

  /** Outside a reservation no slot is known to be free, so whenever there is a
      frame to refill with the index is read: no refill is sized by a stale count. */
  lemma StockIsExact(c: Cfg, s: Sys)
    requires Reachable(c, s) && s.pc.NeedStock?
    ensures s.fq.Valid() && Stock(s) == if s.stack == [] then 0 else c.q - |s.fq.published|
    ensures s.stack != [] ==> Lag(s) == 0
  {
    ReachablePaced(c, s);
  }

  lemma RefillBegins(c: Cfg, s: Sys, t: Sys)
    requires s.RingsValid() && PcShape(s) && s.pc.NeedStock? && Step(c, s, t) && !t.pc.NeedStock?
    ensures t.pc.NeedReserve? || t.pc.Processing?
    ensures t.pc.NeedReserve? ==> Refilling(s.stack, Stock(s), t)
    ensures t.pc.Processing? ==> Stock(s) == 0 && t.fq.published == s.fq.published
  {
    if KernelStep(s, t) {
      KernelKeepsPc(s, t);
    }
  }

  lemma KernelKeepsPc(s: Sys, t: Sys)
    requires KernelStep(s, t)
    ensures t.pc == s.pc && t.stack == s.stack && t.fq.reserved == s.fq.reserved
  {
    if Deliver(s, t) {
      var j: nat, d: Desc :| DeliverAs(s, t, j, d);
    } else if Complete(s, t) {
      var j: nat :| CompleteAs(s, t, j);
    }
  }

  lemma RefillGoesOn(c: Cfg, s: Sys, t: Sys, stack: seq<Addr>, k: nat)
    requires s.RingsValid() && PcShape(s) && Step(c, s, t) && Refilling(stack, k, s)
    ensures t.pc.NeedReserve? || t.pc.Filling? ==> Refilling(stack, k, t)
    ensures t.pc.Processing? ==> t.fq.published == s.fq.published + Popped(stack, k)
  {
    hide Popped, Left, Alloc, KernelStep;
    if KernelStep(s, t) {
      KernelKeepsPc(s, t);
    } else if s.pc.Filling? && s.pc.i < k {
      PopOne(stack, s.pc.i);
      assert t.fq.reserved[..s.pc.i + 1] == s.fq.reserved[..s.pc.i] + [Popped(stack, s.pc.i + 1)[s.pc.i]];
    } else if s.pc.NeedReserve? {
      NonePopped(stack);
    }
  }

  lemma NonePopped(stack: seq<Addr>)
    ensures Popped(stack, 0) == [] && Left(stack, 0) == stack
  {
  }

  lemma {:induction false} RefillAt(c: Cfg, run: seq<Sys>, a: nat, b: nat, j: nat)
    requires IsRun(c, run) && IsRefill(run, a, b) && a < j < b
    ensures run[a].fq.Valid() && Refilling(run[a].stack, Stock(run[a]), run[j])
  {
    hide Step, Init, Refilling, Stock, PcShape, Reachable, Inv;
    RunReachable(c, run, j - 1);
    ReachablePaced(c, run[j - 1]);
    assert Step(c, run[j - 1], run[j]);
    if j == a + 1 {
      RefillBegins(c, run[a], run[j]);
    } else {
      RefillAt(c, run, a, b, j - 1);
      RefillGoesOn(c, run[j - 1], run[j], run[a].stack, Stock(run[a]));
    }
  }

  /** For every configuration and every run, kernel steps in between or not: a
      refill submits the stack it found from its top, then one invalid mark for
      every slot beyond it; behind FILL entries that are all frames there is a
      mark exactly beyond the bound. */
  lemma RefillSubmits(c: Cfg, run: seq<Sys>, a: nat, b: nat)
    requires IsRun(c, run) && IsRefill(run, a, b)
    ensures var s := run[a];
            && s.fq.Valid()
            && run[b].fq.published == run[b - 1].fq.published + Popped(s.stack, Stock(s))
            && Marks(Popped(s.stack, Stock(s))) == (if Stock(s) > |s.stack| then Stock(s) - |s.stack| else 0)
            && (Frames(s.fq.published) ==>
                  (INVALID_UMEM_FRAME in Popped(s.stack, Stock(s)) <==> Elsewhere(s) + c.q > c.n + Lag(s)))
  {
    hide Step, Init, Refilling, Stock, Lag, PcShape, Reachable, Inv, OnlyFrames, Marks, Popped;
    var s := run[a];
    RunReachable(c, run, a);
    ReachablePaced(c, s);
    RunReachable(c, run, b - 1);
    ReachablePaced(c, run[b - 1]);
    assert Step(c, run[b - 1], run[b]);
    if b == a + 1 {
      RefillBegins(c, s, run[b]);
      NonePopped(s.stack);
    } else {
      RefillAt(c, run, a, b, b - 1);
      RefillGoesOn(c, run[b - 1], run[b], s.stack, Stock(s));
    }
    InvParts(c, s);
    PoppedMarks(s.stack, Stock(s));
    if Frames(s.fq.published) {
      RefillExactIff(c, s);
    }
  }

  lemma {:induction false} PoppedMarks(stack: seq<Addr>, k: nat)
    requires Frames(stack)
    ensures Marks(Popped(stack, k)) == if k > |stack| then k - |stack| else 0
    ensures INVALID_UMEM_FRAME in Popped(stack, k) <==> k > |stack|
  {
    if k > 0 {
      PoppedMarks(stack, k - 1);
      PopOne(stack, k - 1);
      CountPush(Popped(stack, k - 1), Popped(stack, k)[k - 1], Any);
      if k > |stack| {
        assert Popped(stack, k)[k - 1] == INVALID_UMEM_FRAME;
      }
    }
  }

  // ---------------------------------------------------------------------------
  // Where marks cannot come from.

  /** No mark is in FILL, and a running refill has the frames it still needs. */
  ghost predicate Clean(s: Sys) {
    && s.Filled() <= |s.fq.reserved|
    && Frames(s.fq.published) && Frames(s.fq.reserved[..s.Filled()])
    && (s.pc.NeedReserve? ==> s.pc.stock <= |s.stack|)
    && (s.pc.Filling? ==> s.pc.i <= s.pc.stock <= |s.stack| + s.pc.i)
  }

  lemma KernelClean(s: Sys, t: Sys)
    requires Clean(s) && KernelStep(s, t)
    ensures Clean(t)
  {
    KernelKeepsPc(s, t);
    if Deliver(s, t) {
      var j: nat, d: Desc :| DeliverAs(s, t, j, d);
    } else if Complete(s, t) {
      var j: nat :| CompleteAs(s, t, j);
    }
  }

  lemma SizedClean(c: Cfg, s: Sys, t: Sys)
    requires s.RingsValid() && PcShape(s) && Paced(c, s) && s.fq.size == c.q && s.rx.size == c.rxSize
    requires Clean(s) && AppStep(c, s, t) && (c.q <= 1 || c.rxSize == 0) && s.pc.NeedStock?
    ensures Clean(t)
  {
    assert t.fq.published == s.fq.published && t.stack == s.stack;
  }

  lemma ReservedClean(c: Cfg, s: Sys, t: Sys)
    requires s.RingsValid() && PcShape(s) && Clean(s) && AppStep(c, s, t) && s.pc.NeedReserve?
    ensures Clean(t)
  {
    assert t.fq.published == s.fq.published && t.stack == s.stack;
  }

  lemma FilledClean(c: Cfg, s: Sys, t: Sys)
    requires s.RingsValid() && PcShape(s) && Frames(s.stack) && Clean(s) && AppStep(c, s, t) && s.pc.Filling?
    ensures Clean(t)
  {
    if s.pc.i < s.pc.stock {
      assert t.fq.reserved[..s.pc.i + 1] == s.fq.reserved[..s.pc.i] + [Alloc(s.stack).1];
    }
  }

  lemma RefillClean(c: Cfg, s: Sys, t: Sys)
    requires s.RingsValid() && PcShape(s) && Paced(c, s) && s.fq.size == c.q && s.rx.size == c.rxSize
    requires Frames(s.stack) && Clean(s) && AppStep(c, s, t) && (c.q <= 1 || c.rxSize == 0)
    requires s.pc.NeedStock? || s.pc.NeedReserve? || s.pc.Filling?
    ensures Clean(t)
  {
    hide AppStep, Clean, PcShape, Paced, Frames;
    if s.pc.NeedStock? {
      SizedClean(c, s, t);
    } else if s.pc.NeedReserve? {
      ReservedClean(c, s, t);
    } else {
      FilledClean(c, s, t);
    }
  }

  lemma AppClean(c: Cfg, s: Sys, t: Sys)
    requires s.RingsValid() && PcShape(s) && Clean(s) && AppStep(c, s, t)
    requires !s.pc.NeedStock? && !s.pc.NeedReserve? && !s.pc.Filling?
    ensures Clean(t)
  {
  }

  lemma {:induction false} RunClean(c: Cfg, run: seq<Sys>)
    requires IsRun(c, run) && (c.q <= 1 || c.rxSize == 0)
    ensures Clean(Last(run))
  {
    hide Inv, AppStep, KernelStep, Paced, PcShape, Clean;
    if |run| == 1 {
      InitClean(c);
    } else {
      var before := run[..|run| - 1];
      RunBefore(c, run);
      RunClean(c, before);
      var s := Last(before);
      assert Reachable(c, s);
      ReachablePaced(c, s);
      InvParts(c, s);
      if KernelStep(s, Last(run)) {
        KernelClean(s, Last(run));
      } else if s.pc.NeedStock? || s.pc.NeedReserve? || s.pc.Filling? {
        RefillClean(c, s, Last(run));
      } else {
        AppClean(c, s, Last(run));
      }
    }
  }

  lemma InitClean(c: Cfg)
    requires c.Valid()
    ensures Clean(Init(c))
  {
  }

  // ---------------------------------------------------------------------------
  // Where they do.

  /** A refill is about to be sized beyond the bound, FILL holding frames only. */
  ghost predicate Beyond(c: Cfg, s: Sys) {
    && Reachable(c, s) && s.pc.NeedStock? && s.fq.Valid() && Frames(s.fq.published)
    && Elsewhere(s) + c.q > c.n + Lag(s)
  }

  ghost predicate Marked(c: Cfg, s: Sys) {
    Reachable(c, s) && INVALID_UMEM_FRAME in s.fq.published
  }

  /** At rest, nothing received and nothing on its way out; the kernel has a frame. */
  ghost predicate Ready(c: Cfg, s: Sys) {
    && Reachable(c, s) && s.pc.Idle? && Frames(s.fq.published) && s.fq.reserved == []
    && s.rx == ConsQ(c.rxSize, [], 0, 0) && s.cq.entries == [] && s.krx + s.fq.published != []
  }

  /** The kernel takes all of FILL and hands up one packet. */
  lemma OnePacket(c: Cfg, s: Sys) returns (t: Sys)
    requires Ready(c, s) && c.rxSize > 0
    ensures Reachable(c, t) && t.pc == NeedStock(1) && t.stack == s.stack && t.cq.entries == []
    ensures t.fq.published == [] && t.fq.reserved == [] && |t.rx.entries| == 1 && t.rx.size == c.rxSize
    ensures |t.krx| == |s.krx| + |s.fq.published| - 1
  {
    hide Reachable, Inv;
    ReachablePaced(c, s);
    RealCount(s.fq.published);
    t := TakeAll(c, s);
    t := DeliverOldest(c, t);
    t := PeekAll(c, t);
  }

  /** As long as the stack covers a whole refill, a round makes it smaller; then
      a refill runs out. */
  lemma {:induction false} RunsOut(c: Cfg, s: Sys) returns (x: Sys, y: Sys)
    requires Ready(c, s) && s.stack != [] && c.q >= 2 && c.rxSize >= 1
    ensures Beyond(c, x) && Marked(c, y)
    decreases |s.stack|
  {
    hide Reachable, Inv, Popped, Left, Lag, Stock;
    x := OnePacket(c, s);
    y := RefillWhole(c, x);
    ReachablePaced(c, x);
    InvParts(c, x);
    PoppedMarks(x.stack, c.q);
    if c.q <= |x.stack| {
      y := DropAll(c, y);
      y := FinishBatch(c, y);
      LeftSize(x.stack, c.q);
      x, y := RunsOut(c, y);
    } else {
      StockIsExact(c, x);
      RefillExactIff(c, x);
    }
  }

  lemma LeftSize(stack: seq<Addr>, k: nat)
    requires k <= |stack|
    ensures |Left(stack, k)| == |stack| - k
    ensures Frames(stack) ==> Frames(Popped(stack, k))
  {
  }

  lemma RunsOutFromStart(c: Cfg) returns (x: Sys, y: Sys)
    requires c.Valid() && c.q >= 2 && c.rxSize >= 1
    ensures Beyond(c, x) && Marked(c, y)
  {
    hide Reachable, Inv;
    InitReachable(c);
    InitClean(c);
    var s := Init(c);
    if c.n == c.q {
      s := OnePacket(c, s);
      s := SkipRefill(c, s);
      s := DropAll(c, s);
      s := FinishBatch(c, s);
    }
    x, y := RunsOut(c, s);
  }

  /** An invalid mark can reach FILL exactly if the FILL ring has two slots or
      more and anything can be received; then also a refill beyond the bound. */
  lemma MarkReachableIff(c: Cfg)
    requires c.Valid()
    ensures (exists s: Sys :: Marked(c, s)) <==> c.q >= 2 && c.rxSize >= 1
    ensures (exists s: Sys :: Beyond(c, s)) <==> c.q >= 2 && c.rxSize >= 1
  {
    hide Inv, Lag, Step, Init;
    if c.q >= 2 && c.rxSize >= 1 {
      var x, y := RunsOutFromStart(c);
    } else {
      forall s: Sys | Reachable(c, s)
        ensures !Marked(c, s) && !Beyond(c, s)
      {
        NeverMarked(c, s);
      }
    }
  }

  lemma NeverMarked(c: Cfg, s: Sys)
    requires Reachable(c, s) && (c.q <= 1 || c.rxSize == 0)
    ensures INVALID_UMEM_FRAME !in s.fq.published && !Beyond(c, s)
  {
    hide Inv, Step, Init;
    var run: seq<Sys> :| IsRun(c, run) && Last(run) == s;
    RunClean(c, run);
    ReachablePaced(c, s);
    if s.pc.NeedStock? {
      RefillExactIff(c, s);
      StockIsExact(c, s);
    }
  }
}
