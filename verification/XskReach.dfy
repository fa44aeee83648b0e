/** What paces the application in every reachable state, and reachable states
    built step by step: the kernel empties FILL, a packet comes in, a refill runs. */
module XskReach {
  import opened Rings
  import opened XskSystem
  import opened XskInvariant
  import Packet

  // ---------------------------------------------------------------------------
  // Batches are never empty, and a refill leaves no slot it knows to be free.

  /** A batch is in hand. */
  predicate InBatch(pc: Pc) {
    pc.NeedStock? || pc.NeedReserve? || pc.Filling? || pc.Processing? ||
    pc.TxReserved? || pc.TxWritten? || pc.TxSubmitted?
  }

  ghost predicate Paced(c: Cfg, s: Sys)
    requires s.RingsValid()
  {
    && (InBatch(s.pc) ==> 1 <= s.pc.rcvd <= c.batch)
    && (!s.pc.NeedReserve? ==> s.fq.CachedFree() == 0)
  }

  lemma KernelPaced(c: Cfg, s: Sys, t: Sys)
    requires s.RingsValid() && t.RingsValid() && Paced(c, s) && KernelStep(s, t)
    ensures Paced(c, t)
  {
    if Deliver(s, t) {
      var j: nat, d: Desc :| DeliverAs(s, t, j, d);
    } else if Complete(s, t) {
      var j: nat :| CompleteAs(s, t, j);
    }
  }

  lemma AppPaced(c: Cfg, s: Sys, t: Sys)
    requires s.RingsValid() && PcShape(s) && t.RingsValid() && Paced(c, s) && AppStep(c, s, t)
    ensures Paced(c, t)
  {
  }

  lemma {:induction false} RunPaced(c: Cfg, run: seq<Sys>)
    requires IsRun(c, run)
    ensures Last(run).RingsValid() && Paced(c, Last(run))
  {
    hide Inv, AppStep, KernelStep, Paced;
    RunInv(c, run);
    InvParts(c, Last(run));
    if |run| == 1 {
      InitPaced(c);
    } else {
      var before := run[..|run| - 1];
      RunBefore(c, run);
      RunPaced(c, before);
      RunInv(c, before);
      InvParts(c, Last(before));
      if AppStep(c, Last(before), Last(run)) {
        AppPaced(c, Last(before), Last(run));
      } else {
        KernelPaced(c, Last(before), Last(run));
      }
    }
  }

  lemma InitPaced(c: Cfg)
    requires c.Valid()
    ensures Init(c).RingsValid() && Paced(c, Init(c))
  {
  }

  lemma ReachablePaced(c: Cfg, s: Sys)
    requires Reachable(c, s)
    ensures c.Valid() && Inv(c, s) && s.RingsValid() && PcShape(s) && Paced(c, s)
    ensures s.fq.size == c.q && s.rx.size == c.rxSize && s.tx.size == c.txSize && s.cq.size == c.cqSize
  {
    hide Inv, Paced, PcShape;
    var run: seq<Sys> :| IsRun(c, run) && Last(run) == s;
    RunInv(c, run);
    RunPaced(c, run);
    InvParts(c, s);
  }

  lemma RunReachable(c: Cfg, run: seq<Sys>, i: nat)
    requires IsRun(c, run) && i < |run|
    ensures Reachable(c, run[i])
  {
    hide IsRun;
    RunUpTo(c, run, i);
  }

  // ---------------------------------------------------------------------------
  // Reachable states, one step at a time.

  lemma Reach(c: Cfg, s: Sys, t: Sys)
    requires Reachable(c, s) && Step(c, s, t)
    ensures Reachable(c, t)
  {
    hide Step;
    var run: seq<Sys> :| IsRun(c, run) && Last(run) == s;
    var more := run + [t];
    forall i {:trigger more[i]} | 0 < i < |more|
      ensures Step(c, more[i - 1], more[i])
    {
      assert i < |run| ==> more[i] == run[i];
      assert more[i - 1] == run[i - 1];
    }
    assert IsRun(c, more) && Last(more) == t;
  }

  lemma InitReachable(c: Cfg)
    requires c.Valid()
    ensures Reachable(c, Init(c))
  {
    hide Init;
    var run := [Init(c)];
    assert IsRun(c, run) && Last(run) == Init(c);
  }

  /** The entries that are frames. */
  function Real(q: seq<Addr>): seq<Addr> {
    if q == [] then [] else (if q[0] == INVALID_UMEM_FRAME then [] else [q[0]]) + Real(q[1..])
  }

  lemma {:induction false} RealCount(q: seq<Addr>)
    ensures |Real(q)| == Count(q, Any)
    ensures Frames(q) ==> Real(q) == q
  {
    if q != [] {
      RealCount(q[1..]);
      if Frames(q) {
        assert forall i :: 0 <= i < |q[1..]| ==> q[1..][i] == q[i + 1];
        assert q == [q[0]] + q[1..];
      }
    }
  }

  lemma RealOne(q: seq<Addr>, a: Addr)
    ensures q + Real([a]) == if a == INVALID_UMEM_FRAME then q else q + [a]
  {
    assert [a][1..] == [];
  }

  lemma TakeHead(c: Cfg, s: Sys) returns (t: Sys)
    requires Reachable(c, s) && s.fq.published != []
    ensures Reachable(c, t)
    ensures t == s.(fq := s.fq.Taken(), krx := s.krx + Real([s.fq.published[0]]))
  {
    hide Reachable, Inv;
    ReachablePaced(c, s);
    t := s.(fq := s.fq.Taken(), krx := s.krx + Real([s.fq.published[0]]));
    RealOne(s.krx, s.fq.published[0]);
    assert TakeFill(s, t);
    Reach(c, s, t);
  }

  /** The kernel takes everything in FILL and keeps the frames. */
  lemma {:induction false} TakeAll(c: Cfg, s: Sys) returns (t: Sys)
    requires Reachable(c, s)
    ensures Reachable(c, t)
    ensures t == s.(fq := ProdQ(s.fq.size, [], s.fq.reserved, s.fq.stale + |s.fq.published|),
                    krx := s.krx + Real(s.fq.published))
    decreases |s.fq.published|
  {
    hide Reachable;
    t := s;
    if s.fq.published == [] {
      assert s.krx + Real(s.fq.published) == s.krx;
    } else {
      t := TakeHead(c, s);
      t := TakeAll(c, t);
      assert Real(s.fq.published) == Real([s.fq.published[0]]) + Real(s.fq.published[1..]);
      assert s.krx + Real([s.fq.published[0]]) + Real(s.fq.published[1..]) == s.krx + Real(s.fq.published);
    }
  }

  /** The kernel hands up the frame it has held longest. */
  function Handed(a: Addr): Desc {
    Desc(Chunk(a) * FRAME_SIZE, Packet.ETH_HLEN)
  }

  lemma HandedFits(a: Addr)
    ensures Chunk(Handed(a).addr) == Chunk(a) && Fits(Handed(a))
  {
    var q := Chunk(a);
    assert Handed(a).addr == FRAME_SIZE * q + 0;
    assert INVALID_UMEM_FRAME % FRAME_SIZE == FRAME_SIZE - 1;
  }

  lemma DeliverOldest(c: Cfg, s: Sys) returns (t: Sys)
    requires Reachable(c, s) && s.krx != [] && |s.rx.entries| < c.rxSize
    ensures Reachable(c, t)
    ensures t == s.(krx := s.krx[1..], rx := s.rx.Put(Handed(s.krx[0])))
  {
    hide Reachable, Inv, Chunk, Handed;
    ReachablePaced(c, s);
    HandedFits(s.krx[0]);
    var d := Handed(s.krx[0]);
    t := s.(krx := s.krx[1..], rx := s.rx.Put(d));
    assert Remove(s.krx, 0) == s.krx[1..];
    assert DeliverAs(s, t, 0, d);
    assert Deliver(s, t);
    Reach(c, s, t);
  }

  /** The application looks at RX. */
  lemma PeekAll(c: Cfg, s: Sys) returns (t: Sys)
    requires Reachable(c, s) && s.pc.Idle? && s.rx.seen == s.rx.peeked == 0 && 1 <= |s.rx.entries| <= c.batch
    ensures Reachable(c, t)
    ensures var r := |s.rx.entries|;
            t == s.(rx := ConsQ(s.rx.size, s.rx.entries, r, r), pc := NeedStock(r))
  {
    ReachablePaced(c, s);
    var r := |s.rx.entries|;
    t := s.(rx := ConsQ(s.rx.size, s.rx.entries, r, r), pc := NeedStock(r));
    assert AppStep(c, s, t);
    Reach(c, s, t);
  }

  /** With an empty stack nothing is refilled, however much the kernel has taken. */
  lemma SkipRefill(c: Cfg, s: Sys) returns (t: Sys)
    requires Reachable(c, s) && s.pc.NeedStock? && s.stack == []
    ensures Reachable(c, t) && t == s.(pc := Processing(s.pc.rcvd, 0))
  {
    ReachablePaced(c, s);
    t := s.(pc := Processing(s.pc.rcvd, 0));
    assert AppStep(c, s, t);
    Reach(c, s, t);
  }

  /** What a refill of `k` slots puts into them: the stack from its top, and the
      invalid mark once it is empty. */
  function Popped(stack: seq<Addr>, k: nat): (block: seq<Addr>)
    ensures |block| == k
    ensures forall j {:trigger block[j]} :: 0 <= j < k ==>
              block[j] == if j < |stack| then stack[|stack| - 1 - j] else INVALID_UMEM_FRAME
  {
    seq(k, j requires 0 <= j < k => if j < |stack| then stack[|stack| - 1 - j] else INVALID_UMEM_FRAME)
  }

  /** The stack after `i` pops. */
  function Left(stack: seq<Addr>, i: nat): seq<Addr> {
    if i < |stack| then stack[..|stack| - i] else []
  }

  lemma PopOne(stack: seq<Addr>, i: nat)
    ensures Alloc(Left(stack, i)) == (Left(stack, i + 1), Popped(stack, i + 1)[i])
    ensures Popped(stack, i + 1) == Popped(stack, i) + [Popped(stack, i + 1)[i]]
  {
    var left := Left(stack, i);
    if i < |stack| {
      assert left[..|left| - 1] == Left(stack, i + 1);
    }
  }

  /** A refill over an empty FILL ring, the stack not empty: it fills every slot. */
  lemma RefillWhole(c: Cfg, s: Sys) returns (t: Sys)
    requires Reachable(c, s) && s.pc.NeedStock? && s.stack != [] && s.fq.published == [] && c.q > 0
    ensures Reachable(c, t)
    ensures t == s.(stack := Left(s.stack, c.q), fq := ProdQ(c.q, Popped(s.stack, c.q), [], 0),
                    pc := Processing(s.pc.rcvd, 0))
  {
    hide Reachable, Inv;
    ReachablePaced(c, s);
    var r := s.pc.rcvd;
    var u := s.(fq := ProdQ(c.q, [], [], 0), pc := NeedReserve(r, c.q));
    assert AppStep(c, s, u);
    Reach(c, s, u);
    var blank: seq<Addr> := seq(c.q, _ => 0);
    var v := s.(fq := ProdQ(c.q, [], blank, 0), pc := Filling(r, c.q, 0));
    assert AppStep(c, u, v);
    Reach(c, u, v);
    var w := FillAll(c, v, s.stack, 0);
    t := w.(fq := w.fq.Submit(c.q), pc := Processing(r, 0));
    assert w.fq.reserved[c.q..] == [] && [] + w.fq.reserved[..c.q] == w.fq.reserved == Popped(s.stack, c.q);
    ReachablePaced(c, w);
    assert AppStep(c, w, t);
    Reach(c, w, t);
  }

  lemma {:induction false} FillAll(c: Cfg, s: Sys, stack: seq<Addr>, i: nat) returns (t: Sys)
    requires Reachable(c, s) && s.pc.Filling? && s.pc.i == i <= s.pc.stock == |s.fq.reserved|
    requires s.stack == Left(stack, i) && s.fq.reserved[..i] == Popped(stack, i)
    ensures Reachable(c, t)
    ensures var k := s.pc.stock;
            t == s.(stack := Left(stack, k), fq := s.fq.(reserved := Popped(stack, k)), pc := Filling(s.pc.rcvd, k, k))
    decreases s.pc.stock - i
  {
    hide Reachable, Inv, Popped, Left;
    var k := s.pc.stock;
    if i < k {
      ReachablePaced(c, s);
      PopOne(stack, i);
      var a := Popped(stack, i + 1)[i];
      var u := s.(stack := Left(stack, i + 1), fq := s.fq.(reserved := s.fq.reserved[i := a]),
                  pc := Filling(s.pc.rcvd, k, i + 1));
      assert AppStep(c, s, u);
      Reach(c, s, u);
      assert u.fq.reserved[..i + 1] == s.fq.reserved[..i] + [a];
      t := FillAll(c, u, stack, i + 1);
    } else {
      t := s;
      assert s.fq.reserved[..k] == s.fq.reserved;
    }
  }

  /** The application drops packet after packet of the batch it has in hand. */
  lemma {:induction false} DropAll(c: Cfg, s: Sys) returns (t: Sys)
    requires Reachable(c, s) && s.pc.Processing? && s.pc.i <= s.pc.rcvd
    ensures Reachable(c, t) && t == s.(stack := t.stack, pc := Processing(s.pc.rcvd, s.pc.rcvd))
    ensures |t.stack| == |s.stack| + s.pc.rcvd - s.pc.i && s.stack <= t.stack
    decreases s.pc.rcvd - s.pc.i
  {
    hide Reachable, Inv;
    t := s;
    if s.pc.i < s.pc.rcvd {
      ReachablePaced(c, s);
      RoomToFree(c, s);
      var u := s.(stack := s.stack + [s.rx.entries[s.pc.i].addr], pc := Processing(s.pc.rcvd, s.pc.i + 1));
      assert DropStep(c, s, u);
      Reach(c, s, u);
      t := DropAll(c, u);
    }
  }

  /** The application sends the one packet of its batch back, TX being empty. */
  lemma EchoOne(c: Cfg, s: Sys) returns (t: Sys)
    requires Reachable(c, s) && c.echo && c.txSize >= 1 && s.pc == Processing(1, 0) && |s.rx.entries| == 1
    requires s.tx.published == []
    ensures Reachable(c, t)
    ensures t == s.(tx := ProdQ(c.txSize, s.rx.entries, [], t.tx.stale), outstanding := s.outstanding + 1,
                    pc := Processing(1, 1))
  {
    hide Reachable, Inv;
    ReachablePaced(c, s);
    var d := s.rx.entries[0];
    var stale := s.tx.NbFree(1).stale;
    var u := s.(tx := ProdQ(c.txSize, [], [d], stale), pc := TxReserved(1, 0));
    assert EchoStep(c, s, u);
    Reach(c, s, u);
    ReachablePaced(c, u);
    assert [d][0 := d] == [d];
    var v := u.(pc := TxWritten(1, 0));
    assert AppStep(c, u, v);
    Reach(c, u, v);
    ReachablePaced(c, v);
    assert [] + [d][..1] == s.rx.entries && [d][1..] == [];
    var w := v.(tx := ProdQ(c.txSize, s.rx.entries, [], stale), pc := TxSubmitted(1, 0));
    assert AppStep(c, v, w);
    Reach(c, v, w);
    ReachablePaced(c, w);
    t := w.(outstanding := s.outstanding + 1, pc := Processing(1, 1));
    assert AppStep(c, w, t);
    Reach(c, w, t);
  }

  /** The kernel takes the descriptor in TX. */
  lemma TakeSent(c: Cfg, s: Sys) returns (t: Sys)
    requires Reachable(c, s) && |s.tx.published| == 1
    ensures Reachable(c, t) && |t.ktx| == |s.ktx| + 1
    ensures t == s.(tx := s.tx.(published := [], stale := t.tx.stale), ktx := t.ktx)
  {
    ReachablePaced(c, s);
    t := s.(tx := s.tx.Taken(), ktx := s.ktx + [s.tx.published[0].addr]);
    assert s.tx.published[1..] == [];
    assert TakeTx(s, t);
    Reach(c, s, t);
  }

  /** Back to rest when nothing has been completed. */
  lemma FinishBatch(c: Cfg, s: Sys) returns (t: Sys)
    requires Reachable(c, s) && s.pc == Processing(|s.rx.entries|, |s.rx.entries|) && s.cq.entries == []
    ensures Reachable(c, t) && t == s.(rx := ConsQ(s.rx.size, [], 0, 0), pc := Idle)
  {
    hide Reachable, Inv;
    ReachablePaced(c, s);
    var r := s.pc.rcvd;
    assert s.rx.entries[r..] == [];
    var u := s.(rx := s.rx.Release(r), pc := NeedComplete);
    assert AppStep(c, s, u);
    Reach(c, s, u);
    ReachablePaced(c, u);
    if u.outstanding > 0 {
      var v := u.(pc := NeedCqPeek);
      assert AppStep(c, u, v);
      Reach(c, u, v);
      u := v;
      ReachablePaced(c, u);
    }
    t := u.(pc := Idle);
    assert AppStep(c, u, t);
    Reach(c, u, t);
  }
}
