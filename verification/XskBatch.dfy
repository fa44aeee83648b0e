/** What a batch does to the free stack, on every run: how many packets a look at
    RX hands out, which addresses come back, and in which order. */
module XskBatch {
  import opened Rings
  import opened XskSystem
  import opened XskInvariant
  import opened XskReach
  import XskMarks

  function Addrs(q: seq<Desc>): (r: seq<Addr>)
    ensures |r| == |q|
    ensures forall i {:trigger r[i]} :: 0 <= i < |q| ==> r[i] == q[i].addr
  {
    seq(|q|, i requires 0 <= i < |q| => q[i].addr)
  }

  /** Setup in numbers: frame i starts at 4096 * i; the FILL ring gets the highest. */
  lemma InitByNumbers(c: Cfg, i: nat)
    requires c.Valid()
    ensures |Init(c).stack| == c.n - c.q && |Init(c).fq.published| == c.q
    ensures i < c.n - c.q ==> Init(c).stack[i] == 4096 * i
    ensures i < c.q ==> Init(c).fq.published[i] == 4096 * (c.n - 1 - i)
    ensures INVALID_UMEM_FRAME == 0xFFFF_FFFF_FFFF_FFFF
  {
  }

  /** A look at RX from rest hands out the oldest entries: all that are known, or
      all there are when none was known, but at most a batch. */
  lemma LookHandsOut(c: Cfg, s: Sys, t: Sys)
    requires Reachable(c, s) && s.pc.Idle? && s.RingsValid() && AppStep(c, s, t)
    ensures var known := if s.rx.seen == 0 then |s.rx.entries| else s.rx.seen;
            var r := if known > c.batch then c.batch else known;
            && t.rx.entries == s.rx.entries && t.rx.peeked == r <= |t.rx.entries|
            && t.pc == if r == 0 then Idle else NeedStock(r)
  {
    ReachablePaced(c, s);
  }

  /** So does a look at COMPLETION. */
  lemma CompletionHandsOut(c: Cfg, s: Sys, t: Sys)
    requires Reachable(c, s) && s.pc.NeedCqPeek? && s.RingsValid() && AppStep(c, s, t)
    ensures var known := if s.cq.seen == 0 then |s.cq.entries| else s.cq.seen;
            var k := if known > c.cqBatch then c.cqBatch else known;
            && t.cq.entries == s.cq.entries && t.cq.peeked == k <= |t.cq.entries|
            && t.pc == if k == 0 then Idle else Completing(k, 0)
  {
    ReachablePaced(c, s);
  }

  /** A packet that is not sent is given back by the address it came with. */
  lemma DropGivesBack(c: Cfg, s: Sys, t: Sys)
    requires Reachable(c, s) && s.pc.Processing? && s.pc.i < s.pc.rcvd && s.RingsValid() && AppStep(c, s, t)
    requires t.pc.Processing?
    ensures s.pc.i < |s.rx.entries| && t.stack == s.stack + [s.rx.entries[s.pc.i].addr]
    ensures t.pc == Processing(s.pc.rcvd, s.pc.i + 1) && t.rx == s.rx
  {
    ReachablePaced(c, s);
    RoomToFree(c, s);
  }

  // ---------------------------------------------------------------------------
  // A whole batch.

  /** From `a` to `b` the run deals with packets without sending any. */
  ghost predicate Dropping(run: seq<Sys>, a: nat, b: nat) {
    && a <= b < |run| && run[a].pc.Processing? && run[a].pc.i == 0
    && forall j {:trigger run[j]} :: a <= j <= b ==> run[j].pc.Processing? && run[j].pc.rcvd == run[a].pc.rcvd
  }

  lemma DropOrWait(c: Cfg, s: Sys, t: Sys)
    requires Reachable(c, s) && s.pc.Processing? && Step(c, s, t) && t.pc.Processing?
    ensures s.pc.i <= s.pc.rcvd <= |s.rx.entries| && s.rx.entries <= t.rx.entries
    ensures || (t.pc == s.pc && t.stack == s.stack)
            || (s.pc.i < s.pc.rcvd && t.pc == Processing(s.pc.rcvd, s.pc.i + 1)
                && t.stack == s.stack + [s.rx.entries[s.pc.i].addr])
  {
    hide Reachable;
    ReachablePaced(c, s);
    hide Inv;
    if KernelStep(s, t) {
      XskMarks.KernelKeepsPc(s, t);
      if Deliver(s, t) {
        var j: nat, d: Desc :| DeliverAs(s, t, j, d);
      } else if Complete(s, t) {
        var j: nat :| CompleteAs(s, t, j);
      }
    } else if s.pc.i < s.pc.rcvd {
      DropGivesBack(c, s, t);
    }
  }

  lemma {:induction false} BatchSoFar(c: Cfg, run: seq<Sys>, a: nat, b: nat)
    requires IsRun(c, run) && Dropping(run, a, b)
    ensures run[b].pc.i <= run[b].pc.rcvd <= |run[a].rx.entries| && run[a].rx.entries <= run[b].rx.entries
    ensures run[b].stack == run[a].stack + Addrs(run[a].rx.entries[..run[b].pc.i])
    decreases b
  {
    hide Step, Init, Reachable, Inv, Addrs;
    RunReachable(c, run, a);
    ReachablePaced(c, run[a]);
    if a == b {
      NoAddrs(run[a].rx.entries[..0], run[a].stack);
    } else {
      var s, t := run[b - 1], run[b];
      assert run[a].pc.Processing? && s.pc.Processing? && t.pc.Processing?;
      BatchSoFar(c, run, a, b - 1);
      RunReachable(c, run, b - 1);
      assert Step(c, run[b - 1], run[b]);
      DropOrWait(c, s, t);
      if t.pc != s.pc {
        AddrsPush(run[a].stack, run[a].rx.entries, s.pc.i);
      }
    }
  }

  lemma NoAddrs(q: seq<Desc>, stack: seq<Addr>)
    requires q == []
    ensures stack + Addrs(q) == stack
  {
  }

  lemma AddrsPush(stack: seq<Addr>, q: seq<Desc>, i: nat)
    requires i < |q|
    ensures stack + Addrs(q[..i]) + [q[i].addr] == stack + Addrs(q[..i + 1])
  {
    assert Addrs(q[..i + 1]) == Addrs(q[..i]) + [q[i].addr];
  }

  /** As shipped: when a batch is dealt with, the stack is the stack after the
      refill with the addresses of the batch on top, in the order of RX. */
  lemma BatchComesBack(c: Cfg, run: seq<Sys>, a: nat, b: nat)
    requires IsRun(c, run) && Dropping(run, a, b) && run[b].pc.i == run[b].pc.rcvd
    ensures var r := run[a].pc.rcvd;
            r <= |run[a].rx.entries| && run[b].stack == run[a].stack + Addrs(run[a].rx.entries[..r])
  {
    hide Step, Init, Addrs;
    BatchSoFar(c, run, a, b);
  }

  // ---------------------------------------------------------------------------
  // Completed frames.

  /** From `a` to `b` the run frees what a look at COMPLETION handed out. */
  ghost predicate Freeing(run: seq<Sys>, a: nat, b: nat) {
    && a <= b < |run| && run[a].pc.Completing? && run[a].pc.i == 0
    && forall j {:trigger run[j]} :: a <= j <= b ==> run[j].pc.Completing? && run[j].pc.done == run[a].pc.done
  }

  lemma FreeOrWait(c: Cfg, s: Sys, t: Sys)
    requires Reachable(c, s) && s.pc.Completing? && Step(c, s, t) && t.pc.Completing?
    ensures s.pc.i <= s.pc.done <= |s.cq.entries| && s.cq.entries <= t.cq.entries
    ensures || (t.pc == s.pc && t.stack == s.stack)
            || (s.pc.i < s.pc.done && t.pc == Completing(s.pc.done, s.pc.i + 1)
                && t.stack == s.stack + [s.cq.entries[s.pc.i]])
  {
    hide Reachable;
    ReachablePaced(c, s);
    if Frees(s) {
      RoomToFree(c, s);
    }
    hide Inv;
    if KernelStep(s, t) {
      XskMarks.KernelKeepsPc(s, t);
      if Deliver(s, t) {
        var j: nat, d: Desc :| DeliverAs(s, t, j, d);
      } else if Complete(s, t) {
        var j: nat :| CompleteAs(s, t, j);
      }
    }
  }

  lemma PushNext(stack: seq<Addr>, q: seq<Addr>, i: nat)
    requires i < |q|
    ensures stack + q[..i] + [q[i]] == stack + q[..i + 1]
  {
    assert q[..i] + [q[i]] == q[..i + 1];
  }

  /** The stack gets exactly the completed addresses, in the order of COMPLETION. */
  lemma {:induction false} CompletedComeBack(c: Cfg, run: seq<Sys>, a: nat, b: nat)
    requires IsRun(c, run) && Freeing(run, a, b)
    ensures run[b].pc.i <= run[b].pc.done <= |run[a].cq.entries| && run[a].cq.entries <= run[b].cq.entries
    ensures run[b].stack == run[a].stack + run[a].cq.entries[..run[b].pc.i]
    decreases b
  {
    hide Step, Init, Reachable, Inv;
    RunReachable(c, run, a);
    ReachablePaced(c, run[a]);
    if a < b {
      var s, t := run[b - 1], run[b];
      assert run[a].pc.Completing? && s.pc.Completing? && t.pc.Completing?;
      CompletedComeBack(c, run, a, b - 1);
      RunReachable(c, run, b - 1);
      assert Step(c, run[b - 1], run[b]);
      FreeOrWait(c, s, t);
      if t.pc != s.pc {
        PushNext(run[a].stack, run[a].cq.entries, s.pc.i);
      }
    }
  }
}
