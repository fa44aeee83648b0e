/** The AF_XDP program and the kernel as one step system. Application steps
    follow the code; kernel steps may come between any two of them. */
module XskSystem {
  import opened Rings
  import Packet

  const FRAME_SIZE: nat := 4096
  const INVALID_UMEM_FRAME: nat := 0xFFFF_FFFF_FFFF_FFFF

  /** A UMEM address; a frame is known by its chunk, as the kernel may answer with
      an offset inside it. */
  type Addr = nat

  datatype Desc = Desc(addr: Addr, len: nat)

  function Chunk(a: Addr): nat { a / FRAME_SIZE }

  /** Frames, fill ring size, batch sizes, ring sizes, and whether the lesson's
      echo code, which the repository switches off, is on. */
  datatype Cfg = Cfg(n: nat, q: nat, batch: nat, rxSize: nat, txSize: nat, cqSize: nat, cqBatch: nat, echo: bool) {
    predicate Valid() {
      0 < batch && 0 < cqBatch && q <= n && n * FRAME_SIZE < INVALID_UMEM_FRAME
    }
  }

  /** Where the application stands. `rcvd` entries of RX are peeked; `i` counts
      the iterations of the loop that is running. */
  datatype Pc =
    | Idle
    | NeedStock(rcvd: nat)
    | NeedReserve(rcvd: nat, stock: nat)
    | Retry(rcvd: nat, stock: nat)
    | Filling(rcvd: nat, stock: nat, i: nat)
    | Processing(rcvd: nat, i: nat)
    | TxReserved(rcvd: nat, i: nat)
    | TxWritten(rcvd: nat, i: nat)
    | TxSubmitted(rcvd: nat, i: nat)
    | NeedComplete
    | NeedCqPeek
    | Completing(done: nat, i: nat)
    | Released(done: nat)
    | AssertFailed

  datatype Sys = Sys(
    stack: seq<Addr>, fq: ProdQ<Addr>, krx: seq<Addr>, rx: ConsQ<Desc>,
    tx: ProdQ<Desc>, ktx: seq<Addr>, cq: ConsQ<Addr>, outstanding: nat, pc: Pc)
  {
    predicate RingsValid() {
      fq.Valid() && rx.Valid() && tx.Valid() && cq.Valid()
    }

    /** How many reserved FILL slots are written. */
    function Filled(): nat { if pc.Filling? then pc.i else 0 }

    /** How many peeked RX entries have been dealt with, though not released. */
    function RxDone(): nat {
      if pc.Processing? || pc.TxReserved? then pc.i
      else if pc.TxWritten? || pc.TxSubmitted? then pc.i + 1 else 0
    }

    function TxWrote(): nat { if pc.TxWritten? then 1 else 0 }

    function CqDone(): nat { if pc.Completing? then pc.i else 0 }
  }

  function Remove<T>(s: seq<T>, j: nat): seq<T>
    requires j < |s|
  {
    s[..j] + s[j + 1..]
  }

  // ---------------------------------------------------------------------------
  // Steps.

  function InitialStack(k: nat): (s: seq<Addr>)
    ensures |s| == k
  {
    seq(k, i requires 0 <= i => i * FRAME_SIZE)
  }

  /** The `m` frames below `top`, highest first: what setup pops into FILL. */
  function Descending(top: nat, m: nat): (s: seq<Addr>)
    requires m <= top
    ensures |s| == m
  {
    seq(m, i requires 0 <= i < m => (top - 1 - i) * FRAME_SIZE)
  }

  /** After `xsk_configure_socket`: the top q frames of the stack fill the FILL ring. */
  function Init(c: Cfg): Sys
    requires c.Valid()
  {
    Sys(InitialStack(c.n - c.q),
        ProdQ(c.q, Descending(c.n, c.q), [], 0),
        [], ConsQ(c.rxSize, [], 0, 0),
        ProdQ(c.txSize, [], [], 0), [], ConsQ(c.cqSize, [], 0, 0), 0, Idle)
  }

  /** `xsk_alloc_umem_frame`: pops the stack, or answers INVALID_UMEM_FRAME. */
  function Alloc(stack: seq<Addr>): (seq<Addr>, Addr) {
    if stack == [] then (stack, INVALID_UMEM_FRAME) else (stack[..|stack| - 1], stack[|stack| - 1])
  }

  /** `xsk_free_umem_frame` with its assert, going on at `next`. */
  function FreeTo(c: Cfg, s: Sys, a: Addr, next: Pc): Sys {
    if |s.stack| < c.n then s.(stack := s.stack + [a], pc := next) else s.(pc := AssertFailed)
  }

  /** One step of the application. */
  ghost predicate AppStep(c: Cfg, s: Sys, t: Sys)
    requires s.RingsValid()
  {
    match s.pc
    case Idle =>
      t == s.(rx := s.rx.Peek(c.batch),
              pc := if s.rx.Avail(c.batch) == 0 then Idle else NeedStock(s.rx.Avail(c.batch)))
    case NeedStock(r) =>
      var fq := s.fq.NbFree(|s.stack|);
      t == s.(fq := fq, pc := if fq.CachedFree() > 0 then NeedReserve(r, fq.CachedFree()) else Processing(r, 0))
    case NeedReserve(r, k) =>
      && s.fq.Reserves(k, t.fq)
      && t == s.(fq := t.fq, pc := if s.fq.CanReserve(k) then Filling(r, k, 0) else Retry(r, k))
    case Retry(r, k) =>
      && s.fq.Reserves(r, t.fq)
      && t == s.(fq := t.fq, pc := if s.fq.CanReserve(r) && r == k then Filling(r, k, 0) else Retry(r, k))
    case Filling(r, k, i) =>
      if i < k then
        && i < |s.fq.reserved|
        && t == s.(stack := Alloc(s.stack).0, fq := s.fq.(reserved := s.fq.reserved[i := Alloc(s.stack).1]),
                   pc := Filling(r, k, i + 1))
      else
        k <= |s.fq.reserved| && t == s.(fq := s.fq.Submit(k), pc := Processing(r, 0))
    case Processing(r, i) =>
      if i < r then
        i < |s.rx.entries| && (DropStep(c, s, t) || (c.echo && EchoStep(c, s, t)))
      else
        r <= s.rx.peeked && t == s.(rx := s.rx.Release(r), pc := NeedComplete)
    case TxReserved(r, i) =>
      && i < |s.rx.entries| && 0 < |s.tx.reserved|
      && t == s.(tx := s.tx.(reserved := s.tx.reserved[0 := s.rx.entries[i]]), pc := TxWritten(r, i))
    case TxWritten(r, i) =>
      0 < |s.tx.reserved| && t == s.(tx := s.tx.Submit(1), pc := TxSubmitted(r, i))
    case TxSubmitted(r, i) =>
      t == s.(outstanding := s.outstanding + 1, pc := Processing(r, i + 1))
    case NeedComplete =>
      t == s.(pc := if s.outstanding == 0 then Idle else NeedCqPeek)
    case NeedCqPeek =>
      t == s.(cq := s.cq.Peek(c.cqBatch),
              pc := if s.cq.Avail(c.cqBatch) == 0 then Idle else Completing(s.cq.Avail(c.cqBatch), 0))
    case Completing(k, i) =>
      if i < k then
        i < |s.cq.entries| && t == FreeTo(c, s, s.cq.entries[i], Completing(k, i + 1))
      else
        k <= s.cq.peeked && t == s.(cq := s.cq.Release(k), pc := Released(k))
    case Released(k) =>
      t == s.(outstanding := s.outstanding - (if k < s.outstanding then k else s.outstanding), pc := Idle)
    case AssertFailed => false
  }

  /** `process_packet` answers false: the frame goes back to the stack. */
  ghost predicate DropStep(c: Cfg, s: Sys, t: Sys)
    requires s.pc.Processing? && s.pc.i < |s.rx.entries|
  {
    t == FreeTo(c, s, s.rx.entries[s.pc.i].addr, Processing(s.pc.rcvd, s.pc.i + 1))
  }

  /** `process_packet` asks for a TX slot: it gets one, or drops the packet. */
  ghost predicate EchoStep(c: Cfg, s: Sys, t: Sys)
    requires s.RingsValid() && s.pc.Processing? && s.pc.i < |s.rx.entries|
  {
    && s.tx.Reserves(1, t.tx)
    && if s.tx.CanReserve(1) then t == s.(tx := t.tx, pc := TxReserved(s.pc.rcvd, s.pc.i))
       else DropStep(c, s.(tx := t.tx), t)
  }

  /** The kernel takes a FILL entry; it discards one that is no frame. */
  ghost predicate TakeFill(s: Sys, t: Sys) {
    && s.fq.published != []
    && var a := s.fq.published[0];
       t == s.(fq := s.fq.Taken(), krx := if a == INVALID_UMEM_FRAME then s.krx else s.krx + [a])
  }

  /** The kernel hands a received packet up, in any order, at any offset of its
      frame, never shorter than an Ethernet header. */
  ghost predicate Deliver(s: Sys, t: Sys) {
    && |s.rx.entries| < s.rx.size
    && exists j: nat, d: Desc :: DeliverAs(s, t, j, d)
  }

  ghost predicate DeliverAs(s: Sys, t: Sys, j: nat, d: Desc) {
    && j < |s.krx|
    && Chunk(d.addr) == Chunk(s.krx[j]) && d.addr != INVALID_UMEM_FRAME
    && Packet.ETH_HLEN <= d.len && d.addr % FRAME_SIZE + d.len <= FRAME_SIZE
    && t == s.(krx := Remove(s.krx, j), rx := s.rx.Put(d))
  }

  ghost predicate TakeTx(s: Sys, t: Sys) {
    && s.tx.published != []
    && t == s.(tx := s.tx.Taken(), ktx := s.ktx + [s.tx.published[0].addr])
  }

  /** The kernel reports any frame it has sent. */
  ghost predicate Complete(s: Sys, t: Sys) {
    && |s.cq.entries| < s.cq.size
    && exists j: nat :: CompleteAs(s, t, j)
  }

  ghost predicate CompleteAs(s: Sys, t: Sys, j: nat) {
    j < |s.ktx| && t == s.(ktx := Remove(s.ktx, j), cq := s.cq.Put(s.ktx[j]))
  }

  ghost predicate KernelStep(s: Sys, t: Sys) {
    TakeFill(s, t) || Deliver(s, t) || TakeTx(s, t) || Complete(s, t)
  }

  ghost predicate Step(c: Cfg, s: Sys, t: Sys) {
    s.RingsValid() && (AppStep(c, s, t) || KernelStep(s, t))
  }

  /** Any interleaving, from the state after setup. */
  ghost predicate IsRun(c: Cfg, run: seq<Sys>) {
    && c.Valid() && run != [] && run[0] == Init(c)
    && forall i {:trigger run[i]} :: 0 < i < |run| ==> Step(c, run[i - 1], run[i])
  }

  ghost function Last(run: seq<Sys>): Sys
    requires run != []
  {
    run[|run| - 1]
  }
}
