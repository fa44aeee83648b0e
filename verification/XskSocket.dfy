/** The socket as the program updates it in place, kernel steps interleaved, and
    the proof that everything it does is a run of the step system. */
module XskSocket {
  import opened Rings
  import opened XskSystem
  import opened XskInvariant
  import opened XskMemory
  import XskAlive
  import XskMarks
  import XskSupply
  import Words
  import XskEcho

  /** The configuration of the repository: 4096 frames, batches of 64, and rings
      of libxdp's default size. */
  const CODE: Cfg := Cfg(4096, 2048, 64, 2048, 2048, 2048, 2048, false)

  /** It meets what the constructor asks, echo code on or off. */
  lemma CodeIsValid(echo: bool)
    ensures CODE.(echo := echo).Valid() && IsRingSize(CODE.q)
    ensures CODE == Cfg(4096, 2048, 64, 2048, 2048, 2048, 2048, false) && FRAME_SIZE == 4096
  {
    assert Product(2048, 0x20_0000) == W;
  }

  /** With them, any number of runs can exhaust the stack under a refill. */
  lemma CodeRunsOut(echo: bool)
    ensures exists s: Sys :: XskMarks.Beyond(CODE.(echo := echo), s)
    ensures exists s: Sys :: XskMarks.Marked(CODE.(echo := echo), s)
  {
    CodeIsValid(echo);
    XskMarks.MarkReachableIff(CODE.(echo := echo));
  }

  /** As shipped reception cannot starve; with the echo code on it can. */
  lemma CodeStarvesIff(echo: bool)
    ensures (exists s: Sys :: Reachable(CODE.(echo := echo), s) && XskAlive.Starved(s)) <==> echo
  {
    CodeIsValid(echo);
    XskAlive.StarvedIff(CODE.(echo := echo));
  }

  /** `struct stats_record` without its timestamp; the counters wrap. */
  datatype StatsRecord = StatsRecord(rxPackets: Words.u64, rxBytes: Words.u64, txPackets: Words.u64, txBytes: Words.u64)

  function TotalLen(q: seq<Desc>): nat {
    if q == [] then 0 else TotalLen(q[..|q| - 1]) + q[|q| - 1].len
  }

  function CountedTx(st: StatsRecord, len: nat): StatsRecord {
    st.(txPackets := (st.txPackets + 1) % Words.U64, txBytes := (st.txBytes + len) % Words.U64)
  }

  function CountedRx(st: StatsRecord, len: nat): StatsRecord {
    st.(rxBytes := (st.rxBytes + len) % Words.U64)
  }

  function CountedPackets(st: StatsRecord, n: nat): StatsRecord {
    st.(rxPackets := (st.rxPackets + n) % Words.U64)
  }

  /** The counters after a packet of which `replies` was sent, none or it. */
  function CountedOne(st: StatsRecord, len: nat, replies: nat): StatsRecord {
    CountedRx(if replies == 0 then st else CountedTx(st, len), len)
  }

  /** The counters after `packets` are counted and `batch` and `replies` added up. */
  function Counted(st: StatsRecord, packets: nat, batch: seq<Desc>, replies: seq<Desc>): StatsRecord {
    StatsRecord((st.rxPackets + packets) % Words.U64, (st.rxBytes + TotalLen(batch)) % Words.U64,
                (st.txPackets + |replies|) % Words.U64, (st.txBytes + TotalLen(replies)) % Words.U64)
  }

  /** What the lengths of packets add up to. */
  lemma {:induction false} LenParts(a: seq<Desc>, d: Desc, b: seq<Desc>)
    ensures TotalLen([]) == 0 && TotalLen([d]) == d.len && TotalLen(a + b) == TotalLen(a) + TotalLen(b)
    decreases |b|
  {
    assert [d][..0] == [];
    if b == [] {
      assert a + b == a;
    } else {
      var n := |b| - 1;
      LenParts(a, d, b[..n]);
      assert (a + b)[..|a + b| - 1] == a + b[..n];
    }
  }

  /** The counters field by field, as 64-bit fields add. */
  lemma CountedFields(st: StatsRecord, batch: seq<Desc>, replies: seq<Desc>)
    ensures var t := if batch == [] then st else Counted(st, |batch|, batch, replies);
            replies == [] || batch != [] ==>
              && t.rxPackets == (st.rxPackets + |batch|) % 0x1_0000_0000_0000_0000
              && t.rxBytes == (st.rxBytes + TotalLen(batch)) % 0x1_0000_0000_0000_0000
              && t.txPackets == (st.txPackets + |replies|) % 0x1_0000_0000_0000_0000
              && t.txBytes == (st.txBytes + TotalLen(replies)) % 0x1_0000_0000_0000_0000
  {
    if batch == [] {
      CountNothing(st);
    }
  }

  lemma CountNothing(st: StatsRecord)
    ensures Counted(st, 0, [], []) == st
  {
    Small(st.rxPackets);
    Small(st.rxBytes);
    Small(st.txPackets);
    Small(st.txBytes);
  }

  lemma Small(x: Words.u64)
    ensures x % Words.U64 == x
  {
  }

  /** Counting packet by packet adds up. */
  lemma CountOneMore(st: StatsRecord, batch: seq<Desc>, i: nat, replies: seq<Desc>, out: seq<Desc>)
    requires i < |batch| && (out == [] || out == [batch[i]])
    ensures CountedOne(Counted(st, 0, batch[..i], replies), batch[i].len, |out|)
            == Counted(st, 0, batch[..i + 1], replies + out)
  {
    LenPush(batch[..i], batch[i]);
    assert batch[..i + 1] == batch[..i] + [batch[i]];
    Words.AddWraps(st.rxBytes + TotalLen(batch[..i]), batch[i].len);
    RepliesCounted(st, replies, out, batch[i]);
  }

  lemma RepliesCounted(st: StatsRecord, replies: seq<Desc>, out: seq<Desc>, d: Desc)
    requires out == [] || out == [d]
    ensures var (p, l) := ((st.txPackets + |replies|) % Words.U64, (st.txBytes + TotalLen(replies)) % Words.U64);
            && (st.txPackets + |replies + out|) % Words.U64 == (if out == [] then p else (p + 1) % Words.U64)
            && (st.txBytes + TotalLen(replies + out)) % Words.U64 == (if out == [] then l else (l + d.len) % Words.U64)
  {
    hide TotalLen;
    if out == [] {
      assert replies + out == replies;
    } else {
      LenPush(replies, d);
      Words.AddWraps(st.txPackets + |replies|, 1);
      Words.AddWraps(st.txBytes + TotalLen(replies), d.len);
    }
  }

  lemma LenPush(q: seq<Desc>, d: Desc)
    ensures TotalLen(q + [d]) == TotalLen(q) + d.len
  {
    assert (q + [d])[..|q|] == q;
  }

  lemma CountedThem(st: StatsRecord, n: nat, batch: seq<Desc>, replies: seq<Desc>)
    ensures CountedPackets(Counted(st, 0, batch, replies), n) == Counted(st, n, batch, replies)
  {
    Words.AddWraps(st.rxPackets, n);
  }

  /** `xsk_socket_info` with its UMEM and rings. `krx` and `ktx` are what the
      kernel holds; `pc` and `run` tell where the program is and how it got there,
      `sent` every descriptor it has submitted to TX. */
  class XskSocketInfo {
    const c: Cfg
    const umemFrameAddr: array<Addr>
    var umemFrameFree: nat
    const buffer: array<Words.byte>
    var fq: Prod<Addr>
    var cq: Cons<Addr>
    var rx: Cons<Desc>
    var tx: Prod<Desc>
    var outstandingTx: nat
    var stats: StatsRecord
    var krx: seq<Addr>
    var ktx: seq<Addr>
    ghost var pc: Pc
    ghost var run: seq<Sys>
    ghost var sent: seq<Desc>

    ghost predicate Concrete()
      reads this`fq, this`cq, this`rx, this`tx, this`umemFrameFree
    {
      && fq.Valid() && cq.Valid() && rx.Valid() && tx.Valid()
      && umemFrameFree <= umemFrameAddr.Length == c.n
      && buffer.Length == c.n * FRAME_SIZE
    }

    ghost function Abs(): Sys
      requires Concrete()
      reads this`fq, this`cq, this`rx, this`tx, this`umemFrameFree, this`krx, this`ktx, this`outstandingTx, this`pc
      reads umemFrameAddr
    {
      Sys(umemFrameAddr[..umemFrameFree], fq.Queue(), krx, rx.Queue(),
          tx.Queue(), ktx, cq.Queue(), outstandingTx, pc)
    }

    /** The recorded run ends in the state the fields hold. */
    ghost predicate Linked()
      reads this`fq, this`cq, this`rx, this`tx, this`umemFrameFree, this`krx, this`ktx, this`outstandingTx, this`pc
      reads this`run, umemFrameAddr
    {
      Concrete() && IsRun(c, run) && Last(run) == Abs()
    }

    lemma LinkedIsConcrete()
      requires Linked()
      ensures Concrete()
    {
    }

    /** Whatever the methods below have done, each frame is in one place now. */
    lemma OnePlaceNow(f: nat)
      requires Linked()
      ensures CountsFit(Abs()) && Total(Abs(), Frame(f)) == if f < c.n then 1 else 0
    {
      EveryFrameInOnePlace(c, Abs(), f);
    }

    /** And reception has its buffers, if the recorded run stayed within the bound. */
    lemma SuppliedNow()
      requires Linked() && XskSupply.WithinRun(c, run)
      ensures XskSupply.Supply(Abs()) >= c.q
    {
      XskSupply.ReceiveNeverStarves(c, run, |run| - 1);
    }

    /** As shipped, reception stays alive whatever happens. */
    lemma AliveNow()
      requires Linked() && XskAlive.Silent(c) && XskAlive.Lives(c)
      ensures umemFrameFree < c.n
    {
      XskAlive.StaysAlive(c, Abs());
      assert |Abs().stack| == umemFrameFree;
    }

    /** Records a step of the application that ends at `next`. */
    ghost method Tick(next: Pc)
      requires Concrete() && IsRun(c, run) && Last(run).RingsValid() && AppStep(c, Last(run), Abs().(pc := next))
      modifies this`pc, this`run
      ensures Linked() && pc == next && run == old(run) + [Abs()]
      ensures AppStep(c, Last(old(run)), Last(run))
    {
      hide AppStep, KernelStep;
      pc := next;
      run := run + [Abs()];
    }

    // -------------------------------------------------------------------------
    // The kernel.

    /** Records a step of the kernel. */
    ghost method KernelTick()
      requires Concrete() && IsRun(c, run) && KernelStep(Last(run), Abs())
      modifies this`run
      ensures Linked() && old(run) <= run
    {
      hide KernelStep, AppStep;
      assert Step(c, Last(run), Abs()) by { RunRings(); }
      run := run + [Abs()];
    }

    lemma RunRings()
      requires IsRun(c, run)
      ensures Last(run).RingsValid()
    {
      RunInv(c, run);
    }

    lemma FqFilled()
      requires Concrete()
      ensures |fq.Queue().published| == Sub32(fq.producer, fq.consumer)
    {
    }

    method KernelTakesFill()
      requires Linked() && Sub32(fq.producer, fq.consumer) > 0
      modifies this`fq, this`krx, this`run
      ensures Linked() && old(run) <= run && Rely(old(Abs()), Abs(), buffer[..], buffer[..])
      ensures fq.producer == old(fq.producer) && fq.cachedProd == old(fq.cachedProd)
    {
      hide Lent, Sub32, Add32, IsRingSize, IsRun;
      ghost var s := Abs();
      FqFilled();
      ProdTake(fq);
      var a := fq.Head();
      fq := fq.Take();
      if a != INVALID_UMEM_FRAME {
        krx := krx + [a];
      }
      assert TakeFill(s, Abs());
      TakeLends(s, Abs());
      KernelTick();
    }

    /** Writes the packet into its frame and publishes its descriptor. */
    method KernelDelivers(j: nat, d: Desc, data: seq<Words.byte>)
      requires Linked() && Sub32(rx.producer, rx.consumer) < |rx.ring| && j < |krx|
      requires Fits(d) && Chunk(d.addr) == Chunk(krx[j])
      requires |data| == d.len && d.addr + d.len <= buffer.Length
      modifies this`rx, this`krx, this`run, buffer
      ensures Linked() && old(run) <= run && Rely(old(Abs()), Abs(), old(buffer[..]), buffer[..])
      ensures rx.consumer == old(rx.consumer) && rx.cachedCons == old(rx.cachedCons)
    {
      hide OwnFramesBut, Words.Splice, Concrete, IsRun, DeliverAs, Inv, PcShape;
      ghost var s, bytes := Abs(), buffer[..];
      InvNow();
      XskEcho.CopyTo(buffer, d.addr, data);
      PublishRx(j, d);
      InvParts(c, s);
      DeliverWrites(s, Abs(), j, d, bytes, data);
    }

    method PublishRx(j: nat, d: Desc)
      requires Linked() && Sub32(rx.producer, rx.consumer) < |rx.ring| && j < |krx|
      requires Fits(d) && Chunk(d.addr) == Chunk(krx[j])
      modifies this`rx, this`krx, this`run
      ensures Linked() && old(run) <= run && DeliverAs(old(Abs()), Abs(), j, d) && Untouched(old(Abs()), Abs())
      ensures rx.consumer == old(rx.consumer) && rx.cachedCons == old(rx.cachedCons)
    {
      hide Sub32, Add32, IsRingSize, IsRun;
      ghost var s := Abs();
      RxRoom();
      ConsPut(rx, d);
      rx := rx.Put(d);
      krx := Remove(krx, j);
      assert DeliverAs(s, Abs(), j, d);
      KernelTick();
    }

    lemma RxRoom()
      requires Concrete()
      ensures |Abs().rx.entries| == Sub32(rx.producer, rx.consumer) && Abs().rx.size == |rx.ring|
    {
    }

    method KernelTakesTx()
      requires Linked() && Sub32(tx.producer, tx.consumer) > 0
      modifies this`tx, this`ktx, this`run
      ensures Linked() && old(run) <= run && Rely(old(Abs()), Abs(), buffer[..], buffer[..])
      ensures tx.producer == old(tx.producer) && tx.cachedProd == old(tx.cachedProd)
    {
      ProdTake(tx);
      ktx := ktx + [tx.Head().addr];
      tx := tx.Take();
      assert TakeTx(Last(run), Abs());
      KernelTick();
    }

    method KernelCompletes(j: nat)
      requires Linked() && Sub32(cq.producer, cq.consumer) < |cq.ring| && j < |ktx|
      modifies this`cq, this`ktx, this`run
      ensures Linked() && old(run) <= run && Rely(old(Abs()), Abs(), buffer[..], buffer[..])
      ensures cq.consumer == old(cq.consumer) && cq.cachedCons == old(cq.cachedCons)
    {
      ConsPut(cq, ktx[j]);
      cq := cq.Put(ktx[j]);
      ktx := Remove(ktx, j);
      assert CompleteAs(Last(run), Abs(), j);
      KernelTick();
    }

    /** Any number of kernel steps, any of them at each point. */
    method Kernel()
      requires Linked()
      modifies this`fq, this`rx, this`tx, this`cq, this`krx, this`ktx, this`run, buffer
      ensures Linked() && old(run) <= run && Rely(old(Abs()), Abs(), old(buffer[..]), buffer[..])
      ensures fq.producer == old(fq.producer) && fq.cachedProd == old(fq.cachedProd)
      ensures tx.producer == old(tx.producer) && tx.cachedProd == old(tx.cachedProd)
      ensures rx.consumer == old(rx.consumer) && rx.cachedCons == old(rx.cachedCons)
      ensures cq.consumer == old(cq.consumer) && cq.cachedCons == old(cq.cachedCons)
    {
      hide IsRun, Rely, Concrete;
      ghost var start, bytes := Abs(), buffer[..];
      RelyNothing(start, bytes);
      var steps: nat := *;
      while steps > 0
        invariant Linked() && old(run) <= run && Rely(start, Abs(), bytes, buffer[..])
        invariant fq.producer == old(fq.producer) && fq.cachedProd == old(fq.cachedProd)
        invariant tx.producer == old(tx.producer) && tx.cachedProd == old(tx.cachedProd)
        invariant rx.consumer == old(rx.consumer) && rx.cachedCons == old(rx.cachedCons)
        invariant cq.consumer == old(cq.consumer) && cq.cachedCons == old(cq.cachedCons)
      {
        ghost var before, bytes1 := Abs(), buffer[..];
        KernelOnce();
        RelyTransitive(start, before, Abs(), bytes, bytes1, buffer[..]);
        steps := steps - 1;
      }
    }

    /** One kernel step of any kind that is possible, or none. */
    method KernelOnce()
      requires Linked()
      modifies this`fq, this`rx, this`tx, this`cq, this`krx, this`ktx, this`run, buffer
      ensures Linked() && old(run) <= run && Rely(old(Abs()), Abs(), old(buffer[..]), buffer[..])
      ensures fq.producer == old(fq.producer) && fq.cachedProd == old(fq.cachedProd)
      ensures tx.producer == old(tx.producer) && tx.cachedProd == old(tx.cachedProd)
      ensures rx.consumer == old(rx.consumer) && rx.cachedCons == old(rx.cachedCons)
      ensures cq.consumer == old(cq.consumer) && cq.cachedCons == old(cq.cachedCons)
    {
      hide IsRun, Rely, Concrete, Sub32;
      RelyNothing(Abs(), buffer[..]);
      var kind: nat := *;
      var j: nat := *;
      var d: Desc := *;
      var data: seq<Words.byte> := *;
      if kind == 0 && Sub32(fq.producer, fq.consumer) > 0 {
        KernelTakesFill();
      } else if kind == 1 && Sub32(rx.producer, rx.consumer) < |rx.ring| && 0 <= j < |krx|
                && Fits(d) && Chunk(d.addr) == Chunk(krx[j])
                && |data| == d.len && d.addr + d.len <= buffer.Length {
        KernelDelivers(j, d, data);
      } else if kind == 2 && Sub32(tx.producer, tx.consumer) > 0 {
        KernelTakesTx();
      } else if kind == 3 && Sub32(cq.producer, cq.consumer) < |cq.ring| && 0 <= j < |ktx| {
        KernelCompletes(j);
      }
    }

    // -------------------------------------------------------------------------
    // The free stack.

    /** `xsk_alloc_umem_frame`. */
    method AllocUmemFrame() returns (frame: Addr)
      requires Concrete()
      modifies this`umemFrameFree, umemFrameAddr
      ensures Concrete()
      ensures (umemFrameAddr[..umemFrameFree], frame) == Alloc(old(umemFrameAddr[..umemFrameFree]))
    {
      hide Sub32, IsRingSize;
      if umemFrameFree == 0 {
        return INVALID_UMEM_FRAME;
      }
      umemFrameFree := umemFrameFree - 1;
      frame := umemFrameAddr[umemFrameFree];
      umemFrameAddr[umemFrameFree] := INVALID_UMEM_FRAME;
      assert umemFrameAddr[..umemFrameFree] == old(umemFrameAddr[..umemFrameFree])[..umemFrameFree];
    }

    /** `xsk_free_umem_frame`; its assert is the precondition. */
    method FreeUmemFrame(frame: Addr)
      requires Concrete() && umemFrameFree < c.n
      modifies this`umemFrameFree, umemFrameAddr
      ensures Concrete()
      ensures umemFrameAddr[..umemFrameFree] == old(umemFrameAddr[..umemFrameFree]) + [frame]
    {
      hide Sub32, IsRingSize;
      umemFrameAddr[umemFrameFree] := frame;
      umemFrameFree := umemFrameFree + 1;
    }

    // -------------------------------------------------------------------------
    // Setup.

    /** `xsk_configure_socket` on fresh rings whose indices start anywhere: every
        frame goes on the stack, then the FILL ring is filled from its top. */
    constructor (c: Cfg, base: idx)
      requires c.Valid() && IsRingSize(c.q) && IsRingSize(c.rxSize) && IsRingSize(c.txSize) && IsRingSize(c.cqSize)
      ensures Linked() && pc == Idle && run == [Init(c)] && this.c == c
      ensures fresh(umemFrameAddr) && fresh(buffer) && sent == [] && stats == StatsRecord(0, 0, 0, 0)
    {
      hide Linked, Untried, Init, Add32, Sub32, IsRingSize;
      this.c := c;
      umemFrameAddr := new Addr[c.n](i => i * FRAME_SIZE);
      umemFrameFree := c.n;
      buffer := new Words.byte[c.n * FRAME_SIZE];
      fq := Prod(base, Add32(base, c.q), base, base, seq(c.q, _ => 0));
      tx := Prod(base, Add32(base, c.txSize), base, base, seq(c.txSize, _ => Desc(0, 0)));
      rx := Cons(base, base, base, base, seq(c.rxSize, _ => Desc(0, 0)));
      cq := Cons(base, base, base, base, seq(c.cqSize, _ => 0));
      outstandingTx, stats, krx, ktx := 0, StatsRecord(0, 0, 0, 0), [], [];
      pc, run, sent := Idle, [], [];
      new;
      BeginUntried(base);
      StuffFill();
    }

    /** `xsk_configure_socket` with its error exits: `memory` tells whether there is
        any for the structure, `created` is what creating the socket returns and
        `attached` what entering it into the map or finding the program returns.
        Reserving on the fresh FILL ring cannot fall short. */
    static method Configure(c: Cfg, base: idx, memory: bool, created: int, attached: int)
      returns (xsk: XskSocketInfo?)
      requires c.Valid() && IsRingSize(c.q) && IsRingSize(c.rxSize) && IsRingSize(c.txSize) && IsRingSize(c.cqSize)
      ensures xsk == null <==> !memory || created != 0 || attached != 0
      ensures xsk != null ==> fresh(xsk) && fresh(xsk.umemFrameAddr) && fresh(xsk.buffer) && xsk.c == c
      ensures xsk != null ==> xsk.Linked() && xsk.pc == Idle && xsk.run == [Init(c)] && xsk.sent == []
    {
      hide Init, Step;
      if !memory {
        return null;
      }
      if created != 0 {
        return null;
      }
      if attached != 0 {
        return null;
      }
      xsk := new XskSocketInfo(c, base);
    }

    static lemma FreshRings(c: Cfg, base: idx)
      requires IsRingSize(c.q) && IsRingSize(c.rxSize) && IsRingSize(c.txSize) && IsRingSize(c.cqSize)
      ensures Sub32(base, base) == 0 && Add32(base, 0) == base
      ensures Sub32(Add32(base, c.q), base) == c.q && Sub32(Add32(base, c.txSize), base) == c.txSize
    {
      WrapCases(base, base);
      SubAdd(base, base, c.q);
      SubAdd(base, base, c.txSize);
      AddCases(base, 0);
    }

    /** All rings are empty, all frames are on the stack, nothing has happened. */
    ghost predicate Untried()
      reads this, umemFrameAddr
    {
      && Concrete() && c.Valid() && run == []
      && umemFrameAddr[..umemFrameFree] == InitialStack(c.n)
      && Abs() == Init(c).(stack := InitialStack(c.n), fq := ProdQ(c.q, [], [], 0))
    }

    lemma BeginUntried(base: idx)
      requires c.Valid() && IsRingSize(c.q) && IsRingSize(c.rxSize) && IsRingSize(c.txSize) && IsRingSize(c.cqSize)
      requires umemFrameAddr.Length == umemFrameFree == c.n && buffer.Length == c.n * FRAME_SIZE
      requires forall i :: 0 <= i < c.n ==> umemFrameAddr[i] == i * FRAME_SIZE
      requires fq == Prod(base, Add32(base, c.q), base, base, seq(c.q, _ => 0))
      requires tx == Prod(base, Add32(base, c.txSize), base, base, seq(c.txSize, _ => Desc(0, 0)))
      requires rx == Cons(base, base, base, base, seq(c.rxSize, _ => Desc(0, 0)))
      requires cq == Cons(base, base, base, base, seq(c.cqSize, _ => 0))
      requires outstandingTx == 0 && krx == [] && ktx == [] && pc == Idle && run == []
      ensures Untried()
    {
      hide Sub32, Add32, IsRingSize;
      FreshRings(c, base);
      assert umemFrameAddr[..c.n] == InitialStack(c.n);
    }

    /** `i` frames have moved from the top of the stack to reserved FILL slots. */
    ghost predicate Stuffing(i: nat)
      reads this, umemFrameAddr
    {
      && Concrete() && c.Valid() && run == [] && i <= c.q
      && umemFrameAddr[..umemFrameFree] == InitialStack(c.n - i)
      && fq.Queue() == ProdQ(c.q, [], fq.Queue().reserved, 0)
      && |fq.Queue().reserved| == c.q && fq.Queue().reserved[..i] == Descending(c.n, i)
      && Abs() == Init(c).(stack := InitialStack(c.n - i), fq := fq.Queue())
    }

    /** Moves the top of the stack into the FILL ring, one frame for each slot. */
    method StuffFill()
      requires Untried()
      modifies this`fq, this`umemFrameFree, this`run, umemFrameAddr
      ensures Linked() && pc == Idle && run == [Init(c)]
    {
      hide Stuffing, Untried, Concrete, Linked;
      var at := ReserveAll();
      for i := 0 to c.q
        invariant Stuffing(i) && at == Add32(fq.producer, i) && c.q < W
      {
        StuffOne(i, at);
        AddAdd(fq.producer, i, 1);
        at := Add32(at, 1);
      }
      SubmitAll();
    }

    method ReserveAll() returns (at: idx)
      requires Untried()
      modifies this`fq
      ensures Stuffing(0) && at == Add32(fq.producer, 0) && c.q < W
    {
      hide Sub32, Add32;
      ProdReserve(fq, c.q);
      at := fq.cachedProd;
      fq := fq.Reserve(c.q);
    }

    method StuffOne(i: nat, at: idx)
      requires Stuffing(i) && i < c.q && at == Add32(fq.producer, i)
      modifies this`fq, this`umemFrameFree, umemFrameAddr
      ensures Stuffing(i + 1) && fq.producer == old(fq.producer)
    {
      hide Sub32, Add32, IsRingSize;
      ghost var before, stack := fq.Queue().reserved, umemFrameAddr[..umemFrameFree];
      var frame := AllocUmemFrame();
      assert |stack| == c.n - i && frame == (c.n - 1 - i) * FRAME_SIZE;
      assert stack[..c.n - i - 1] == InitialStack(c.n - i - 1);
      ProdFill(fq, i, frame);
      fq := fq.Fill(at, frame);
      assert fq.Queue().reserved[..i + 1] == before[..i] + [frame];
      assert Descending(c.n, i + 1) == Descending(c.n, i) + [frame];
    }

    method SubmitAll()
      requires Stuffing(c.q)
      modifies this`fq, this`run
      ensures Linked() && pc == Idle && run == [Init(c)]
    {
      hide Sub32, Add32, IsRingSize;
      ghost var before := fq.Queue().reserved;
      ProdSubmit(fq, c.q);
      assert before[..c.q] == before && before[c.q..] == [];
      fq := fq.Submit(c.q);
      assert fq.Queue().published == [] + before == before;
      run := [Init(c)];
      assert Abs() == Init(c);
    }

    // -------------------------------------------------------------------------
    // Completion.

    /** The state the fields hold is reachable, so the invariant is there. */
    lemma InvNow()
      requires Linked()
      ensures Inv(c, Abs()) && PcShape(Abs())
    {
      RunInv(c, run);
    }

    /** Kernel steps after whatever has happened since `start`. */
    method KernelSince(ghost start: Sys, ghost bytes: seq<Words.byte>, ghost f: Key)
      requires Linked() && OwnFramesBut(start, Abs(), bytes, buffer[..], f)
      modifies this`fq, this`rx, this`tx, this`cq, this`krx, this`ktx, this`run, buffer
      ensures Linked() && old(run) <= run && OwnFramesBut(start, Abs(), bytes, buffer[..], f)
      ensures Rely(old(Abs()), Abs(), old(buffer[..]), buffer[..])
      ensures fq.producer == old(fq.producer) && fq.cachedProd == old(fq.cachedProd)
      ensures tx.producer == old(tx.producer) && tx.cachedProd == old(tx.cachedProd)
      ensures rx.consumer == old(rx.consumer) && rx.cachedCons == old(rx.cachedCons)
      ensures cq.consumer == old(cq.consumer) && cq.cachedCons == old(cq.cachedCons)
    {
      hide IsRun, Rely, OwnFramesBut, Concrete, Abs;
      ghost var s, b := Abs(), buffer[..];
      Kernel();
      RelyOwn(s, Abs(), b, buffer[..], f);
      OwnTransitive(start, s, Abs(), bytes, b, buffer[..], f);
    }

    /** A step of the application that lends nothing, after whatever has happened since `start`. */
    lemma StepSince(start: Sys, s: Sys, t: Sys, bytes: seq<Words.byte>, b: seq<Words.byte>, f: Key)
      requires OwnFramesBut(start, s, bytes, b, f) && SameLent(s, t)
      ensures OwnFramesBut(start, t, bytes, b, f)
    {
      hide OwnFramesBut, SameLent;
      SameLentOwn(s, t, b, f);
      OwnTransitive(start, s, t, bytes, b, b, f);
    }

    /** Looks for completed frames; `at` is the index of the first. */
    method PeekCompletion() returns (completed: nat, at: idx)
      requires Linked() && pc == NeedCqPeek
      modifies this`cq, this`pc, this`run
      ensures Linked() && old(run) <= run && SameLent(old(Abs()), Abs())
      ensures pc == if completed == 0 then Idle else Completing(completed, 0)
      ensures at == Add32(cq.consumer, 0) && completed < W
    {
      hide IsRun, Inv, Sub32, Add32;
      InvNow();
      ConsPeek(cq, c.cqBatch);
      completed := cq.Avail(c.cqBatch);
      at := cq.cachedCons;
      cq := cq.Peek(c.cqBatch);
      Tick(if completed == 0 then Idle else Completing(completed, 0));
    }

    /** Frees the completed frame at index `at`. */
    method FreeCompleted(at: idx)
      requires Linked() && pc.Completing? && pc.i < pc.done && at == Add32(cq.consumer, pc.i)
      modifies this`umemFrameFree, this`pc, this`run, umemFrameAddr
      ensures Linked() && old(run) <= run && pc == Completing(old(pc).done, old(pc).i + 1)
      ensures SameLent(old(Abs()), Abs())
    {
      hide IsRun, Inv, Sub32, Add32, IsRingSize;
      InvNow();
      RoomToFree(c, Abs());
      assert |Abs().stack| == umemFrameFree;
      ConsAt(cq, pc.i);
      FreeUmemFrame(cq.At(at));
      Tick(Completing(pc.done, pc.i + 1));
    }

    method ReleaseCompletion(completed: nat)
      requires Linked() && pc == Completing(completed, completed)
      modifies this`cq, this`pc, this`run
      ensures Linked() && old(run) <= run && pc == Released(completed) && SameLent(old(Abs()), Abs())
    {
      hide IsRun, Inv, Sub32, Add32, IsRingSize;
      InvNow();
      ConsRelease(cq, completed);
      cq := cq.Release(completed);
      Tick(Released(completed));
    }

    method SubtractOutstanding(completed: nat)
      requires Linked() && pc == Released(completed)
      modifies this`outstandingTx, this`pc, this`run
      ensures Linked() && old(run) <= run && pc == Idle && SameLent(old(Abs()), Abs())
    {
      hide IsRun, Inv, Sub32, Add32, IsRingSize;
      outstandingTx := outstandingTx - if completed < outstandingTx then completed else outstandingTx;
      RunRings();
      Tick(Idle);
    }

    method CheckOutstanding()
      requires Linked() && pc == NeedComplete
      modifies this`pc, this`run
      ensures Linked() && old(run) <= run && pc == if outstandingTx == 0 then Idle else NeedCqPeek
      ensures SameLent(old(Abs()), Abs())
    {
      hide IsRun, Inv, Sub32, Add32, IsRingSize;
      RunRings();
      Tick(if outstandingTx == 0 then Idle else NeedCqPeek);
    }

    /** The loop that frees what was peeked. */
    method FreeAllCompleted(completed: nat, first: idx, ghost start: Sys, ghost bytes: seq<Words.byte>)
      requires Linked() && pc == Completing(completed, 0) && first == Add32(cq.consumer, 0) && completed < W
      requires OwnFramesBut(start, Abs(), bytes, buffer[..], Any)
      modifies this`fq, this`rx, this`tx, this`cq, this`krx, this`ktx, this`umemFrameFree, this`pc, this`run
      modifies umemFrameAddr, buffer
      ensures Linked() && pc == Completing(completed, completed) && old(run) <= run
      ensures OwnFramesBut(start, Abs(), bytes, buffer[..], Any)
    {
      hide IsRun, Rely, Concrete, Abs, Add32, SameLent, OwnFramesBut;
      var at := first;
      for i := 0 to completed
        invariant Linked() && pc == Completing(completed, i) && old(run) <= run
        invariant at == Add32(cq.consumer, i) && OwnFramesBut(start, Abs(), bytes, buffer[..], Any)
      {
        KernelSince(start, bytes, Any);
        ghost var s := Abs();
        FreeCompleted(at);
        StepSince(start, s, Abs(), bytes, buffer[..], Any);
        AddAdd(cq.consumer, i, 1);
        at := Add32(at, 1);
      }
    }

    /** Releases the completed entries and subtracts them from the count. */
    method EndCompletion(completed: nat, ghost start: Sys, ghost bytes: seq<Words.byte>)
      requires Linked() && pc == Completing(completed, completed)
      requires OwnFramesBut(start, Abs(), bytes, buffer[..], Any)
      modifies this`fq, this`rx, this`tx, this`cq, this`krx, this`ktx, this`outstandingTx, this`pc, this`run, buffer
      ensures Linked() && pc == Idle && old(run) <= run && OwnFramesBut(start, Abs(), bytes, buffer[..], Any)
    {
      hide IsRun, Rely, Concrete, Abs, Add32, SameLent, OwnFramesBut;
      KernelSince(start, bytes, Any);
      ghost var s := Abs();
      ReleaseCompletion(completed);
      StepSince(start, s, Abs(), bytes, buffer[..], Any);
      KernelSince(start, bytes, Any);
      s := Abs();
      SubtractOutstanding(completed);
      StepSince(start, s, Abs(), bytes, buffer[..], Any);
    }

    /** `complete_tx`. The kick of the kernel is one of the points where it steps. */
    method CompleteTx()
      requires Linked() && pc == NeedComplete
      modifies this`fq, this`rx, this`tx, this`cq, this`krx, this`ktx, this`umemFrameFree, this`outstandingTx
      modifies this`pc, this`run, umemFrameAddr, buffer
      ensures Linked() && pc == Idle && old(run) <= run
      ensures OwnFramesBut(old(Abs()), Abs(), old(buffer[..]), buffer[..], Any)
    {
      hide IsRun, Rely, Concrete, Abs, Add32, SameLent, OwnFramesBut;
      ghost var start, bytes := Abs(), buffer[..];
      Kernel();
      RelyOwn(start, Abs(), bytes, buffer[..], Any);
      ghost var s := Abs();
      CheckOutstanding();
      StepSince(start, s, Abs(), bytes, buffer[..], Any);
      if outstandingTx > 0 {
        CollectCompleted(start, bytes);
      }
    }

    /** The part of `complete_tx` behind the kick. */
    method CollectCompleted(ghost start: Sys, ghost bytes: seq<Words.byte>)
      requires Linked() && pc == NeedCqPeek && OwnFramesBut(start, Abs(), bytes, buffer[..], Any)
      modifies this`fq, this`rx, this`tx, this`cq, this`krx, this`ktx, this`umemFrameFree, this`outstandingTx
      modifies this`pc, this`run, umemFrameAddr, buffer
      ensures Linked() && pc == Idle && old(run) <= run && OwnFramesBut(start, Abs(), bytes, buffer[..], Any)
    {
      hide IsRun, Rely, Concrete, Abs, Add32, SameLent, OwnFramesBut;
      KernelSince(start, bytes, Any);
      ghost var s := Abs();
      var completed, at := PeekCompletion();
      StepSince(start, s, Abs(), bytes, buffer[..], Any);
      if completed == 0 {
        return;
      }
      FreeAllCompleted(completed, at, start, bytes);
      EndCompletion(completed, start, bytes);
    }

    // -------------------------------------------------------------------------
    // Reception.

    /** The `j`-th recorded step is a look at RX from rest that hands out `batch`. */
    ghost predicate Began(j: nat, batch: seq<Desc>)
      reads this
    {
      && 0 < j < |run| && run[j - 1].pc == Idle && run[j - 1].RingsValid() && AppStep(c, run[j - 1], run[j])
      && |batch| == run[j].rx.peeked <= |run[j].rx.entries| && batch == run[j].rx.entries[..|batch|]
    }

    /** The oldest packets of RX: all that are known, or all there are when none
        was known, but at most `nb`. */
    static ghost predicate HandedOut(rx: ConsQ<Desc>, nb: nat, batch: seq<Desc>) {
      var known := if rx.seen == 0 then |rx.entries| else rx.seen;
      batch <= rx.entries && |batch| == if known > nb then nb else known
    }

    method LookAtRx() returns (rcvd: nat, at: idx, ghost batch: seq<Desc>)
      requires Linked() && pc == Idle
      modifies this`rx, this`pc, this`run
      ensures Linked() && run == old(run) + [Abs()] && pc == if rcvd == 0 then Idle else NeedStock(rcvd)
      ensures AppStep(c, Last(old(run)), Last(run))
      ensures at == Add32(rx.consumer, 0) && rcvd == |batch| == Abs().rx.peeked < W && batch <= Abs().rx.entries
      ensures Abs().tx == old(Abs()).tx && HandedOut(old(Abs()).rx, c.batch, batch)
    {
      hide IsRun, Inv, Sub32, Add32;
      InvNow();
      ConsPeek(rx, c.batch);
      rcvd := rx.Avail(c.batch);
      at := rx.cachedCons;
      batch := rx.Queue().entries[..rcvd];
      rx := rx.Peek(c.batch);
      Tick(if rcvd == 0 then Idle else NeedStock(rcvd));
    }

    method PeekRx() returns (rcvd: nat, at: idx, ghost batch: seq<Desc>)
      requires Linked() && pc == Idle
      modifies this`rx, this`pc, this`run
      ensures Linked() && old(run) <= run && pc == if rcvd == 0 then Idle else NeedStock(rcvd)
      ensures Began(|old(run)|, batch)
      ensures at == Add32(rx.consumer, 0) && rcvd == |batch| < W && batch <= Abs().rx.entries
      ensures Abs().tx == old(Abs()).tx && HandedOut(old(Abs()).rx, c.batch, batch)
    {
      hide AppStep, KernelStep, Add32, HandedOut;
      RunRings();
      rcvd, at, batch := LookAtRx();
    }

    /** `xsk_prod_nb_free` with the number of free frames: all free slots known
        of, not the smaller of the two. */
    method CountStock(rcvd: nat) returns (stock: nat)
      requires Linked() && pc == NeedStock(rcvd)
      modifies this`fq, this`pc, this`run
      ensures Linked() && old(run) <= run && Abs().rx == old(Abs()).rx && Abs().tx == old(Abs()).tx
      ensures pc == if stock > 0 then NeedReserve(rcvd, stock) else Processing(rcvd, 0)
    {
      hide IsRun, Inv, Sub32, Add32, IsRingSize;
      InvNow();
      ProdNbFree(fq, umemFrameFree);
      assert |Abs().stack| == umemFrameFree;
      fq := fq.NbFree(umemFrameFree);
      stock := fq.CachedFree();
      Tick(if stock > 0 then NeedReserve(rcvd, stock) else Processing(rcvd, 0));
    }

    /** Reserving the counted slots always succeeds at once. */
    method ReserveStock(rcvd: nat, stock: nat) returns (ret: nat, at: idx)
      requires Linked() && pc == NeedReserve(rcvd, stock)
      modifies this`fq, this`pc, this`run
      ensures Linked() && old(run) <= run && pc == Filling(rcvd, stock, 0)
      ensures Abs().rx == old(Abs()).rx && Abs().tx == old(Abs()).tx
      ensures ret == stock < W && at == Add32(fq.producer, 0)
    {
      hide IsRun, Inv, Sub32, Add32;
      InvNow();
      ProdReserve(fq, stock);
      ProdNbFree(fq, stock);
      ret := fq.Granted(stock);
      at := fq.cachedProd;
      fq := fq.Reserve(stock);
      Tick(Filling(rcvd, stock, 0));
    }

    method FillOne(rcvd: nat, stock: nat, i: nat, at: idx)
      requires Linked() && pc == Filling(rcvd, stock, i) && i < stock && at == Add32(fq.producer, i)
      modifies this`fq, this`umemFrameFree, this`pc, this`run, umemFrameAddr
      ensures Linked() && old(run) <= run && pc == Filling(rcvd, stock, i + 1) && fq.producer == old(fq.producer)
      ensures Abs().rx == old(Abs()).rx && Abs().tx == old(Abs()).tx
    {
      hide IsRun, Inv, Sub32, Add32, IsRingSize;
      InvNow();
      var frame := AllocUmemFrame();
      ProdFill(fq, i, frame);
      fq := fq.Fill(at, frame);
      Tick(Filling(rcvd, stock, i + 1));
    }

    method SubmitStock(rcvd: nat, stock: nat)
      requires Linked() && pc == Filling(rcvd, stock, stock)
      modifies this`fq, this`pc, this`run
      ensures Linked() && old(run) <= run && pc == Processing(rcvd, 0)
      ensures Abs().rx == old(Abs()).rx && Abs().tx == old(Abs()).tx
    {
      hide IsRun, Inv, Sub32, Add32, IsRingSize;
      InvNow();
      ProdSubmit(fq, stock);
      fq := fq.Submit(stock);
      Tick(Processing(rcvd, 0));
    }

    /** Kernel steps while a batch waits: its packets keep their bytes. */
    method KernelBefore(ghost batch: seq<Desc>, ghost arrived: seq<Words.byte>)
      requires Linked() && Arrived(Abs(), buffer[..], batch, arrived)
      requires pc.NeedStock? || pc.NeedReserve? || pc.Filling?
      modifies this`fq, this`rx, this`tx, this`cq, this`krx, this`ktx, this`run, buffer
      ensures Linked() && old(run) <= run && Arrived(Abs(), buffer[..], batch, arrived)
      ensures fq.producer == old(fq.producer) && rx.consumer == old(rx.consumer)
      ensures TxFree(Abs()) >= old(TxFree(Abs()))
    {
      hide Rely, Concrete, IsRun, Arrived, Inv, PcShape;
      ghost var s, b := Abs(), buffer[..];
      InvNow();
      Kernel();
      RelyOwn(s, Abs(), b, buffer[..], Any);
      ArrivedStays(c, s, Abs(), b, buffer[..], batch, arrived);
    }

    /** The refill in front of a batch, over every free slot the cached count shows.
        The batch keeps the bytes it arrived with. */
    method Refill(rcvd: nat, ghost batch: seq<Desc>, ghost arrived: seq<Words.byte>)
      requires Linked() && pc == NeedStock(rcvd) && Arrived(Abs(), buffer[..], batch, arrived)
      modifies this`fq, this`rx, this`tx, this`cq, this`krx, this`ktx, this`umemFrameFree, this`pc, this`run
      modifies umemFrameAddr, buffer
      ensures Linked() && old(run) <= run && pc == Processing(rcvd, 0)
      ensures rx.consumer == old(rx.consumer) && Arrived(Abs(), buffer[..], batch, arrived)
      ensures TxFree(Abs()) >= old(TxFree(Abs()))
    {
      hide IsRun, Concrete, Abs, Add32, Arrived;
      ghost var s := Abs();
      var stock := CountStock(rcvd);
      ArrivedSame(s, Abs(), buffer[..], batch, arrived);
      if stock > 0 {
        KernelBefore(batch, arrived);
        FillStock(rcvd, stock, batch, arrived);
      }
    }

    lemma ArrivedSame(s: Sys, t: Sys, now: seq<Words.byte>, batch: seq<Desc>, arrived: seq<Words.byte>)
      requires t.rx == s.rx
      ensures Arrived(t, now, batch, arrived) == Arrived(s, now, batch, arrived)
    {
      hide Inside, PacketAt;
    }

    /** Reserves the counted slots, fills them from the stack and submits them. */
    method FillStock(rcvd: nat, stock: nat, ghost batch: seq<Desc>, ghost arrived: seq<Words.byte>)
      requires Linked() && pc == NeedReserve(rcvd, stock) && Arrived(Abs(), buffer[..], batch, arrived)
      modifies this`fq, this`rx, this`tx, this`cq, this`krx, this`ktx, this`umemFrameFree, this`pc, this`run
      modifies umemFrameAddr, buffer
      ensures Linked() && old(run) <= run && pc == Processing(rcvd, 0)
      ensures rx.consumer == old(rx.consumer) && Arrived(Abs(), buffer[..], batch, arrived)
      ensures TxFree(Abs()) >= old(TxFree(Abs()))
    {
      hide IsRun, Concrete, Abs, Add32, Arrived;
      ghost var s := Abs();
      var ret, at := ReserveStock(rcvd, stock);
      ArrivedSame(s, Abs(), buffer[..], batch, arrived);
      // So the loop that reserves again while ret != stock is never entered.
      assert ret == stock;
      for i := 0 to stock
        invariant Linked() && old(run) <= run && pc == Filling(rcvd, stock, i)
        invariant at == Add32(fq.producer, i) && rx.consumer == old(rx.consumer)
        invariant Arrived(Abs(), buffer[..], batch, arrived) && TxFree(Abs()) >= old(TxFree(Abs()))
      {
        KernelBefore(batch, arrived);
        s := Abs();
        FillOne(rcvd, stock, i, at);
        ArrivedSame(s, Abs(), buffer[..], batch, arrived);
        AddAdd(fq.producer, i, 1);
        at := Add32(at, 1);
      }
      KernelBefore(batch, arrived);
      s := Abs();
      SubmitStock(rcvd, stock);
      ArrivedSame(s, Abs(), buffer[..], batch, arrived);
    }

    // -------------------------------------------------------------------------
    // One packet.

    method WriteTx(rcvd: nat, i: nat, d: Desc, at: idx)
      requires Linked() && pc == TxReserved(rcvd, i) && at == Add32(tx.producer, 0)
      requires i < |Abs().rx.entries| && Abs().rx.entries[i] == d
      modifies this`tx, this`pc, this`run
      ensures Linked() && old(run) <= run && pc == TxWritten(rcvd, i) && Abs().tx.reserved == [d]
      ensures SameLent(old(Abs()), Abs()) && Abs().rx == old(Abs()).rx && TxFree(Abs()) == old(TxFree(Abs()))
    {
      hide IsRun, Inv, Sub32, Add32, IsRingSize;
      InvNow();
      ProdFill(tx, 0, d);
      tx := tx.Fill(at, d);
      Tick(TxWritten(rcvd, i));
    }

    /** Submits the reserved slot: its descriptor is sent. */
    method SubmitTx(rcvd: nat, i: nat)
      requires Linked() && pc == TxWritten(rcvd, i)
      modifies this`tx, this`pc, this`run, this`sent
      ensures Linked() && old(run) <= run && pc == TxSubmitted(rcvd, i)
      ensures SameLent(old(Abs()), Abs()) && Abs().rx == old(Abs()).rx && TxFree(Abs()) == old(TxFree(Abs()))
      ensures sent == old(sent) + old(Abs()).tx.reserved
      ensures Abs().tx.published == old(Abs()).tx.published + old(Abs()).tx.reserved
    {
      hide IsRun, Inv, Sub32, Add32, IsRingSize;
      InvNow();
      ProdSubmit(tx, 1);
      SubmitAllReserved(tx.Queue());
      sent := sent + tx.Queue().reserved;
      tx := tx.Submit(1);
      Tick(TxSubmitted(rcvd, i));
    }

    lemma SubmitAllReserved(q: ProdQ<Desc>)
      requires |q.reserved| == 1
      ensures q.Submit(1) == q.(published := q.published + q.reserved, reserved := [])
    {
    }

    /** Counts the frame on its way out, and the packet in the statistics. */
    method CountTx(rcvd: nat, i: nat, len: nat)
      requires Linked() && pc == TxSubmitted(rcvd, i)
      modifies this`outstandingTx, this`stats, this`pc, this`run
      ensures Linked() && old(run) <= run && pc == Processing(rcvd, i + 1)
      ensures SameLent(old(Abs()), Abs()) && Abs().rx == old(Abs()).rx && TxFree(Abs()) == old(TxFree(Abs()))
      ensures outstandingTx == old(outstandingTx) + 1 && stats == CountedTx(old(stats), len)
    {
      hide IsRun, Inv, Sub32, Add32, IsRingSize;
      RunRings();
      outstandingTx := outstandingTx + 1;
      stats := CountedTx(stats, len);
      Tick(Processing(rcvd, i + 1));
    }

    /** The packet `d` is on its way into TX; its frame is not the kernel's to write. */
    ghost predicate Sending(d: Desc, start: Sys, bytes: seq<Words.byte>, f: Key)
      requires Concrete()
      reads this`fq, this`cq, this`rx, this`tx, this`umemFrameFree, this`krx, this`ktx, this`outstandingTx, this`pc
      reads umemFrameAddr, buffer
    {
      && Inside(d, buffer.Length) && !Lent(Abs(), Chunk(d.addr))
      && OwnFramesBut(start, Abs(), bytes, buffer[..], f) && start.rx.entries <= Abs().rx.entries
    }

    /** The kernel steps before and after the slot just reserved is written. */
    method StageTx(rcvd: nat, i: nat, d: Desc, at: idx, ghost start: Sys, ghost bytes: seq<Words.byte>, ghost f: Key)
      requires Linked() && pc == TxReserved(rcvd, i) && at == Add32(tx.producer, 0)
      requires i < |Abs().rx.entries| && Abs().rx.entries[i] == d && Sending(d, start, bytes, f)
      modifies this`fq, this`rx, this`tx, this`cq, this`krx, this`ktx, this`pc, this`run, buffer
      ensures Linked() && old(run) <= run && pc == TxWritten(rcvd, i) && rx.consumer == old(rx.consumer)
      ensures Sending(d, start, bytes, f) && Abs().tx.reserved == [d] && TxFree(Abs()) >= old(TxFree(Abs()))
      ensures PacketAt(buffer[..], d) == old(PacketAt(buffer[..], d))
    {
      hide IsRun, Rely, Concrete, Abs, Add32, Lent, SameLent, OwnFramesBut, PacketAt;
      ghost var s, b := Abs(), buffer[..];
      KernelSince(start, bytes, f);
      SlotStays(s, Abs(), b, buffer[..], d);
      s, b := Abs(), buffer[..];
      WriteTx(rcvd, i, d, at);
      StepSince(start, s, Abs(), bytes, b, f);
      LentSame(s, Abs(), Chunk(d.addr));
      s := Abs();
      KernelSince(start, bytes, f);
      SlotStays(s, Abs(), b, buffer[..], d);
    }

    /** Submits it, and the kernel steps. */
    method ShipTx(rcvd: nat, i: nat, d: Desc, ghost start: Sys, ghost bytes: seq<Words.byte>, ghost f: Key)
      requires Linked() && pc == TxWritten(rcvd, i) && Sending(d, start, bytes, f) && Abs().tx.reserved == [d]
      modifies this`fq, this`rx, this`tx, this`cq, this`krx, this`ktx, this`pc, this`run, this`sent, buffer
      ensures Linked() && old(run) <= run && pc == TxSubmitted(rcvd, i) && rx.consumer == old(rx.consumer)
      ensures Sending(d, start, bytes, f) && sent == old(sent) + [d] && TxFree(Abs()) >= old(TxFree(Abs()))
      ensures PacketAt(buffer[..], d) == old(PacketAt(buffer[..], d))
    {
      hide IsRun, Rely, Concrete, Abs, Add32, Lent, SameLent, OwnFramesBut, PacketAt;
      ghost var s, b := Abs(), buffer[..];
      SubmitTx(rcvd, i);
      StepSince(start, s, Abs(), bytes, b, f);
      LentSame(s, Abs(), Chunk(d.addr));
      s := Abs();
      KernelSince(start, bytes, f);
      SlotStays(s, Abs(), b, buffer[..], d);
    }

    /** Puts the packet's descriptor into the TX slot just reserved and submits it.
        The frame is not the kernel's to write, so its bytes stay. */
    method SendReserved(rcvd: nat, i: nat, d: Desc, at: idx,
                        ghost start: Sys, ghost bytes: seq<Words.byte>, ghost f: Key)
      requires Linked() && pc == TxReserved(rcvd, i) && at == Add32(tx.producer, 0)
      requires i < |Abs().rx.entries| && Abs().rx.entries[i] == d && Sending(d, start, bytes, f)
      modifies this`fq, this`rx, this`tx, this`cq, this`krx, this`ktx, this`outstandingTx, this`stats
      modifies this`pc, this`run, this`sent, buffer
      ensures Linked() && old(run) <= run && pc == Processing(rcvd, i + 1)
      ensures rx.consumer == old(rx.consumer)
      ensures PacketAt(buffer[..], d) == old(PacketAt(buffer[..], d))
      ensures OwnFramesBut(start, Abs(), bytes, buffer[..], f) && start.rx.entries <= Abs().rx.entries
      ensures sent == old(sent) + [d] && outstandingTx == old(outstandingTx) + 1
      ensures stats == CountedTx(old(stats), d.len) && TxFree(Abs()) >= old(TxFree(Abs()))
    {
      hide IsRun, Rely, Concrete, Abs, Add32, Lent, SameLent, OwnFramesBut, PacketAt, CountedTx, TxFree;
      StageTx(rcvd, i, d, at, start, bytes, f);
      ShipTx(rcvd, i, d, start, bytes, f);
      ghost var s := Abs();
      CountTx(rcvd, i, d.len);
      StepSince(start, s, Abs(), bytes, buffer[..], f);
    }

    lemma LentSame(s: Sys, t: Sys, g: nat)
      requires SameLent(s, t)
      ensures Lent(t, g) == Lent(s, g)
    {
    }

    /** What kernel steps leave of a packet on its way into TX. */
    lemma SlotStays(s: Sys, t: Sys, b: seq<Words.byte>, b1: seq<Words.byte>, d: Desc)
      requires Rely(s, t, b, b1) && Inside(d, |b|) && !Lent(s, Chunk(d.addr))
      ensures t.tx.reserved == s.tx.reserved && s.rx.entries <= t.rx.entries && TxFree(t) >= TxFree(s)
      ensures |b1| == |b| && PacketAt(b1, d) == PacketAt(b, d) && !Lent(t, Chunk(d.addr))
    {
      hide Lent, OwnFramesBut, PacketAt;
      PacketStays(s, t, b, b1, Any, d);
    }

    /** The application holds the `i`-th packet of the batch, and of the rings only
        the cached TX side may have moved since the last recorded state. */
    ghost predicate Holding(rcvd: nat, i: nat, d: Desc)
      reads this, umemFrameAddr
    {
      && Concrete() && IsRun(c, run) && Last(run).RingsValid() && pc == Processing(rcvd, i) && i < rcvd
      && i < |rx.Queue().entries| && rx.Queue().entries[i] == d
      && (Abs() == Last(run) ||
          (c.echo && !Last(run).tx.CanReserve(1) && Abs() == Last(run).(tx := Last(run).tx.NbFree(1))))
    }

    /** `process_packet`: answers true, with the packet on its way out and its bytes
        turned into the reply, exactly when echoing is on, the packet is a ping
        and a TX slot is free; on false the caller still owns the frame. No
        other frame is touched but those lent to the kernel. */
    method ProcessPacket(e: Words.Endian, rcvd: nat, i: nat, d: Desc) returns (ok: bool)
      requires Holding(rcvd, i, d) && Linked()
      requires Inside(d, buffer.Length) && !Lent(Abs(), Chunk(d.addr))
      modifies this`fq, this`rx, this`tx, this`cq, this`krx, this`ktx, this`outstandingTx, this`stats
      modifies this`pc, this`run, this`sent, buffer
      ensures old(run) <= run && rx.consumer == old(rx.consumer) && Concrete()
      ensures ok <==> c.echo && XskEcho.IsPing(old(PacketAt(buffer[..], d))) && old(Abs().tx.CanReserve(1))
      ensures ok ==> Linked() && pc == Processing(rcvd, i + 1)
      ensures ok ==> PacketAt(buffer[..], d) == XskEcho.Pong(e, old(PacketAt(buffer[..], d)))
      ensures ok ==> sent == old(sent) + [d] && outstandingTx == old(outstandingTx) + 1
                     && stats == CountedTx(old(stats), d.len)
      ensures !ok ==> Holding(rcvd, i, d) && sent == old(sent) && outstandingTx == old(outstandingTx)
                      && stats == old(stats)
      ensures OwnFramesBut(old(Abs()), Abs(), old(buffer[..]), buffer[..], Frame(Chunk(d.addr)))
      ensures old(Abs()).rx.entries <= Abs().rx.entries
      ensures TxFree(Abs()) >= old(TxFree(Abs())) - if ok then 1 else 0
    {
      if c.echo {
        ok := EchoPacket(e, rcvd, i, d);
      } else {
        SameLentOwn(Abs(), Abs(), buffer[..], Frame(Chunk(d.addr)));
        ok := false;
      }
    }

    /** The lesson's solution. */
    method EchoPacket(e: Words.Endian, rcvd: nat, i: nat, d: Desc) returns (ok: bool)
      requires Holding(rcvd, i, d) && Linked() && c.echo
      requires Inside(d, buffer.Length) && !Lent(Abs(), Chunk(d.addr))
      modifies this`fq, this`rx, this`tx, this`cq, this`krx, this`ktx, this`outstandingTx, this`stats
      modifies this`pc, this`run, this`sent, buffer
      ensures old(run) <= run && rx.consumer == old(rx.consumer) && Concrete()
      ensures ok <==> XskEcho.IsPing(old(PacketAt(buffer[..], d))) && old(Abs().tx.CanReserve(1))
      ensures ok ==> Linked() && pc == Processing(rcvd, i + 1)
      ensures ok ==> PacketAt(buffer[..], d) == XskEcho.Pong(e, old(PacketAt(buffer[..], d)))
      ensures ok ==> sent == old(sent) + [d] && outstandingTx == old(outstandingTx) + 1
                     && stats == CountedTx(old(stats), d.len)
      ensures !ok ==> Holding(rcvd, i, d) && sent == old(sent) && outstandingTx == old(outstandingTx)
                      && stats == old(stats)
      ensures OwnFramesBut(old(Abs()), Abs(), old(buffer[..]), buffer[..], Frame(Chunk(d.addr)))
      ensures old(Abs()).rx.entries <= Abs().rx.entries
      ensures TxFree(Abs()) >= old(TxFree(Abs())) - if ok then 1 else 0
    {
      hide IsRun, Holding, Concrete, Abs, Add32, Lent, SameLent, OwnFramesBut, XskEcho.IsPing, XskEcho.Pong;
      ghost var start, bytes, f := Abs(), buffer[..], Frame(Chunk(d.addr));
      var isPing := RewriteAt(e, d);
      RewriteOwn(start, bytes, buffer[..], d);
      if !isPing {
        return false;
      }
      var at;
      ok, at := ReserveTx(rcvd, i, d);
      StepSince(start, start, Abs(), bytes, buffer[..], f);
      if ok {
        LentSame(start, Abs(), Chunk(d.addr));
        SendReserved(rcvd, i, d, at, start, bytes, f);
      }
    }

    /** The rewriting writes the packet's own frame only. */
    lemma RewriteOwn(s: Sys, b: seq<Words.byte>, b1: seq<Words.byte>, d: Desc)
      requires |b1| == |b|
      requires forall x {:trigger b1[x]} :: 0 <= x < |b| && Chunk(x) != Chunk(d.addr) ==> b1[x] == b[x]
      ensures OwnFramesBut(s, s, b, b1, Frame(Chunk(d.addr)))
    {
      hide Lent, Chunk;
    }

    method RewriteAt(e: Words.Endian, d: Desc) returns (isPing: bool)
      requires Inside(d, buffer.Length)
      modifies buffer
      ensures isPing == XskEcho.IsPing(old(PacketAt(buffer[..], d)))
      ensures isPing ==> PacketAt(buffer[..], d) == XskEcho.Pong(e, old(PacketAt(buffer[..], d)))
      ensures forall x {:trigger buffer[..][x]} :: 0 <= x < buffer.Length && Chunk(x) != Chunk(d.addr) ==>
                buffer[..][x] == old(buffer[..])[x]
    {
      hide Words.Splice, XskEcho.IsPing, XskEcho.Pong, Chunk;
      ghost var b := buffer[..];
      assert b[d.addr..d.addr + d.len] == buffer[d.addr..d.addr + d.len];
      isPing := XskEcho.RewritePing(e, buffer, d.addr, d.len);
      if isPing {
        ghost var reply := XskEcho.Pong(e, b[d.addr..d.addr + d.len]);
        SpliceBack(b, d.addr, reply);
        WritesOneFrame(d, b, reply);
      }
    }

    /** Asks for one TX slot. */
    method ReserveTx(rcvd: nat, i: nat, d: Desc) returns (ok: bool, at: idx)
      requires Holding(rcvd, i, d) && Linked() && c.echo
      modifies this`tx, this`pc, this`run
      ensures old(run) <= run && ok == old(Abs().tx.CanReserve(1))
      ensures Concrete() && SameLent(old(Abs()), Abs()) && Abs().rx == old(Abs()).rx
      ensures TxFree(Abs()) == old(TxFree(Abs())) - if ok then 1 else 0
      ensures ok ==> Linked() && pc == TxReserved(rcvd, i) && at == Add32(tx.producer, 0)
                     && i < |Abs().rx.entries| && Abs().rx.entries[i] == d
      ensures !ok ==> Holding(rcvd, i, d)
    {
      hide IsRun, Inv, Sub32, Add32, IsRingSize;
      InvNow();
      ProdReserve(tx, 1);
      ProdNbFree(tx, 1);
      ok := tx.CanReserve(1);
      at := tx.cachedProd;
      tx := tx.Reserve(1);
      if ok {
        Tick(TxReserved(rcvd, i));
      }
    }

    /** Gives back the frame of a packet that was not sent. */
    method DropPacket(rcvd: nat, i: nat, d: Desc)
      requires Holding(rcvd, i, d)
      modifies this`umemFrameFree, this`pc, this`run, umemFrameAddr
      ensures Linked() && old(run) <= run && pc == Processing(rcvd, i + 1)
      ensures SameLent(old(Abs()), Abs()) && Abs().rx == old(Abs()).rx && Abs().tx == old(Abs()).tx
    {
      hide Sub32, Add32, IsRingSize, Step, Conserved, Total;
      RunInv(c, run);
      ghost var s, mid := Last(run), Abs();
      RoomToFree(c, s);
      assert |mid.stack| == umemFrameFree;
      FreeUmemFrame(d.addr);
      DropIsStep(s, mid, d.addr, Processing(rcvd, i + 1));
      Tick(Processing(rcvd, i + 1));
    }

    /** A drop, after a refused TX slot or without asking for one. */
    lemma DropIsStep(s: Sys, mid: Sys, a: Addr, next: Pc)
      requires s.RingsValid() && s.pc.Processing? && s.pc.i < s.pc.rcvd && s.pc.i < |s.rx.entries|
      requires s.rx.entries[s.pc.i].addr == a && next == Processing(s.pc.rcvd, s.pc.i + 1)
      requires mid == s || (c.echo && !s.tx.CanReserve(1) && mid == s.(tx := s.tx.NbFree(1)))
      ensures Step(c, s, FreeTo(c, mid, a, next))
    {
    }

    /** One packet of the batch: sent as a reply or dropped, and counted. */
    method ProcessOne(e: Words.Endian, rcvd: nat, i: nat, at: idx, ghost d: Desc) returns (ghost out: seq<Desc>)
      requires Linked() && pc == Processing(rcvd, i) && i < rcvd && at == Add32(rx.consumer, i)
      requires i < |Abs().rx.entries| && Abs().rx.entries[i] == d
      modifies this`fq, this`rx, this`tx, this`cq, this`krx, this`ktx, this`umemFrameFree, this`outstandingTx
      modifies this`stats, this`pc, this`run, this`sent, umemFrameAddr, buffer
      ensures Linked() && old(run) <= run && pc == Processing(rcvd, i + 1) && rx.consumer == old(rx.consumer)
      ensures OwnFramesBut(old(Abs()), Abs(), old(buffer[..]), buffer[..], Frame(Chunk(d.addr)))
      ensures old(Abs()).rx.entries <= Abs().rx.entries
      ensures Outcome(e, d, old(buffer[..]), buffer[..], out)
      ensures out != [] <==> c.echo && WasPing(old(buffer[..]), d) && old(TxFree(Abs())) >= 1
      ensures TxFree(Abs()) >= old(TxFree(Abs())) - |out|
      ensures sent == old(sent) + out && outstandingTx == old(outstandingTx) + |out|
      ensures stats == CountedOne(old(stats), d.len, |out|)
    {
      hide IsRun, Inv, PcShape, Add32, Lent, Holding, OwnFramesBut, SameLent, Abs, Concrete, Chunk, PacketAt;
      hide XskEcho.IsPing, XskEcho.Pong;
      ghost var start, bytes := Abs(), buffer[..];
      var desc := HoldPacket(rcvd, i, at);
      OneSlotNow();
      var ok := ProcessPacket(e, rcvd, i, desc);
      if ok {
        out := [d];
      } else {
        out := [];
        ghost var s := Abs();
        DropPacket(rcvd, i, desc);
        StepSince(start, s, Abs(), bytes, buffer[..], Frame(Chunk(d.addr)));
      }
      stats := CountedRx(stats, desc.len);
    }

    lemma OneSlotNow()
      requires Concrete()
      ensures Abs().tx.Valid() && (Abs().tx.CanReserve(1) <==> TxFree(Abs()) >= 1)
    {
      hide Sub32, IsRingSize;
      OneSlotIff(Abs());
    }

    /** Reads the descriptor at index `at`. */
    method HoldPacket(rcvd: nat, i: nat, at: idx) returns (d: Desc)
      requires Linked() && pc == Processing(rcvd, i) && i < rcvd && at == Add32(rx.consumer, i)
      ensures Holding(rcvd, i, d) && Inside(d, buffer.Length) && !Lent(Abs(), Chunk(d.addr))
      ensures i < |Abs().rx.entries| && d == Abs().rx.entries[i]
    {
      hide Inv, Sub32, Add32, IsRingSize, Lent, IsRun;
      InvNow();
      ConsAt(rx, i);
      d := rx.At(at);
      RunRings();
      HeldNotLent(c, Abs(), i);
    }

    // -------------------------------------------------------------------------
    // A batch.

    method ReleaseRx(rcvd: nat)
      requires Linked() && pc == Processing(rcvd, rcvd)
      modifies this`rx, this`pc, this`run
      ensures Linked() && old(run) <= run && pc == NeedComplete && SameLent(old(Abs()), Abs())
    {
      hide IsRun, Inv, Sub32, Add32, IsRingSize;
      InvNow();
      ConsRelease(rx, rcvd);
      rx := rx.Release(rcvd);
      Tick(NeedComplete);
    }

    /** The loop over a batch: every descriptor sent is that of a ping of the batch,
        and its frame holds the reply to what had arrived there. */
    method ProcessAll(e: Words.Endian, rcvd: nat, first: idx, ghost batch: seq<Desc>, ghost arrived: seq<Words.byte>)
      returns (ghost replies: seq<Desc>)
      requires Linked() && pc == Processing(rcvd, 0) && first == Add32(rx.consumer, 0) && rcvd == |batch| < W
      requires Arrived(Abs(), buffer[..], batch, arrived)
      modifies this`fq, this`rx, this`tx, this`cq, this`krx, this`ktx, this`umemFrameFree, this`outstandingTx
      modifies this`stats, this`pc, this`run, this`sent, umemFrameAddr, buffer
      ensures Linked() && old(run) <= run && pc == Processing(rcvd, rcvd)
      ensures Handled(e, rcvd, Abs(), buffer[..], batch, arrived, replies)
      ensures sent == old(sent) + replies && outstandingTx == old(outstandingTx) + |replies|
      ensures stats == Counted(old(stats), 0, batch, replies)
      ensures Chosen(c.echo, old(TxFree(Abs())), batch, arrived, replies)
    {
      hide IsRun, Concrete, Abs, Add32, Handled, Counted, Arrived, TxFree, Chosen, WasPing;
      ghost var free := TxFree(Abs());
      StartHandling(e, batch, arrived);
      NoneChosen(free, batch, arrived);
      replies := [];
      CountNothing(stats);
      var at := first;
      for i := 0 to rcvd
        invariant Linked() && old(run) <= run && pc == Processing(rcvd, i)
        invariant at == Add32(rx.consumer, i) && batch <= Abs().rx.entries
        invariant Handled(e, i, Abs(), buffer[..], batch, arrived, replies)
        invariant sent == old(sent) + replies && outstandingTx == old(outstandingTx) + |replies|
        invariant stats == Counted(old(stats), 0, batch[..i], replies)
        invariant Chosen(c.echo, free, batch[..i], arrived, replies) && TxFree(Abs()) + |replies| >= free
      {
        ghost var slots := TxFree(Abs());
        ghost var out := ProcessNext(e, rcvd, i, at, batch, arrived, replies);
        CountOneMore(old(stats), batch, i, replies, out);
        ChosenOne(c.echo, free, batch, i, arrived, replies, out, slots);
        replies := replies + out;
        AddAdd(rx.consumer, i, 1);
        at := Add32(at, 1);
      }
      assert batch[..rcvd] == batch;
    }

    /** Kernel steps, then one packet of the batch. */
    method ProcessNext(e: Words.Endian, rcvd: nat, i: nat, at: idx,
                       ghost batch: seq<Desc>, ghost arrived: seq<Words.byte>, ghost replies: seq<Desc>)
      returns (ghost out: seq<Desc>)
      requires Linked() && pc == Processing(rcvd, i) && i < rcvd == |batch| && at == Add32(rx.consumer, i)
      requires Handled(e, i, Abs(), buffer[..], batch, arrived, replies) && batch <= Abs().rx.entries
      modifies this`fq, this`rx, this`tx, this`cq, this`krx, this`ktx, this`umemFrameFree, this`outstandingTx
      modifies this`stats, this`pc, this`run, this`sent, umemFrameAddr, buffer
      ensures Linked() && old(run) <= run && pc == Processing(rcvd, i + 1) && rx.consumer == old(rx.consumer)
      ensures Handled(e, i + 1, Abs(), buffer[..], batch, arrived, replies + out) && batch <= Abs().rx.entries
      ensures out == [] || out == [batch[i]]
      ensures sent == old(sent) + out && outstandingTx == old(outstandingTx) + |out|
      ensures stats == CountedOne(old(stats), batch[i].len, |out|)
      ensures out != [] ==> c.echo && WasPing(arrived, batch[i])
      ensures c.echo && WasPing(arrived, batch[i]) && out == [] ==> old(TxFree(Abs())) <= 0
      ensures TxFree(Abs()) >= old(TxFree(Abs())) - |out|
    {
      hide IsRun, Rely, Concrete, Abs, Add32, OwnFramesBut, Handled, Outcome, CountedOne, TxFree, WasPing;
      ghost var s, b := Abs(), buffer[..];
      Kernel();
      RelyOwn(s, Abs(), b, buffer[..], Any);
      HandledStays(e, i, s, Abs(), b, buffer[..], batch, arrived, replies);
      s, b := Abs(), buffer[..];
      StillAsArrived(e, i, s, b, batch, arrived, replies);
      out := ProcessOne(e, rcvd, i, at, batch[i]);
      OutcomeOut(e, batch[i], b, buffer[..], out);
      HandledOne(e, i, s, Abs(), b, buffer[..], batch, arrived, replies, out);
    }

    lemma NoneChosen(free: int, batch: seq<Desc>, arrived: seq<Words.byte>)
      ensures Chosen(c.echo, free, batch[..0], arrived, [])
    {
    }

    /** The packet whose turn it is has the bytes it arrived with. */
    lemma StillAsArrived(e: Words.Endian, i: nat, s: Sys, now: seq<Words.byte>, batch: seq<Desc>,
                         arrived: seq<Words.byte>, replies: seq<Desc>)
      requires Handled(e, i, s, now, batch, arrived, replies) && i < |batch|
      ensures WasPing(now, batch[i]) == WasPing(arrived, batch[i])
    {
      hide PacketAt, XskEcho.IsPing, Lent, Answered;
    }

    lemma OutcomeOut(e: Words.Endian, d: Desc, b: seq<Words.byte>, b1: seq<Words.byte>, out: seq<Desc>)
      requires Outcome(e, d, b, b1, out)
      ensures out == [] || out == [d]
    {
    }

    lemma StartHandling(e: Words.Endian, batch: seq<Desc>, arrived: seq<Words.byte>)
      requires Linked() && pc.Processing? && pc.i == 0 && Arrived(Abs(), buffer[..], batch, arrived)
      ensures Handled(e, 0, Abs(), buffer[..], batch, arrived, []) && batch <= Abs().rx.entries
    {
      hide Inv, PcShape, Handled, Concrete, IsRun;
      InvNow();
      BeginHandling(c, e, Abs(), buffer[..], batch, arrived);
    }

    /** Everything that follows a look at RX that found a batch. */
    method HandleBatch(e: Words.Endian, rcvd: nat, at: idx, ghost batch: seq<Desc>)
      returns (ghost arrived: seq<Words.byte>, ghost replies: seq<Desc>)
      requires Linked() && pc == NeedStock(rcvd) && at == Add32(rx.consumer, 0) && rcvd == |batch| < W
      requires batch <= Abs().rx.entries
      modifies this, umemFrameAddr, buffer
      ensures Linked() && pc == Idle && old(run) <= run && arrived == old(buffer[..])
      ensures Handled(e, rcvd, Abs(), buffer[..], batch, arrived, replies) && sent == old(sent) + replies
      ensures stats == Counted(old(stats), rcvd, batch, replies)
      ensures Chosen(c.echo, old(TxFree(Abs())), batch, arrived, replies)
    {
      hide IsRun, Concrete, Abs, Add32, Handled, Arrived, Counted, CountedPackets, TxFree, Chosen;
      hide AppStep, KernelStep, Answered, Linked;
      LinkedIsConcrete();
      ghost var free := TxFree(Abs());
      arrived := buffer[..];
      JustArrived(batch);
      KernelBefore(batch, arrived);
      Refill(rcvd, batch, arrived);
      LinkedIsConcrete();
      ghost var slots := TxFree(Abs());
      replies := ProcessAll(e, rcvd, at, batch, arrived);
      ChosenOfFewer(free, slots, batch, arrived, replies);
      EndBatch(e, rcvd, batch, arrived, replies);
      CountedThem(old(stats), rcvd, batch, replies);
    }

    lemma ChosenOfFewer(free: int, slots: int, batch: seq<Desc>, arrived: seq<Words.byte>, replies: seq<Desc>)
      requires free <= slots && Chosen(c.echo, slots, batch, arrived, replies)
      ensures Chosen(c.echo, free, batch, arrived, replies)
    {
    }

    /** What follows the loop: the batch is released and counted, sent frames are collected. */
    method EndBatch(e: Words.Endian, rcvd: nat, ghost batch: seq<Desc>, ghost arrived: seq<Words.byte>,
                    ghost replies: seq<Desc>)
      requires Linked() && pc == Processing(rcvd, rcvd) && Handled(e, rcvd, Abs(), buffer[..], batch, arrived, replies)
      modifies this`fq, this`rx, this`tx, this`cq, this`krx, this`ktx, this`umemFrameFree, this`outstandingTx
      modifies this`stats, this`pc, this`run, umemFrameAddr, buffer
      ensures Linked() && pc == Idle && old(run) <= run && Handled(e, rcvd, Abs(), buffer[..], batch, arrived, replies)
      ensures stats == CountedPackets(old(stats), rcvd)
    {
      hide IsRun, Rely, Concrete, Abs, Add32, OwnFramesBut, Handled, SameLent, CountedPackets;
      ghost var start, bytes := Abs(), buffer[..];
      Kernel();
      RelyOwn(start, Abs(), bytes, buffer[..], Any);
      ghost var s, b := Abs(), buffer[..];
      ReleaseRx(rcvd);
      StepSince(start, s, Abs(), bytes, b, Any);
      stats := CountedPackets(stats, rcvd);
      s := Abs();
      CompleteTx();
      OwnTransitive(start, s, Abs(), bytes, b, buffer[..], Any);
      HandledStays(e, rcvd, start, Abs(), bytes, buffer[..], batch, arrived, replies);
    }

    lemma JustArrived(batch: seq<Desc>)
      requires Linked() && pc.NeedStock? && batch <= Abs().rx.entries
      ensures Arrived(Abs(), buffer[..], batch, buffer[..])
    {
      hide Inv, PcShape, IsRun, Lent, Inside;
      InvNow();
      NoneDone(Abs());
      forall k {:trigger batch[k]} | 0 <= k < |batch|
        ensures Inside(batch[k], buffer.Length)
      {
        assert batch[k] == Abs().rx.entries[k];
        HeldNotLent(c, Abs(), k);
      }
    }

    /** `handle_receive_packets`; the kernel steps before every recorded step but
        the look at RX, which the caller lets it precede. The call extends the
        recorded run by a look at RX that hands out `batch` and, the program
        resting again, by every step that has to follow; being a run, it trips no
        assert, and every lemma about runs holds all along. It sends the
        descriptors `replies`, each that of a ping of the batch whose frame now
        holds the reply to the bytes that had arrived there: pings in order, none
        twice, all of them when TX has the slots, and none as shipped. */
    method HandleReceivePackets(e: Words.Endian) returns (ghost batch: seq<Desc>, ghost replies: seq<Desc>)
      requires Linked() && pc == Idle
      modifies this, umemFrameAddr, buffer
      ensures Linked() && pc == Idle && old(run) <= run && Began(|old(run)|, batch)
      ensures batch <= old(Abs()).rx.entries
      ensures var known := if old(Abs()).rx.seen == 0 then |old(Abs()).rx.entries| else old(Abs()).rx.seen;
              |batch| == if known > c.batch then c.batch else known
      ensures sent == old(sent) + replies
      ensures forall j {:trigger replies[j]} :: 0 <= j < |replies| ==>
                Answered(e, replies[j], batch, |batch|, old(buffer[..]), buffer[..])
      ensures Subsequence(replies, Pings(batch, old(buffer[..])))
      ensures !c.echo ==> replies == []
      ensures c.echo && |Pings(batch, old(buffer[..]))| <= old(TxFree(Abs())) ==>
                replies == Pings(batch, old(buffer[..]))
      ensures c.echo ==> |replies| == |Pings(batch, old(buffer[..]))| || |replies| >= old(TxFree(Abs()))
      ensures stats.rxPackets == (old(stats.rxPackets) + |batch|) % 0x1_0000_0000_0000_0000
      ensures stats.rxBytes == (old(stats.rxBytes) + TotalLen(batch)) % 0x1_0000_0000_0000_0000
      ensures stats.txPackets == (old(stats.txPackets) + |replies|) % 0x1_0000_0000_0000_0000
      ensures stats.txBytes == (old(stats.txBytes) + TotalLen(replies)) % 0x1_0000_0000_0000_0000
      ensures stats == if batch == [] then old(stats) else Counted(old(stats), |batch|, batch, replies)
    {
      hide IsRun, Rely, Concrete, Abs, Add32, AppStep, KernelStep, Answered, Counted;
      hide Chosen, Subsequence, Pings, TotalLen;
      ghost var start, arrived, free := |run|, buffer[..], TxFree(Abs());
      var rcvd, at;
      rcvd, at, batch := PeekRx();
      assert Began(start, batch);
      replies := [];
      if rcvd > 0 {
        arrived, replies := HandleBatch(e, rcvd, at, batch);
        assert Began(start, batch);
      } else {
        NoneChosen(free, batch, arrived);
        assert batch[..0] == batch;
      }
      ChosenMeans(free, batch, arrived, replies);
      CountedFields(old(stats), batch, replies);
    }

    lemma ChosenMeans(free: int, batch: seq<Desc>, arrived: seq<Words.byte>, replies: seq<Desc>)
      requires Chosen(c.echo, free, batch, arrived, replies)
      ensures Subsequence(replies, Pings(batch, arrived)) && (!c.echo ==> replies == [])
      ensures c.echo && |Pings(batch, arrived)| <= free ==> replies == Pings(batch, arrived)
      ensures c.echo ==> |replies| == |Pings(batch, arrived)| || |replies| >= free
    {
      AllAnswered(c.echo, free, batch, arrived, replies);
    }

    /** `rx_and_process`: the kernel steps, or the program waits, before each look. */
    method RxAndProcess(e: Words.Endian, turns: nat)
      requires Linked() && pc == Idle
      modifies this, umemFrameAddr, buffer
      ensures Linked() && pc == Idle && old(run) <= run && old(sent) <= sent && |run| >= |old(run)| + turns
    {
      hide IsRun, Rely, Concrete, Abs, AppStep, KernelStep, Answered, Counted;
      for i := 0 to turns
        invariant Linked() && pc == Idle && old(run) <= run && old(sent) <= sent && |run| >= |old(run)| + i
      {
        Kernel();
        ghost var batch, replies := HandleReceivePackets(e);
      }
    }
  }
}
