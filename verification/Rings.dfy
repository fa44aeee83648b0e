/** The rings shared with the kernel. Index arithmetic is 32-bit and free-running;
    the queues below it are what the rings stand for. `reserve`, `submit`, `peek`
    and `release` are libxdp's, so their functions here are the assumed interface. */
module Rings {

  const W: int := 0x1_0000_0000

  type idx = x: int | 0 <= x < 0x1_0000_0000

  function Add32(a: idx, n: nat): idx { (a + n) % W }

  function Sub32(a: idx, b: idx): idx { (a - b) % W }

  // ---------------------------------------------------------------------------
  // Queues: a producer's and a consumer's view, with what the other side does.

  /** `published` is visible to the kernel, `reserved` not yet; `stale` counts the
      entries the kernel has taken since the cached consumer index was read. */
  datatype ProdQ<T> = ProdQ(size: nat, published: seq<T>, reserved: seq<T>, stale: nat) {
    predicate Valid() {
      |published| + |reserved| + stale <= size
    }

    /** The free slots as the cached consumer index shows them. */
    function CachedFree(): nat
      requires Valid()
    {
      size - |published| - |reserved| - stale
    }

    /** The free slots there are. */
    function Free(): nat
      requires Valid()
    {
      size - |published| - |reserved|
    }

    function Refreshed(): ProdQ<T> { this.(stale := 0) }

    /** `xsk_prod_nb_free`: refreshes only when the cached count is below `nb`. */
    function NbFree(nb: nat): ProdQ<T>
      requires Valid()
    {
      if CachedFree() >= nb then this else Refreshed()
    }

    /** The queue `q` is what a successful or failed `reserve(nb)` leaves. */
    ghost predicate Reserves(nb: nat, q: ProdQ<T>)
      requires Valid()
    {
      var r := NbFree(nb);
      if r.CachedFree() < nb then q == r
      else q == r.(reserved := q.reserved) && |q.reserved| == |r.reserved| + nb && r.reserved <= q.reserved
    }

    predicate CanReserve(nb: nat)
      requires Valid()
    {
      NbFree(nb).CachedFree() >= nb
    }

    function Submit(nb: nat): ProdQ<T>
      requires nb <= |reserved|
    {
      this.(published := published + reserved[..nb], reserved := reserved[nb..])
    }

    /** The kernel takes the oldest published entry. */
    function Taken(): ProdQ<T>
      requires published != []
    {
      this.(published := published[1..], stale := stale + 1)
    }
  }

  /** `entries` are published by the kernel and not released; of these the first
      `peeked` are handed out and the first `seen` known to the application. */
  datatype ConsQ<T> = ConsQ(size: nat, entries: seq<T>, seen: nat, peeked: nat) {
    predicate Valid() {
      peeked <= seen <= |entries| <= size
    }

    /** `xsk_cons_nb_avail`: looks at the producer index only when nothing known is left. */
    function Looked(): ConsQ<T>
      requires Valid()
    {
      if seen == peeked then this.(seen := |entries|) else this
    }

    /** How many entries `peek(nb)` hands out. */
    function Avail(nb: nat): nat
      requires Valid()
    {
      var n := Looked().seen - peeked;
      if n > nb then nb else n
    }

    function Peek(nb: nat): ConsQ<T>
      requires Valid()
    {
      Looked().(peeked := peeked + Avail(nb))
    }

    function Release(nb: nat): ConsQ<T>
      requires Valid() && nb <= peeked
    {
      ConsQ(size, entries[nb..], seen - nb, peeked - nb)
    }

    /** The kernel appends an entry. */
    function Put(x: T): ConsQ<T> {
      this.(entries := entries + [x])
    }
  }

  // ---------------------------------------------------------------------------
  // Index arithmetic.

  /** Sizes a ring can have: they divide 2^32, as powers of two do. */
  ghost predicate IsRingSize(size: nat) {
    0 < size < W && exists m: nat :: Product(size, m) == W
  }

  function Product(a: int, b: int): int { a * b }

  /** Distances from a common base subtract, whatever has wrapped. */
  lemma SubDiff(a: idx, b: idx, base: idx)
    requires Sub32(b, base) <= Sub32(a, base)
    ensures Sub32(a, b) == Sub32(a, base) - Sub32(b, base)
  {
    WrapCases(a, base);
    WrapCases(b, base);
    WrapCases(a, b);
  }

  lemma WrapCases(a: idx, b: idx)
    ensures Sub32(a, b) == if b <= a then a - b else a - b + W
  {
  }

  lemma AddCases(a: idx, n: nat)
    requires n < W
    ensures Add32(a, n) == if a + n < W then a + n else a + n - W
  {
  }

  lemma SubAdd(a: idx, base: idx, n: nat)
    requires Sub32(a, base) + n < W
    ensures Sub32(Add32(a, n), base) == Sub32(a, base) + n
  {
    WrapCases(a, base);
    AddCases(a, n);
    WrapCases(Add32(a, n), base);
  }

  lemma SubMoved(a: idx, base: idx, n: nat)
    requires n <= Sub32(a, base)
    ensures Sub32(a, Add32(base, n)) == Sub32(a, base) - n
  {
    WrapCases(a, base);
    AddCases(base, n);
    WrapCases(a, Add32(base, n));
  }

  lemma AddSub(a: idx, base: idx)
    ensures Add32(base, Sub32(a, base)) == a
  {
    WrapCases(a, base);
    AddCases(base, Sub32(a, base));
  }

  lemma AddAdd(a: idx, m: nat, n: nat)
    requires m + n < W
    ensures Add32(Add32(a, m), n) == Add32(a, m + n)
  {
    AddCases(a, m);
    AddCases(Add32(a, m), n);
    AddCases(a, m + n);
  }

  /** The ring slot of an index: the index masked, the size being a power of two. */
  function Slot(x: idx, size: nat): nat
    requires 0 < size
  {
    x % size
  }

  lemma {:induction false} ProductAtLeast(s: int, d: nat)
    requires 0 < s && 1 <= d
    ensures Product(s, d) >= s
  {
    if d > 1 {
      ProductAtLeast(s, d - 1);
      ProductMinus(s, d, 1);
    }
  }

  lemma ProductMinus(s: int, p: int, q: int)
    ensures Product(s, p) - Product(s, q) == Product(s, p - q)
  {
  }

  lemma QuotientUnique(s: int, p: int, r: int, q: int, t: int)
    requires 0 <= r < s && 0 <= t < s && Product(s, p) + r == Product(s, q) + t
    ensures p == q && r == t
  {
    hide Product;
    ProductMinus(s, q, p);
    ProductMinus(s, p, q);
    if p < q {
      ProductAtLeast(s, q - p);
    } else if q < p {
      ProductAtLeast(s, p - q);
    }
  }

  lemma ModUnique(x: int, s: int, q: int, t: int)
    requires 0 < s && x == s * q + t && 0 <= t < s
    ensures x % s == t
  {
    QuotientUnique(s, x / s, x % s, q, t);
  }

  lemma ModInjective(a: int, b: int, s: int)
    requires 0 < s && a % s == b % s && -s < a - b < s
    ensures a == b
  {
    var d := a - b;
    var p, q, r := a / s, b / s, b % s;
    assert a == s * p + r && b == s * q + r;
    if d >= 0 {
      QuotientUnique(s, p, 0, q, d);
    } else {
      QuotientUnique(s, p, -d, q, 0);
    }
  }

  /** Wrapping an index does not change its slot. */
  lemma SlotOfSum(a: idx, n: nat, size: nat)
    requires IsRingSize(size) && n < W
    ensures Slot(Add32(a, n), size) == (a + n) % size
  {
    AddCases(a, n);
    if a + n >= W {
      var m: nat :| Product(size, m) == W;
      var r := (a + n) % size;
      var q := (a + n) / size;
      assert a + n - W == size * q + r - size * m == size * (q - m) + r;
      ModUnique(a + n - W, size, q - m, r);
    }
  }

  /** Within a window of `size` indices no two share a slot. */
  lemma SlotsDistinct(base: idx, i: nat, j: nat, size: nat)
    requires IsRingSize(size) && i < size && j < size
    requires Slot(Add32(base, i), size) == Slot(Add32(base, j), size)
    ensures i == j
  {
    SlotOfSum(base, i, size);
    SlotOfSum(base, j, size);
    ModInjective(base + i, base + j, size);
  }

  lemma SlotBound(x: idx, size: nat)
    requires 0 < size
    ensures Slot(x, size) < size
  {
  }

  /** `n` entries read from the ring, starting at index `from`. */
  function Read<T>(ring: seq<T>, from: idx, n: nat): (s: seq<T>)
    requires 0 < |ring|
    ensures |s| == n
    ensures forall j {:trigger s[j]} :: 0 <= j < n ==> s[j] == ring[Slot(Add32(from, j), |ring|)]
  {
    seq(n, j requires 0 <= j => ring[Slot(Add32(from, j), |ring|)])
  }

  lemma ReadSplit<T>(ring: seq<T>, from: idx, m: nat, n: nat)
    requires 0 < |ring| && m + n < W
    ensures Read(ring, from, m + n) == Read(ring, from, m) + Read(ring, Add32(from, m), n)
  {
    var a, b, c := Read(ring, from, m + n), Read(ring, from, m), Read(ring, Add32(from, m), n);
    forall j | 0 <= j < m + n
      ensures a[j] == (b + c)[j]
    {
      if m <= j {
        AddAdd(from, m, j - m);
      }
    }
  }

  /** A write to the slot of entry `k` of a window changes that entry only. */
  lemma ReadWrite<T>(ring: seq<T>, from: idx, n: nat, k: nat, x: T)
    requires IsRingSize(|ring|) && n <= |ring| && k < |ring|
    ensures Slot(Add32(from, k), |ring|) < |ring|
    ensures var r := ring[Slot(Add32(from, k), |ring|) := x];
            Read(r, from, n) == if k < n then Read(ring, from, n)[k := x] else Read(ring, from, n)
  {
    SlotBound(Add32(from, k), |ring|);
    var at := Slot(Add32(from, k), |ring|);
    var r := ring[at := x];
    var a, b := Read(r, from, n), Read(ring, from, n);
    forall j | 0 <= j < n
      ensures a[j] == if j == k then x else b[j]
    {
      if j != k && Slot(Add32(from, j), |ring|) == at {
        SlotsDistinct(from, j, k, |ring|);
      }
    }
  }

  // ---------------------------------------------------------------------------
  // A producer ring.

  /** `struct xsk_ring_prod`: the cached indices belong to the application, the
      published ones are shared. `size` is the length of `ring`. */
  datatype Prod<T> = Prod(cachedProd: idx, cachedCons: idx, producer: idx, consumer: idx, ring: seq<T>) {

    ghost predicate Valid() {
      && IsRingSize(|ring|)
      && Sub32(producer, consumer) <= Sub32(cachedProd, consumer) <= Sub32(cachedCons, consumer) <= |ring|
    }

    /** The queue this ring stands for; no index but through a difference. */
    ghost function Queue(): (q: ProdQ<T>)
      requires Valid()
      ensures q.Valid() && q.size == |ring|
      ensures |q.published| == Sub32(producer, consumer)
      ensures |q.reserved| == Sub32(cachedProd, consumer) - Sub32(producer, consumer)
      ensures q.stale == |ring| - Sub32(cachedCons, consumer)
    {
      var np, nt := Sub32(producer, consumer), Sub32(cachedProd, consumer);
      ProdQ(|ring|, Read(ring, consumer, np), Read(ring, producer, nt - np),
            |ring| - Sub32(cachedCons, consumer))
    }

    /** `xsk_ring_prod__free`: reads the consumer index, shifted by the size. */
    function Refresh(): Prod<T> {
      this.(cachedCons := Add32(consumer, |ring|))
    }

    function CachedFree(): idx {
      Sub32(cachedCons, cachedProd)
    }

    function NbFree(nb: nat): Prod<T> {
      if CachedFree() >= nb then this else Refresh()
    }

    predicate CanReserve(nb: nat) {
      NbFree(nb).CachedFree() >= nb
    }

    /** What `reserve` answers: all the slots asked for, or none. */
    function Granted(nb: nat): nat {
      if CanReserve(nb) then nb else 0
    }

    /** The index handed out is the old `cachedProd`. */
    function Reserve(nb: nat): Prod<T> {
      if CanReserve(nb) then NbFree(nb).(cachedProd := Add32(cachedProd, nb)) else NbFree(nb)
    }

    /** Writes the slot of index `at`. */
    function Fill(at: idx, x: T): Prod<T>
      requires 0 < |ring|
    {
      this.(ring := ring[Slot(at, |ring|) := x])
    }

    function Submit(nb: nat): Prod<T> {
      this.(producer := Add32(producer, nb))
    }

    /** The kernel reads the slot at the consumer index and moves on. */
    function Head(): T
      requires 0 < |ring|
    {
      ring[Slot(consumer, |ring|)]
    }

    function Take(): Prod<T> {
      this.(consumer := Add32(consumer, 1))
    }
  }

  /** The wrapped free count is the queue's, across any number of wraps: it never
      overstates the free space, and is exact after a refresh. */
  lemma ProdFree<T>(r: Prod<T>)
    requires r.Valid()
    ensures r.CachedFree() == r.Queue().CachedFree() <= r.Queue().Free()
    ensures r.Refresh().Valid() && r.Refresh().Queue() == r.Queue().Refreshed()
    ensures r.Refresh().CachedFree() == r.Queue().Free()
  {
    SubDiff(r.cachedCons, r.cachedProd, r.consumer);
    WrapCases(r.consumer, r.consumer);
    SubAdd(r.consumer, r.consumer, |r.ring|);
    SubDiff(r.Refresh().cachedCons, r.cachedProd, r.consumer);
  }

  lemma ProdNbFree<T>(r: Prod<T>, nb: nat)
    requires r.Valid()
    ensures r.NbFree(nb).Valid() && r.NbFree(nb).Queue() == r.Queue().NbFree(nb)
    ensures r.NbFree(nb).CachedFree() == r.Queue().NbFree(nb).CachedFree()
    ensures r.CanReserve(nb) == r.Queue().CanReserve(nb)
  {
    ProdFree(r);
  }

  lemma ProdReserve<T>(r: Prod<T>, nb: nat)
    requires r.Valid()
    ensures r.Reserve(nb).Valid() && r.Queue().Reserves(nb, r.Reserve(nb).Queue())
    ensures r.CanReserve(nb) ==>
              r.cachedProd == Add32(r.producer, |r.Queue().reserved|)
  {
    ProdNbFree(r, nb);
    var s, t := r.NbFree(nb), r.Reserve(nb);
    SubDiff(r.cachedProd, r.producer, r.consumer);
    AddSub(r.cachedProd, r.producer);
    if r.CanReserve(nb) {
      SubDiff(s.cachedCons, s.cachedProd, s.consumer);
      SubAdd(s.cachedProd, s.consumer, nb);
      ReadSplit(r.ring, r.producer, |s.Queue().reserved|, nb);
    }
  }

  /** Writing the slot of the `k`-th reserved index sets that entry and no other. */
  lemma ProdFill<T>(r: Prod<T>, k: nat, x: T)
    requires r.Valid() && k < |r.Queue().reserved|
    ensures var t := r.Fill(Add32(r.producer, k), x);
            t.Valid() && t.Queue() == r.Queue().(reserved := r.Queue().reserved[k := x])
  {
    var np := Sub32(r.producer, r.consumer);
    AddSub(r.producer, r.consumer);
    AddAdd(r.consumer, np, k);
    ReadWrite(r.ring, r.consumer, np, np + k, x);
    ReadWrite(r.ring, r.producer, |r.Queue().reserved|, k, x);
  }

  lemma ProdSubmit<T>(r: Prod<T>, nb: nat)
    requires r.Valid() && nb <= |r.Queue().reserved|
    ensures r.Submit(nb).Valid() && r.Submit(nb).Queue() == r.Queue().Submit(nb)
  {
    var np, nt := Sub32(r.producer, r.consumer), Sub32(r.cachedProd, r.consumer);
    SubAdd(r.producer, r.consumer, nb);
    AddSub(r.producer, r.consumer);
    ReadSplit(r.ring, r.consumer, np, nb);
    ReadSplit(r.ring, r.producer, nb, nt - np - nb);
  }

  lemma ProdTake<T>(r: Prod<T>)
    requires r.Valid() && r.Queue().published != []
    ensures r.Take().Valid() && r.Take().Queue() == r.Queue().Taken() && r.Head() == r.Queue().published[0]
  {
    SubMoved(r.producer, r.consumer, 1);
    SubMoved(r.cachedProd, r.consumer, 1);
    SubMoved(r.cachedCons, r.consumer, 1);
    AddCases(r.consumer, 0);
    ReadSplit(r.ring, r.consumer, 1, Sub32(r.producer, r.consumer) - 1);
  }

  // ---------------------------------------------------------------------------
  // A consumer ring.

  /** `struct xsk_ring_cons`. */
  datatype Cons<T> = Cons(cachedProd: idx, cachedCons: idx, producer: idx, consumer: idx, ring: seq<T>) {

    ghost predicate Valid() {
      && IsRingSize(|ring|)
      && Sub32(cachedCons, consumer) <= Sub32(cachedProd, consumer) <= Sub32(producer, consumer) <= |ring|
    }

    ghost function Queue(): (q: ConsQ<T>)
      requires Valid()
      ensures q.Valid() && q.size == |ring|
      ensures |q.entries| == Sub32(producer, consumer)
      ensures q.seen == Sub32(cachedProd, consumer) && q.peeked == Sub32(cachedCons, consumer)
    {
      ConsQ(|ring|, Read(ring, consumer, Sub32(producer, consumer)),
            Sub32(cachedProd, consumer), Sub32(cachedCons, consumer))
    }

    function Looked(): Cons<T> {
      if Sub32(cachedProd, cachedCons) == 0 then this.(cachedProd := producer) else this
    }

    function Avail(nb: nat): nat {
      var n := Sub32(Looked().cachedProd, cachedCons);
      if n > nb then nb else n
    }

    /** The index handed out is the old `cachedCons`. */
    function Peek(nb: nat): Cons<T> {
      Looked().(cachedCons := Add32(cachedCons, Avail(nb)))
    }

    /** Reads the slot of index `at`. */
    function At(at: idx): T
      requires 0 < |ring|
    {
      ring[Slot(at, |ring|)]
    }

    function Release(nb: nat): Cons<T> {
      this.(consumer := Add32(consumer, nb))
    }

    /** The kernel writes the slot at the producer index and moves on. */
    function Put(x: T): Cons<T>
      requires 0 < |ring|
    {
      this.(ring := ring[Slot(producer, |ring|) := x], producer := Add32(producer, 1))
    }
  }

  lemma ConsPeek<T>(r: Cons<T>, nb: nat)
    requires r.Valid()
    ensures r.Avail(nb) == r.Queue().Avail(nb)
    ensures r.Peek(nb).Valid() && r.Peek(nb).Queue() == r.Queue().Peek(nb)
    ensures r.cachedCons == Add32(r.consumer, r.Queue().peeked)
  {
    SubDiff(r.cachedProd, r.cachedCons, r.consumer);
    SubDiff(r.producer, r.cachedCons, r.consumer);
    SubAdd(r.cachedCons, r.consumer, r.Avail(nb));
    AddSub(r.cachedCons, r.consumer);
  }

  lemma ConsAt<T>(r: Cons<T>, k: nat)
    requires r.Valid() && k < |r.Queue().entries|
    ensures r.At(Add32(r.consumer, k)) == r.Queue().entries[k]
  {
  }

  lemma ConsRelease<T>(r: Cons<T>, nb: nat)
    requires r.Valid() && nb <= r.Queue().peeked
    ensures r.Release(nb).Valid() && r.Release(nb).Queue() == r.Queue().Release(nb)
  {
    SubMoved(r.producer, r.consumer, nb);
    SubMoved(r.cachedProd, r.consumer, nb);
    SubMoved(r.cachedCons, r.consumer, nb);
    ReadSplit(r.ring, r.consumer, nb, Sub32(r.producer, r.consumer) - nb);
  }

  lemma ConsPut<T>(r: Cons<T>, x: T)
    requires r.Valid() && |r.Queue().entries| < |r.ring|
    ensures r.Put(x).Valid() && r.Put(x).Queue() == r.Queue().Put(x)
  {
    var n := Sub32(r.producer, r.consumer);
    AddSub(r.producer, r.consumer);
    SubAdd(r.producer, r.consumer, 1);
    ReadWrite(r.ring, r.consumer, n + 1, n, x);
    ReadSplit(r.ring, r.consumer, n, 1);
    ReadSplit(r.Put(x).ring, r.consumer, n, 1);
  }
}
