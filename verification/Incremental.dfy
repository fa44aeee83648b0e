/** The incremental checksum updates: `csum_replace2` of the AF_XDP program and
    the `bpf_csum_diff` plus `csum_fold_helper` form of the XDP programs, both
    instances of Eqn. 3 in section 3 of RFC 1624. */
module Incremental {
  import opened Words
  import opened Checksum

  const ONES32: u32 := 0xFFFF_FFFF

  function Not16(x: u16): u16 { 0xFFFF - x }

  // ---------------------------------------------------------------------------
  // The 16-bit form.

  function Csum16Add(csum: u16, addend: u16): u16 {
    var res := (csum + addend) % 0x1_0000;
    (res + if res < addend then 1 else 0) % 0x1_0000
  }

  function Csum16Sub(csum: u16, addend: u16): u16 {
    Csum16Add(csum, Not16(addend))
  }

  /** The new value of the checksum field when one word goes from `old` to `new_`. */
  function CsumReplace2(sum: u16, old_: u16, new_: u16): u16 {
    Not16(Csum16Add(Csum16Sub(Not16(sum), old_), new_))
  }

  /** The wrapped 16-bit add with its carry test is one's-complement addition. */
  lemma Csum16AddIsOcAdd(csum: u16, addend: u16)
    ensures Csum16Add(csum, addend) == OcAdd(csum, addend)
  {
    if csum + addend > 0xFFFF {
      assert (csum + addend) % 0x1_0000 == csum + addend - 0x1_0000;
    }
  }

  // ---------------------------------------------------------------------------
  // The 32-bit form.

  function CsumFoldHelper(csum: u32): u16 {
    var sum := csum / 0x1_0000 + csum % 0x1_0000;
    var sum2 := sum + sum / 0x1_0000;
    Not16(sum2 % 0x1_0000)
  }

  /** Two folds are enough for every 32-bit input. */
  lemma FoldIsComplement(csum: u32)
    ensures CsumFoldHelper(csum) == ONES - Canon(csum)
  {
    var h, l := csum / 0x1_0000, csum % 0x1_0000;
    assert csum == h + l + 0xFFFF * h;
    var c := OcAdd(h, l);
    if h + l <= 0xFFFF {
      assert (h + l) / 0x1_0000 == 0;
    } else {
      assert (h + l) / 0x1_0000 == 1;
      assert (h + l + 1) % 0x1_0000 == h + l + 1 - 0x1_0000;
    }
    if csum > 0 {
      CanonUnique(csum, c, if h + l > 0xFFFF then h + 1 else h);
    }
  }

  function OcAdd32(a: u32, b: u32): u32 {
    if a + b > ONES32 then a + b - ONES32 else a + b
  }

  function Load32(e: Endian, s: seq<byte>): u32
    requires 4 <= |s|
  {
    var a, b := Host16(e, s, 0), Host16(e, s, 2);
    if e.Big? then a * 0x1_0000 + b else b * 0x1_0000 + a
  }

  /** Adds every 32-bit word of `s`, complemented when `negate`, to `acc`. */
  function AddWords(e: Endian, s: seq<byte>, negate: bool, acc: u32): u32
    requires |s| % 4 == 0
  {
    if s == [] then acc
    else
      var w := Load32(e, s);
      AddWords(e, s[4..], negate, OcAdd32(acc, if negate then ONES32 - w else w))
  }

  /** The assumed meaning of the `bpf_csum_diff` helper: `seed` minus the words
      of `from` plus the words of `to`, as a 32-bit one's-complement sum. */
  function BpfCsumDiff(e: Endian, from: seq<byte>, to: seq<byte>, seed: u32): u32
    requires |from| % 4 == 0 && |to| % 4 == 0
  {
    AddWords(e, to, false, AddWords(e, from, true, seed))
  }

  predicate AllOnes(s: seq<byte>) {
    forall i :: 0 <= i < |s| ==> s[i] == 0xFF
  }

  /** `a` and `b` have the same residue modulo 0xFFFF. */
  ghost predicate Same(a: int, b: int) {
    IsZeroMod(a - b)
  }

  lemma SameBy(a: int, b: int, q: int)
    requires a == b + 0xFFFF * q
    ensures Same(a, b)
  {
    ZeroModBy(a - b, q);
  }

  lemma SameWitness(a: int, b: int) returns (q: int)
    requires Same(a, b)
    ensures a == b + 0xFFFF * q
  {
    q :| a - b == Times(q);
  }

  lemma SameSymmetric(a: int, b: int)
    requires Same(a, b)
    ensures Same(b, a)
  {
    var q := SameWitness(a, b);
    SameBy(b, a, -q);
  }

  lemma SameTransitive(a: int, b: int, c: int)
    requires Same(a, b) && Same(b, c)
    ensures Same(a, c)
  {
    var q := SameWitness(a, b);
    var r := SameWitness(b, c);
    SameBy(a, c, q + r);
  }

  lemma SameZero(a: int, b: int)
    requires Same(a, b)
    ensures IsZeroMod(a) <==> IsZeroMod(b)
  {
    var q := SameWitness(a, b);
    ZeroModIff(a, q, b);
  }

  lemma SameAdd(a: int, b: int, c: int, d: int)
    requires Same(a, b) && Same(c, d)
    ensures Same(a + c, b + d)
  {
    var q := SameWitness(a, b);
    var r := SameWitness(c, d);
    SameBy(a + c, b + d, q + r);
  }

  lemma CanonSame(a: nat, b: nat)
    requires Same(a, b) && (a == 0 <==> b == 0)
    ensures Canon(a) == Canon(b)
  {
    if a > 0 {
      var q := SameWitness(a, b);
      var r := (b - 1) / 0xFFFF;
      CanonUnique(a, Canon(b), q + r);
    }
  }

  lemma Load32Halves(e: Endian, s: seq<byte>)
    requires 4 <= |s|
    ensures Same(Load32(e, s), Host16(e, s, 0) + Host16(e, s, 2))
    ensures Same(ONES32 - Load32(e, s), -(Host16(e, s, 0) + Host16(e, s, 2)))
    ensures Load32(e, s) == 0 <==> AllZero(s[..4])
    ensures Load32(e, s) == ONES32 <==> AllOnes(s[..4])
  {
    var a: int, b: int := Host16(e, s, 0), Host16(e, s, 2);
    var hi: int := if e.Big? then a else b;
    SameBy(Load32(e, s), a + b, hi);
    SameBy(ONES32 - Load32(e, s), -(a + b), 0x1_0001 - hi);
    var t := s[..4];
    assert s[0] == t[0] && s[1] == t[1] && s[2] == t[2] && s[3] == t[3];
  }

  lemma OcAdd32Same(a: u32, b: u32)
    ensures Same(OcAdd32(a, b), a + b)
    ensures OcAdd32(a, b) == 0 <==> a == 0 && b == 0
  {
    SameBy(OcAdd32(a, b), a + b, if a + b > ONES32 then -0x1_0001 else 0);
  }

  /** Summing 32-bit words gives the residue of the 16-bit sum, and zero only
      when nothing but zeros was added. */
  lemma {:induction false} AddWordsSame(e: Endian, s: seq<byte>, negate: bool, acc: u32)
    requires |s| % 4 == 0
    ensures Same(AddWords(e, s, negate, acc), if negate then acc - Sum(e, s) else acc + Sum(e, s))
    ensures AddWords(e, s, negate, acc) == 0 <==> acc == 0 && if negate then AllOnes(s) else AllZero(s)
  {
    hide AllOnes, AllZero, Same, OcAdd32, Sum, Load32;
    if s == [] {
      SameBy(acc, acc, 0);
      NothingIn(e, s);
    } else {
      var w := Load32(e, s);
      var x := if negate then ONES32 - w else w;
      var sum2: int := Host16(e, s, 0) + Host16(e, s, 2);
      Load32Halves(e, s);
      SplitAll(s);
      AddWordsSame(e, s[4..], negate, OcAdd32(acc, x));
      SumHalves(e, s);
      var t: int := if negate then -(Sum(e, s[4..]) as int) else Sum(e, s[4..]);
      AddStep(acc, x, if negate then -sum2 else sum2, AddWords(e, s, negate, acc), t);
    }
  }

  lemma NothingIn(e: Endian, s: seq<byte>)
    requires s == []
    ensures AllOnes(s) && AllZero(s) && Sum(e, s) == 0
  {
  }

  lemma SumHalves(e: Endian, s: seq<byte>)
    requires 4 <= |s|
    ensures Sum(e, s) == Host16(e, s, 0) as int + Host16(e, s, 2) + Sum(e, s[4..])
  {
    assert s[2..][2..] == s[4..];
    assert Host16(e, s, 2) == FirstWord(e, s[2..]);
  }

  lemma AddStep(acc: u32, x: u32, m: int, r: int, t: int)
    requires Same(x, m) && Same(r, OcAdd32(acc, x) + t)
    ensures Same(r, acc + m + t)
    ensures OcAdd32(acc, x) == 0 <==> acc == 0 && x == 0
  {
    OcAdd32Same(acc, x);
    SameBy(acc + t, acc + t, 0);
    SameAdd(x, m, acc + t, acc + t);
    SameBy(t, t, 0);
    SameAdd(OcAdd32(acc, x), acc + x, t, t);
    SameTransitive(r, OcAdd32(acc, x) + t, acc + x + t);
    SameTransitive(r, acc + x + t, acc + m + t);
  }

  lemma SplitAll(s: seq<byte>)
    requires 4 <= |s|
    ensures AllZero(s) <==> AllZero(s[..4]) && AllZero(s[4..])
    ensures AllOnes(s) <==> AllOnes(s[..4]) && AllOnes(s[4..])
  {
    assert s == s[..4] + s[4..];
  }

  lemma DiffSame(e: Endian, from: seq<byte>, to: seq<byte>, seed: u32)
    requires |from| % 4 == 0 && |to| % 4 == 0
    ensures Same(BpfCsumDiff(e, from, to, seed), seed - Sum(e, from) + Sum(e, to))
    ensures BpfCsumDiff(e, from, to, seed) == 0 <==> seed == 0 && AllOnes(from) && AllZero(to)
  {
    hide Same, AllOnes, AllZero, AddWords, Sum;
    var mid := AddWords(e, from, true, seed);
    AddWordsSame(e, from, true, seed);
    AddWordsSame(e, to, false, mid);
    SameBy(Sum(e, to), Sum(e, to), 0);
    SameAdd(mid, seed - Sum(e, from), Sum(e, to), Sum(e, to));
    SameTransitive(BpfCsumDiff(e, from, to, seed), mid + Sum(e, to), seed - Sum(e, from) + Sum(e, to));
  }

  // ---------------------------------------------------------------------------
  // What an incremental update does to a whole segment.

  /** Core of both forms. The data of a segment sums to `d`; a field computed as
      the complement of `v`, where `v` has the residue the old segment gives,
      is judged here once for every way of computing `v`. */
  lemma FieldFrom(e: Endian, s1: seq<byte>, k: nat, v: nat, oldSum: nat, f: u16)
    requires k % 2 == 0 && k + 2 <= |s1|
    requires f == ONES - Canon(v)
    requires Same(Sum(e, Cleared(s1, k)), oldSum + v)
    ensures var s2 := Splice(s1, k, Store16(e, f));
            && (ChecksumOk(s2) <==> IsZeroMod(oldSum) && (v == 0 || !AllZero(Cleared(s1, k))))
            && (Exact(e, s2, k) <==> IsZeroMod(oldSum) && (v == 0 <==> AllZero(Cleared(s1, k))))
  {
    var s2 := Splice(s1, k, Store16(e, f));
    FieldResidue(e, s1, k, v, oldSum, f);
    OkIff(e, s2);
    ExactIff(e, s2, k);
    ClearedZero(e, s2, k);
    CanonOnes(v);
    if AllZero(Cleared(s1, k)) && IsZeroMod(oldSum) {
      SumZero(e, Cleared(s1, k));
      SameZero(0, oldSum + v);
      ZeroModBy(0, 0);
      var q :| oldSum == Times(q);
      SameBy(oldSum + v, v, q);
      SameZero(oldSum + v, v);
    }
  }

  lemma FieldResidue(e: Endian, s1: seq<byte>, k: nat, v: nat, oldSum: nat, f: u16)
    requires k % 2 == 0 && k + 2 <= |s1|
    requires f == ONES - Canon(v)
    requires Same(Sum(e, Cleared(s1, k)), oldSum + v)
    ensures var s2 := Splice(s1, k, Store16(e, f));
            && Cleared(s2, k) == Cleared(s1, k) && Host16(e, s2, k) == f
            && (IsZeroMod(Sum(e, s2)) <==> IsZeroMod(oldSum))
  {
    var s2 := Splice(s1, k, Store16(e, f));
    var d := Sum(e, Cleared(s1, k));
    assert Cleared(s2, k) == Cleared(s1, k);
    assert Host16(e, s2, k) == f;
    ClearedSum(e, s2, k);
    var t := CanonWitness(v);
    SameBy(f, -(v as int), 1 + t);
    SameAdd(d, oldSum + v, f, -(v as int));
    SameZero(Sum(e, s2), oldSum);
  }

  lemma CanonWitness(n: nat) returns (q: nat)
    ensures n == Canon(n) + 0xFFFF * q
  {
    q := if n == 0 then 0 else (n - 1) / 0xFFFF;
  }

  /** The complemented field `csum_replace2` computes, before the final `~`. */
  function Replace2Sum(c: u16, m0: u16, m1: u16): u16 {
    OcAdd(OcAdd(Not16(c), Not16(m0)), m1)
  }

  lemma Replace2Value(c: u16, m0: u16, m1: u16)
    ensures var v := Replace2Sum(c, m0, m1);
            && CsumReplace2(c, m0, m1) == ONES - Canon(v)
            && Same(v, Not16(c) as int - m0 + m1)
            && (v == 0 <==> c == ONES && m0 == ONES && m1 == 0)
  {
    var u := OcAdd(Not16(c), Not16(m0));
    var v := OcAdd(u, m1);
    Csum16AddIsOcAdd(Not16(c), Not16(m0));
    Csum16AddIsOcAdd(u, m1);
    assert Canon(v) == v;
    SameBy(v, Not16(c) as int - m0 + m1,
           (if u < Not16(c) + Not16(m0) then 0 else 1) - if v < u + m1 then 1 else 0);
  }

  /** From a residue known for `v` to the one `FieldFrom` asks for. */
  lemma SameShift(d: int, oldSum: int, v: int, x: int)
    requires Same(v, x) && d == oldSum + x - 0xFFFF
    ensures Same(d, oldSum + v)
  {
    var q := SameWitness(v, x);
    SameBy(d, oldSum + v, -1 - q);
  }

  /** `csum_replace2` over a segment of any length, the word at `j` replaced.
      Its field is bit for bit the recomputed one exactly when the new data is
      not all zero, provided the old field was. A receiver accepts the result
      exactly when the old sum was a multiple of 0xFFFF, leaving aside the
      all-zero segments. */
  lemma CsumReplace2Exact(e: Endian, s: seq<byte>, k: nat, j: nat, new_: seq<byte>)
    requires k % 2 == 0 && j % 2 == 0 && k != j && k + 2 <= |s| && j + 2 <= |s| && |new_| == 2
    ensures var (c, m0, m1) := (Host16(e, s, k), Host16(e, s, j), Load16(e, new_[0], new_[1]));
            var s1 := Splice(s, j, new_);
            var s2 := Splice(s1, k, Store16(e, CsumReplace2(c, m0, m1)));
            && (Exact(e, s, k) ==> (Exact(e, s2, k) <==> !AllZero(Cleared(s1, k))))
            && (ChecksumOk(s2) <==>
                  && (ChecksumOk(s) || AllZero(s))
                  && (!AllZero(Cleared(s1, k)) || (c == ONES && m0 == ONES && m1 == 0)))
  {
    var c, m0, m1 := Host16(e, s, k), Host16(e, s, j), Load16(e, new_[0], new_[1]);
    Replace2Value(c, m0, m1);
    Replace2Segment(e, s, k, j, new_, Replace2Sum(c, m0, m1), CsumReplace2(c, m0, m1));
    OkOrZero(e, s);
    if Exact(e, s, k) {
      ExactAllOnes(e, s, k, j);
    }
  }

  lemma Replace2Segment(e: Endian, s: seq<byte>, k: nat, j: nat, new_: seq<byte>, v: nat, f: u16)
    requires k % 2 == 0 && j % 2 == 0 && k != j && k + 2 <= |s| && j + 2 <= |s| && |new_| == 2
    requires f == ONES - Canon(v)
    requires Same(v, Not16(Host16(e, s, k)) as int - Host16(e, s, j) + Load16(e, new_[0], new_[1]))
    ensures var s1 := Splice(s, j, new_);
            var s2 := Splice(s1, k, Store16(e, f));
            && (ChecksumOk(s2) <==> IsZeroMod(Sum(e, s)) && (v == 0 || !AllZero(Cleared(s1, k))))
            && (Exact(e, s2, k) <==> IsZeroMod(Sum(e, s)) && (v == 0 <==> AllZero(Cleared(s1, k))))
  {
    Replace2Data(e, s, k, j, new_, v);
    FieldFrom(e, Splice(s, j, new_), k, v, Sum(e, s), f);
  }

  lemma Apart(j: nat, k: nat)
    requires j % 2 == 0 && k % 2 == 0 && j != k
    ensures j + 2 <= k || k + 2 <= j
  {
  }

  lemma Replace2Data(e: Endian, s: seq<byte>, k: nat, j: nat, new_: seq<byte>, v: nat)
    requires k % 2 == 0 && j % 2 == 0 && k != j && k + 2 <= |s| && j + 2 <= |s| && |new_| == 2
    requires Same(v, Not16(Host16(e, s, k)) as int - Host16(e, s, j) + Load16(e, new_[0], new_[1]))
    ensures Same(Sum(e, Cleared(Splice(s, j, new_), k)), Sum(e, s) + v)
  {
    var c: int, m0: int, m1: int := Host16(e, s, k), Host16(e, s, j), Load16(e, new_[0], new_[1]);
    var s1 := Splice(s, j, new_);
    SumSplice(e, s, j, new_);
    ClearedSum(e, s1, k);
    assert Host16(e, s1, k) == c by { Apart(j, k); }
    SameShift(Sum(e, Cleared(s1, k)), Sum(e, s), v, 0xFFFF - c - m0 + m1);
  }

  lemma OkOrZero(e: Endian, s: seq<byte>)
    ensures IsZeroMod(Sum(e, s)) <==> ChecksumOk(s) || AllZero(s)
  {
    OkIff(e, s);
    SumZero(e, s);
    ZeroModBy(0, 0);
  }

  /** An exact field is all ones only when every other word is zero. */
  lemma ExactAllOnes(e: Endian, s: seq<byte>, k: nat, j: nat)
    requires k % 2 == 0 && j % 2 == 0 && k != j && k + 2 <= |s| && j + 2 <= |s|
    requires Exact(e, s, k)
    ensures ChecksumOk(s)
    ensures Host16(e, s, k) == ONES ==> Host16(e, s, j) == 0
  {
    ExactIff(e, s, k);
    if Wire16(s, k) == ONES {
      var d := Cleared(s, k);
      assert d[j] == 0 && d[j + 1] == 0 && s[j] == d[j] && s[j + 1] == d[j + 1];
    }
  }

  /** The `bpf_csum_diff` form over a segment of any length: a header of 4-byte
      words around the field is rewritten, its field cleared in both copies.
      The new segment is accepted exactly when the old sum was a multiple of
      0xFFFF and the new data is not all zero; then the field is also the
      recomputed one. */
  lemma DiffReplaceExact(e: Endian, s: seq<byte>, k: nat, j: nat, to: seq<byte>)
    requires k % 2 == 0 && j % 2 == 0 && |to| % 4 == 0
    requires j <= k && k + 2 <= j + |to| <= |s|
    requires to[k - j] == 0 && to[k - j + 1] == 0
    ensures var s0 := Cleared(s, k);
            var s1 := Splice(s0, j, to);
            var f := CsumFoldHelper(BpfCsumDiff(e, s0[j..j + |to|], to, Not16(Host16(e, s, k))));
            var s2 := Splice(s1, k, Store16(e, f));
            && (ChecksumOk(s2) <==> (ChecksumOk(s) || AllZero(s)) && !AllZero(s1))
            && (Exact(e, s2, k) <==> ChecksumOk(s2))
  {
    var s0 := Cleared(s, k);
    var c := Host16(e, s, k);
    var from := s0[j..j + |to|];
    var v := BpfCsumDiff(e, from, to, Not16(c));
    DiffSame(e, from, to, Not16(c));
    assert from[k - j] == 0;
    FoldIsComplement(v);
    DiffSegment(e, s, k, j, to, v, CsumFoldHelper(v));
    OkOrZero(e, s);
  }

  lemma DiffSegment(e: Endian, s: seq<byte>, k: nat, j: nat, to: seq<byte>, v: nat, f: u16)
    requires k % 2 == 0 && j % 2 == 0 && |to| % 4 == 0
    requires j <= k && k + 2 <= j + |to| <= |s|
    requires to[k - j] == 0 && to[k - j + 1] == 0
    requires f == ONES - Canon(v) && v > 0
    requires Same(v, Not16(Host16(e, s, k)) - Sum(e, Cleared(s, k)[j..j + |to|]) + Sum(e, to))
    ensures var s1 := Splice(Cleared(s, k), j, to);
            var s2 := Splice(s1, k, Store16(e, f));
            && (ChecksumOk(s2) <==> IsZeroMod(Sum(e, s)) && !AllZero(s1))
            && (Exact(e, s2, k) <==> ChecksumOk(s2))
  {
    DiffCleared(s, k, j, to);
    DiffData(e, s, k, j, to, v);
    FieldFrom(e, Splice(Cleared(s, k), j, to), k, v, Sum(e, s), f);
  }

  lemma DiffCleared(s: seq<byte>, k: nat, j: nat, to: seq<byte>)
    requires j <= k && k + 2 <= j + |to| <= |s|
    requires to[k - j] == 0 && to[k - j + 1] == 0
    ensures Cleared(Splice(Cleared(s, k), j, to), k) == Splice(Cleared(s, k), j, to)
  {
  }

  lemma DiffData(e: Endian, s: seq<byte>, k: nat, j: nat, to: seq<byte>, v: nat)
    requires k % 2 == 0 && j % 2 == 0 && |to| % 4 == 0
    requires j <= k && k + 2 <= j + |to| <= |s|
    requires to[k - j] == 0 && to[k - j + 1] == 0
    requires Same(v, Not16(Host16(e, s, k)) - Sum(e, Cleared(s, k)[j..j + |to|]) + Sum(e, to))
    ensures Same(Sum(e, Splice(Cleared(s, k), j, to)), Sum(e, s) + v)
  {
    var s0 := Cleared(s, k);
    SumRegion(e, s0, j, to);
    ClearedSum(e, s, k);
    SameShift(Sum(e, Splice(s0, j, to)), Sum(e, s), v,
              Not16(Host16(e, s, k)) - Sum(e, s0[j..j + |to|]) + Sum(e, to));
  }

  lemma EvenOf4(n: nat)
    requires n % 4 == 0
    ensures n % 2 == 0
  {
    var q := n / 4;
    assert n / 2 == 2 * q;
  }

  lemma SumRegion(e: Endian, s: seq<byte>, j: nat, to: seq<byte>)
    requires j % 2 == 0 && |to| % 4 == 0 && j + |to| <= |s|
    ensures Sum(e, Splice(s, j, to)) == Sum(e, s) - Sum(e, s[j..j + |to|]) + Sum(e, to)
  {
    EvenOf4(|to|);
    var from, tail := s[j..j + |to|], s[j + |to|..];
    assert s == s[..j] + (from + tail);
    assert Splice(s, j, to) == s[..j] + (to + tail);
    SumConcat(e, s[..j], from + tail);
    SumConcat(e, from, tail);
    SumConcat(e, s[..j], to + tail);
    SumConcat(e, to, tail);
  }

  /** The comment beside the echo program: patching one 16-bit word and diffing
      the 32-bit header give the same field, for every code byte and every
      word except in one case, an old word and old field of all ones going to
      a zero word. */
  lemma FormsAgreeIff(e: Endian, c: u16, m0: seq<byte>, m1: seq<byte>)
    requires |m0| == 2 && |m1| == 2
    ensures CsumReplace2(c, Load16(e, m0[0], m0[1]), Load16(e, m1[0], m1[1]))
            == CsumFoldHelper(BpfCsumDiff(e, m0 + [0, 0], m1 + [0, 0], Not16(c)))
            <==> !(c == ONES && Load16(e, m0[0], m0[1]) == ONES && Load16(e, m1[0], m1[1]) == 0)
  {
    var from, to := m0 + [0, 0], m1 + [0, 0];
    var a, b := Load16(e, m0[0], m0[1]), Load16(e, m1[0], m1[1]);
    var v := BpfCsumDiff(e, from, to, Not16(c));
    DiffSame(e, from, to, Not16(c));
    assert from[2] == 0;
    SumConcat(e, m0, [0, 0]);
    SumConcat(e, m1, [0, 0]);
    SumPair(e, m0);
    SumPair(e, m1);
    SumPair(e, [0, 0]);
    FoldIsComplement(v);
    Replace2Value(c, a, b);
    var u := Replace2Sum(c, a, b);
    var x := Not16(c) as int - a + b;
    SameSymmetric(u, x);
    SameTransitive(v, x, u);
    if u > 0 {
      CanonSame(v, u);
    } else {
      SameZero(v, 0);
      CanonOnes(v);
    }
  }
}
