/** The Internet checksum as sections 1 and 2 of RFC 1071 define it: the
    one's-complement sum of the 16-bit words of a segment of any length, an odd
    last byte being padded with a zero byte. */
module Checksum {
  import opened Words

  const ONES: u16 := 0xFFFF

  /** One's-complement addition: a carry out of bit 15 is added back in. */
  function OcAdd(a: u16, b: u16): u16 {
    if a + b > 0xFFFF then a + b - 0xFFFF else a + b
  }

  /** The word at the front of a non-empty segment. */
  function FirstWord(e: Endian, s: seq<byte>): u16
    requires s != []
  {
    Load16(e, s[0], if |s| == 1 then 0 else s[1])
  }

  function Rest(s: seq<byte>): (r: seq<byte>)
    requires s != []
    ensures |r| < |s|
  {
    if |s| == 1 then [] else s[2..]
  }

  /** The one's-complement sum, word by word. */
  function OcSum(e: Endian, s: seq<byte>): u16
    decreases |s|
  {
    if s == [] then 0 else OcAdd(FirstWord(e, s), OcSum(e, Rest(s)))
  }

  /** A receiver accepts a segment, checksum field included, when it sums to all ones. */
  predicate ChecksumOk(s: seq<byte>) {
    OcSum(Big, s) == ONES
  }

  /** The segment with its checksum field cleared. */
  function Cleared(s: seq<byte>, k: nat): seq<byte>
    requires k + 2 <= |s|
  {
    Splice(s, k, [0, 0])
  }

  /** What a sender writes into the field at `k`: the complement of the sum of the rest. */
  function Recompute(e: Endian, s: seq<byte>, k: nat): u16
    requires k + 2 <= |s|
  {
    ONES - OcSum(e, Cleared(s, k))
  }

  predicate Exact(e: Endian, s: seq<byte>, k: nat)
    requires k + 2 <= |s|
  {
    Host16(e, s, k) == Recompute(e, s, k)
  }

  // ---------------------------------------------------------------------------
  // The plain sum of words, and one's-complement values as residues.

  function Sum(e: Endian, s: seq<byte>): nat
    decreases |s|
  {
    if s == [] then 0 else FirstWord(e, s) + Sum(e, Rest(s))
  }

  /** The representative in 1..0xFFFF of a positive sum modulo 0xFFFF; zero only for zero. */
  function Canon(n: nat): u16 {
    if n == 0 then 0 else (n - 1) % 0xFFFF + 1
  }

  lemma CanonUnique(n: nat, c: u16, k: int)
    requires n > 0 && c > 0 && n == c + 0xFFFF * k
    ensures Canon(n) == c
  {
  }

  lemma CanonSmall(a: u16)
    ensures Canon(a) == a
  {
  }

  lemma CanonAdd(a: nat, b: nat)
    ensures Canon(a + b) == OcAdd(Canon(a), Canon(b))
  {
    if a > 0 && b > 0 {
      var i, j := (a - 1) / 0xFFFF, (b - 1) / 0xFFFF;
      assert a == Canon(a) + 0xFFFF * i && b == Canon(b) + 0xFFFF * j;
      var c := OcAdd(Canon(a), Canon(b));
      CanonUnique(a + b, c, if Canon(a) + Canon(b) > 0xFFFF then i + j + 1 else i + j);
    }
  }

  /** The end-around-carry sum is the plain sum reduced modulo 0xFFFF, and is
      zero exactly when the plain sum is. */
  lemma {:induction false} OcSumIsCanon(e: Endian, s: seq<byte>)
    ensures OcSum(e, s) == Canon(Sum(e, s))
    decreases |s|
  {
    if s != [] {
      OcSumIsCanon(e, Rest(s));
      CanonAdd(FirstWord(e, s), Sum(e, Rest(s)));
      CanonSmall(FirstWord(e, s));
    }
  }

  lemma {:induction false} SumConcat(e: Endian, s: seq<byte>, t: seq<byte>)
    requires |s| % 2 == 0
    ensures Sum(e, s + t) == Sum(e, s) + Sum(e, t)
  {
    if s == [] {
      assert s + t == t;
    } else {
      assert (s + t)[2..] == s[2..] + t;
      SumConcat(e, s[2..], t);
    }
  }

  lemma SumPair(e: Endian, bs: seq<byte>)
    requires |bs| == 2
    ensures Sum(e, bs) == Load16(e, bs[0], bs[1])
  {
    assert Rest(bs) == [];
  }

  /** Replacing the word at an even offset changes the sum by the difference. */
  lemma SumSplice(e: Endian, s: seq<byte>, k: nat, bs: seq<byte>)
    requires k % 2 == 0 && |bs| == 2 && k + 2 <= |s|
    ensures Sum(e, Splice(s, k, bs)) == Sum(e, s) - Host16(e, s, k) + Load16(e, bs[0], bs[1])
  {
    var w := s[k..k + 2];
    assert s == s[..k] + (w + s[k + 2..]);
    assert Splice(s, k, bs) == s[..k] + (bs + s[k + 2..]);
    SumConcat(e, s[..k], w + s[k + 2..]);
    SumConcat(e, w, s[k + 2..]);
    SumConcat(e, s[..k], bs + s[k + 2..]);
    SumConcat(e, bs, s[k + 2..]);
    SumPair(e, w);
    SumPair(e, bs);
  }

  lemma {:induction false} SumZero(e: Endian, s: seq<byte>)
    ensures Sum(e, s) == 0 <==> AllZero(s)
    decreases |s|
  {
    if s != [] {
      SumZero(e, Rest(s));
      assert forall i :: 2 <= i < |s| ==> s[i] == Rest(s)[i - 2];
      if AllZero(Rest(s)) && FirstWord(e, s) == 0 {
        assert AllZero(s);
      }
    }
  }

  /** Sum of the bytes at even offsets: the carry between the two byte orders. */
  function EvenSum(s: seq<byte>): nat
    decreases |s|
  {
    if s == [] then 0 else s[0] + EvenSum(Rest(s))
  }

  lemma {:induction false} LittleIsShiftedBig(s: seq<byte>)
    ensures 0x100 * Sum(Big, s) == Sum(Little, s) + 0xFFFF * EvenSum(s)
    decreases |s|
  {
    if s != [] {
      LittleIsShiftedBig(Rest(s));
    }
  }

  function Times(q: int): int { 0xFFFF * q }

  /** `n` is a multiple of 0xFFFF, a zero of one's-complement arithmetic. */
  ghost predicate IsZeroMod(n: int) {
    exists q :: n == Times(q)
  }

  lemma ZeroModDef(n: int)
    ensures IsZeroMod(n) <==> n % 0xFFFF == 0
  {
    if n % 0xFFFF == 0 {
      assert n == Times(n / 0xFFFF);
    }
  }

  lemma ZeroModBy(n: int, q: int)
    requires n == 0xFFFF * q
    ensures IsZeroMod(n)
  {
    assert n == Times(q);
  }

  lemma ZeroModIff(n: int, q: int, m: int)
    requires n == 0xFFFF * q + m
    ensures IsZeroMod(n) <==> IsZeroMod(m)
  {
    if IsZeroMod(n) {
      var r :| n == Times(r);
      ZeroModBy(m, r - q);
    }
    if IsZeroMod(m) {
      var r :| m == Times(r);
      ZeroModBy(n, r + q);
    }
  }

  lemma ZeroModShift(n: int)
    ensures IsZeroMod(0x100 * n) <==> IsZeroMod(n)
  {
    if IsZeroMod(n) {
      var q :| n == Times(q);
      ZeroModBy(0x100 * n, 0x100 * q);
    }
    if IsZeroMod(0x100 * n) {
      var q :| 0x100 * n == Times(q);
      ZeroModBy(n, 0x100 * q - n);
    }
  }

  /** Section 2(B) of RFC 1071: the sum is a multiple of 0xFFFF in one byte
      order exactly when it is in the other. */
  lemma ByteOrderIndependent(s: seq<byte>)
    ensures IsZeroMod(Sum(Big, s)) <==> IsZeroMod(Sum(Little, s))
  {
    LittleIsShiftedBig(s);
    ZeroModShift(Sum(Big, s));
    ZeroModIff(0x100 * Sum(Big, s), EvenSum(s), Sum(Little, s));
  }

  lemma CanonOnes(n: nat)
    ensures Canon(n) == ONES <==> IsZeroMod(n) && n > 0
  {
    ZeroModDef(n);
  }

  /** A segment is accepted when its sum, in either byte order, is a positive
      multiple of 0xFFFF. */
  lemma OkIff(e: Endian, s: seq<byte>)
    ensures ChecksumOk(s) <==> IsZeroMod(Sum(e, s)) && !AllZero(s)
    ensures ChecksumOk(s) <==> OcSum(e, s) == ONES
  {
    OcSumIsCanon(Big, s);
    OcSumIsCanon(e, s);
    SumZero(Big, s);
    SumZero(e, s);
    CanonOnes(Sum(Big, s));
    CanonOnes(Sum(e, s));
    ByteOrderIndependent(s);
  }

  /** The definition in numbers: big-endian words are added, an odd last byte as a
      high one, and the sum has to be a positive multiple of 0xFFFF. */
  lemma OkByNumbers(a: byte, b: byte, rest: seq<byte>, s: seq<byte>)
    ensures Sum(Big, []) == 0 && Sum(Big, [a]) == a as int * 256
    ensures Sum(Big, [a, b] + rest) == a as int * 256 + b + Sum(Big, rest)
    ensures ChecksumOk(s) <==> Sum(Big, s) % 0xFFFF == 0 && Sum(Big, s) > 0
  {
    assert ([a, b] + rest)[2..] == rest && Rest([a]) == [];
    OkIff(Big, s);
    SumZero(Big, s);
    ZeroModDef(Sum(Big, s));
  }

  lemma ClearedSum(e: Endian, s: seq<byte>, k: nat)
    requires k % 2 == 0 && k + 2 <= |s|
    ensures Sum(e, s) == Sum(e, Cleared(s, k)) + Host16(e, s, k)
  {
    SumSplice(e, s, k, [0, 0]);
  }

  lemma CanonComplement(d: nat, c: u16)
    ensures c == ONES - Canon(d) <==> IsZeroMod(d + c) && (c == ONES <==> d == 0)
  {
    if d > 0 {
      var q := (d - 1) / 0xFFFF;
      assert d == Canon(d) + 0xFFFF * q && 1 <= Canon(d) <= 0xFFFF;
      ZeroModIff(d + c, q, Canon(d) + c);
      ZeroModDef(Canon(d) + c);
    } else {
      ZeroModDef(c);
    }
  }

  lemma ClearedZero(e: Endian, s: seq<byte>, k: nat)
    requires k + 2 <= |s|
    ensures AllZero(s) <==> AllZero(Cleared(s, k)) && Host16(e, s, k) == 0
    ensures Host16(e, s, k) == ONES <==> Wire16(s, k) == ONES
  {
    var d := Cleared(s, k);
    if AllZero(d) && Host16(e, s, k) == 0 {
      forall i | 0 <= i < |s|
        ensures s[i] == 0
      {
        assert i < k || k + 2 <= i ==> s[i] == d[i];
      }
    }
  }

  /** The field is the recomputed one exactly when the segment is accepted and
      the field is all ones only over all-zero data. No byte order appears on
      the right, so an exact field is exact on every host. */
  lemma ExactIff(e: Endian, s: seq<byte>, k: nat)
    requires k % 2 == 0 && k + 2 <= |s|
    ensures Exact(e, s, k) <==>
              ChecksumOk(s) && (Wire16(s, k) == ONES <==> AllZero(Cleared(s, k)))
  {
    var d := Cleared(s, k);
    ClearedSum(e, s, k);
    OcSumIsCanon(e, d);
    SumZero(e, d);
    OkIff(e, s);
    ClearedZero(e, s, k);
    CanonComplement(Sum(e, d), Host16(e, s, k));
  }
}
