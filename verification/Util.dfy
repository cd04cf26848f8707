/** util/util.h: alignment and rounding on 64-bit words. */
module Util {
  import opened Bits
  import opened Ilog

  /** `align`: `(val + align - 1) & ~(align - 1)` on words of `w` bits. */
  function AlignWord(w: nat, val: nat, a: nat): nat
    requires 0 < a <= Pow2(w)
  {
    And(Wrap(w, val + a - 1), Not(w, a - 1))
  }

  const TWO_TO_63 := 0x8000_0000_0000_0000

  lemma WordHolds(a: nat)
    requires a <= TWO_TO_63
    ensures a <= Pow2(64)
  {
    hide Pow2;
    Pow2Values();
  }

  /** `align` on unsigned long. */
  function Align(val: nat, a: nat): nat
    requires 0 < a <= TWO_TO_63
  {
    WordHolds(a);
    AlignWord(64, val, a)
  }

  /** `align_down`: `align(val - (align - 1), align)`. */
  function AlignDown(val: nat, a: nat): nat
    requires 0 < a <= TWO_TO_63
  {
    WordHolds(a);
    Align(Wrap(64, val - (a - 1)), a)
  }

  function DivRoundUp(n: nat, d: nat): nat
    requires d > 0
  {
    (n + d - 1) / d
  }

  /** The shift count reaches 64, which C leaves undefined, for 0 and above 2^63. */
  function RoundupPowOfTwo(n: nat): nat
    requires 1 <= n <= TWO_TO_63
  {
    if n == 1 then 1 else Pow2(Ilog64(n - 1))
  }

  predicate Multiple(m: nat, a: nat)
    requires a > 0
  {
    m % a == 0
  }

  ghost predicate LeastMultipleFrom(r: nat, v: nat, a: nat)
    requires a > 0
  {
    Multiple(r, a) && r >= v && forall m: nat | Multiple(m, a) && m >= v :: r <= m
  }

  ghost predicate GreatestMultipleUpTo(r: nat, v: nat, a: nat)
    requires a > 0
  {
    Multiple(r, a) && r <= v && forall m: nat | Multiple(m, a) && m <= v :: m <= r
  }

  ghost predicate LeastPow2From(r: nat, n: nat) {
    IsPow2(r) && r >= n && forall p: nat | IsPow2(p) && p >= n :: r <= p
  }

  function FloorTo(s: nat, a: nat): nat
    requires a > 0
  {
    s - s % a
  }

  /** Two multiples of `a` less than `a` apart are equal. */
  lemma MultiplesApart(x: nat, y: nat, a: nat)
    requires a > 0 && Multiple(x, a) && Multiple(y, a) && x < y
    ensures x + a <= y
  {
    var p, q := x / a, y / a;
    assert x == p * a && y == q * a;
    if q <= p {
      MulLe(q, p, a);
    } else {
      MulLe(p + 1, q, a);
    }
  }

  /** The masks of `align` on a word of `w` bits: floor of the wrapped sum. */
  lemma MaskedAlign(s: nat, k: nat, w: nat)
    requires k < w
    ensures Pow2(k) < Pow2(w)
    ensures And(Wrap(w, s), Not(w, Pow2(k) - 1)) == FloorTo(Wrap(w, s), Pow2(k))
  {
    hide Pow2, And;
    Pow2Order(w, k);
    AndHigh(Wrap(w, s), k, w);
  }

  lemma AlignForm(w: nat, v: nat, k: nat)
    requires k < w
    ensures Pow2(k) < Pow2(w)
    ensures AlignWord(w, v, Pow2(k)) == FloorTo(Wrap(w, v + Pow2(k) - 1), Pow2(k))
  {
    MaskedAlign(v + Pow2(k) - 1, k, w);
  }

  lemma ExponentFits(k: nat)
    requires k < 64
    ensures Pow2(k) <= TWO_TO_63
    ensures Pow2(k) < Pow2(64)
  {
    hide Pow2;
    Pow2Order(k, 63);
    Pow2Values();
  }

  lemma RoundDown(s: nat, a: nat)
    requires a > 0
    ensures Multiple(FloorTo(s, a), a)
  {
    assert s - s % a == (s / a) * a;
    DivModUnique(s - s % a, a, s / a, 0);
  }

  /** Without wrapping, the low-bit arithmetic gives the least multiple. */
  lemma RoundUpIsLeast(v: nat, a: nat)
    requires a > 0
    ensures LeastMultipleFrom(FloorTo(v + a - 1, a), v, a)
  {
    var r := FloorTo(v + a - 1, a);
    RoundDown(v + a - 1, a);
    forall m: nat | Multiple(m, a) && m >= v
      ensures r <= m
    {
      if m < r { MultiplesApart(m, r, a); }
    }
  }

  lemma RoundUpWrapped(v: nat, a: nat, m: nat)
    requires 0 < a < m && v < m
    ensures LeastMultipleFrom(FloorTo((v + a - 1) % m, a), v, a) <==> v + a <= m
  {
    var s := v + a - 1;
    if s < m {
      DivModUnique(s, m, 0, s);
      RoundUpIsLeast(v, a);
    } else {
      DivModUnique(s, m, 1, s - m);
    }
  }

  /** `align` gives the least multiple of a power of two that is at least `v`
      exactly when that multiple fits the word. */
  lemma AlignIsLeastMultiple(v: nat, k: nat)
    requires k < 64 && v < Pow2(64)
    ensures Pow2(k) <= TWO_TO_63
    ensures LeastMultipleFrom(Align(v, Pow2(k)), v, Pow2(k)) <==> v + Pow2(k) <= Pow2(64)
  {
    hide Pow2, AlignWord, LeastMultipleFrom;
    ExponentFits(k);
    AlignForm(64, v, k);
    RoundUpWrapped(v, Pow2(k), Pow2(64));
  }

  /** When the least multiple does not fit, the result is 0: the multiple is 2^64. */
  lemma AlignOverflow(v: nat, k: nat)
    requires k < 64 && v < Pow2(64) && v + Pow2(k) > Pow2(64)
    ensures Pow2(k) <= TWO_TO_63
    ensures Align(v, Pow2(k)) == 0
  {
    hide Pow2, AlignWord;
    ExponentFits(k);
    AlignForm(64, v, k);
    var a, m := Pow2(k), Pow2(64);
    DivModUnique(v + a - 1, m, 1, v + a - 1 - m);
    DivModUnique(v + a - 1 - m, a, 0, v + a - 1 - m);
  }

  lemma AlignDownForm(w: nat, v: nat, k: nat)
    requires k < w && v < Pow2(w)
    ensures Pow2(k) < Pow2(w)
    ensures AlignWord(w, Wrap(w, v - (Pow2(k) - 1)), Pow2(k)) == FloorTo(v, Pow2(k))
  {
    hide Pow2, AlignWord, FloorTo, Wrap;
    Pow2Order(w, k);
    AlignForm(w, Wrap(w, v - (Pow2(k) - 1)), k);
    WrapsCancel(w, v, Pow2(k));
  }

  lemma WrapsCancel(w: nat, v: nat, a: nat)
    requires 0 < a && v < Pow2(w)
    ensures Wrap(w, Wrap(w, v - (a - 1)) + a - 1) == v
  {
    hide Pow2;
    AddMod(v - (a - 1), a - 1, Pow2(w));
    DivModUnique(v, Pow2(w), 0, v);
  }

  lemma RoundDownIsGreatest(v: nat, a: nat)
    requires a > 0
    ensures GreatestMultipleUpTo(FloorTo(v, a), v, a)
  {
    var r := FloorTo(v, a);
    RoundDown(v, a);
    forall x: nat | Multiple(x, a) && x <= v
      ensures x <= r
    {
      if r < x { MultiplesApart(r, x, a); }
    }
  }

  /** `align_down` is the greatest multiple for every word: when `v < a - 1` the
      subtraction and the addition both wrap, and the two wraps cancel. */
  lemma AlignDownIsGreatestMultiple(v: nat, k: nat)
    requires k < 64 && v < Pow2(64)
    ensures Pow2(k) <= TWO_TO_63
    ensures GreatestMultipleUpTo(AlignDown(v, Pow2(k)), v, Pow2(k))
  {
    hide Pow2, AlignWord, GreatestMultipleUpTo;
    ExponentFits(k);
    AlignDownForm(64, v, k);
    RoundDownIsGreatest(v, Pow2(k));
  }

  /** `roundup_pow_of_two` is the least power of two from `n` up, on its whole domain. */
  lemma RoundupIsLeastPow2(n: nat)
    requires 1 <= n <= TWO_TO_63
    ensures LeastPow2From(RoundupPowOfTwo(n), n)
    ensures RoundupPowOfTwo(n) < 2 * n
  {
    if n == 1 {
      assert Pow2(0) == 1;
    } else {
      hide Pow2, IsPow2, IlogClz, BitLength, LeastPow2From;
      Pow2Values();
      IlogClzCorrect(64, n - 1, 0);
      BitLengthBounds(n - 1);
      Pow2BoundsGiveLeast(n, BitLength(n - 1));
    }
  }

  lemma Pow2BoundsGiveLeast(n: nat, len: nat)
    requires len > 0 && Pow2(len - 1) < n <= Pow2(len)
    ensures LeastPow2From(Pow2(len), n)
  {
    forall p: nat | IsPow2(p) && p >= n
      ensures Pow2(len) <= p
    {
      var k: nat :| p == Pow2(k);
      Pow2Order(k, len - 1);
      Pow2Order(len, k);
    }
  }

  /** The shift of `roundup_pow_of_two` is one C defines exactly on this domain: for 0 the
      subtraction wraps and the logarithm is 64, as it is above 2^63. */
  lemma RoundupDefinedIff(n: nat)
    requires n < Pow2(64)
    ensures n == 1 || Ilog64(Wrap(64, n - 1)) < 64 <==> 1 <= n <= TWO_TO_63
  {
    hide Pow2, IlogClz, BitLength;
    var m := Wrap(64, n - 1);
    Pow2Values();
    IlogClzCorrect(64, m, 0);
    if n == 0 {
      DivModUnique(-1, Pow2(64), -1, Pow2(64) - 1);
    } else {
      WrapKeeps(64, n - 1);
    }
    if m > 0 {
      BitLengthBounds(m);
      Pow2Order(BitLength(m), 63);
      if BitLength(m) >= 64 { Pow2Order(63, BitLength(m) - 1); }
    }
  }

  /** A power of two rounds to itself, and rounding stays within the exponent bound. */
  lemma RoundupBound(n: nat, k: nat)
    requires 1 <= n <= Pow2(k) && k <= 63
    ensures n <= TWO_TO_63
    ensures n <= RoundupPowOfTwo(n) <= Pow2(k)
  {
    assert IsPow2(Pow2(k));
    hide Pow2, IsPow2, RoundupPowOfTwo;
    Pow2Order(k, 63);
    Pow2Values();
    RoundupIsLeastPow2(n);
    assert LeastPow2From(RoundupPowOfTwo(n), n);
  }
}
