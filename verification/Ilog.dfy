/** ccan/ilog.h: the integer logarithm, as the compile-time cascade and as the
    count-leading-zeros form, both against one reference: the bit length. */
module Ilog {
  import opened Bits

  /** The number of binary digits of `v`; 0 for 0. */
  ghost function BitLength(v: nat): nat {
    if v == 0 then 0 else 1 + BitLength(v / 2)
  }

  lemma {:induction false} BitLengthBounds(v: nat)
    requires v > 0
    ensures BitLength(v) > 0
    ensures Pow2(BitLength(v) - 1) <= v < Pow2(BitLength(v))
  {
    if v != 1 {
      BitLengthBounds(v / 2);
    }
  }

  /** The bounds determine the length. */
  lemma BitLengthUnique(v: nat, n: nat)
    requires n > 0 && Pow2(n - 1) <= v < Pow2(n)
    ensures BitLength(v) == n
  {
    BitLengthBounds(v);
    var m := BitLength(v);
    if m < n { Pow2Order(m, n - 1); }
    if n < m { Pow2Order(n, m - 1); }
  }

  /** Dropping `k` low bits of a number of at least `2^k` shortens it by `k`. */
  lemma {:induction false} BitLengthShift(v: nat, k: nat)
    requires v >= Pow2(k)
    ensures BitLength(v) == k + BitLength(v / Pow2(k))
  {
    Pow2Step(0);
    if k != 0 {
      Pow2Step(k - 1);
      hide Pow2;
      BitLengthShift(v / 2, k - 1);
      DivMul(v, 2, Pow2(k - 1));
    }
  }

  // ---------- the STATIC_ILOG cascade ----------

  function Shr(v: nat, k: nat): nat {
    QuotientNat(v, Pow2(k));
    v / Pow2(k)
  }

  function StaticIlog0(v: nat): nat { if v != 0 then 1 else 0 }

  function StaticIlog1(v: nat): nat {
    if And(v, 0x2) != 0 then 2 else StaticIlog0(v)
  }

  function StaticIlog2(v: nat): nat {
    if And(v, 0xC) != 0 then 2 + StaticIlog1(Shr(v, 2)) else StaticIlog1(v)
  }

  function StaticIlog3(v: nat): nat {
    if And(v, 0xF0) != 0 then 4 + StaticIlog2(Shr(v, 4)) else StaticIlog2(v)
  }

  function StaticIlog4(v: nat): nat {
    if And(v, 0xFF00) != 0 then 8 + StaticIlog3(Shr(v, 8)) else StaticIlog3(v)
  }

  function StaticIlog5(v: nat): nat {
    if And(v, 0xFFFF_0000) != 0 then 16 + StaticIlog4(Shr(v, 16)) else StaticIlog4(v)
  }

  function StaticIlog6(v: nat): nat {
    if And(v, 0xFFFF_FFFF_0000_0000) != 0 then 32 + StaticIlog5(Shr(v, 32)) else StaticIlog5(v)
  }

  /** One level of the cascade: the upper-half mask of a `2k`-bit word selects the
      branch that measures the half in which the top bit lies. */
  lemma CascadeLevel(v: nat, k: nat)
    requires v < Pow2(2 * k)
    ensures Pow2(k) <= Pow2(2 * k)
    ensures And(v, Pow2(2 * k) - Pow2(k)) != 0 <==> v >= Pow2(k)
    ensures Shr(v, k) < Pow2(k)
    ensures v >= Pow2(k) ==> BitLength(v) == k + BitLength(Shr(v, k))
  {
    hide *;
    ShrIs(v, k);
    AndHigh(v, k, 2 * k);
    Pow2Add(k, k);
    QuotientBelow(v, Pow2(k), Pow2(k));
    if v >= Pow2(k) {
      BitLengthShift(v, k);
    } else {
      DivModUnique(v, Pow2(k), 0, v);
    }
  }

  lemma ShrIs(v: nat, k: nat)
    ensures Shr(v, k) == v / Pow2(k)
    ensures 0 <= v % Pow2(k) < Pow2(k)
  {
  }

  lemma StaticIlog1Correct(v: nat)
    requires v < 4
    ensures StaticIlog1(v) == BitLength(v)
  {
    assert v == 0 || v == 1 || v == 2 || v == 3;
  }

  lemma StaticIlog2Correct(v: nat)
    requires v < Pow2(4)
    ensures StaticIlog2(v) == BitLength(v)
  {
    CascadeLevel(v, 2);
    StaticIlog1Correct(if v >= Pow2(2) then Shr(v, 2) else v);
  }

  lemma StaticIlog3Correct(v: nat)
    requires v < Pow2(8)
    ensures StaticIlog3(v) == BitLength(v)
  {
    Pow2Values();
    CascadeLevel(v, 4);
    StaticIlog2Correct(if v >= Pow2(4) then Shr(v, 4) else v);
  }

  lemma StaticIlog4Correct(v: nat)
    requires v < Pow2(16)
    ensures StaticIlog4(v) == BitLength(v)
  {
    Pow2Values();
    CascadeLevel(v, 8);
    StaticIlog3Correct(if v >= Pow2(8) then Shr(v, 8) else v);
  }

  /** STATIC_ILOG_32 is the bit length of every 32-bit word. */
  lemma StaticIlog32Correct(v: nat)
    requires v < Pow2(32)
    ensures StaticIlog5(v) == BitLength(v)
  {
    Pow2Values();
    CascadeLevel(v, 16);
    StaticIlog4Correct(if v >= Pow2(16) then Shr(v, 16) else v);
  }

  /** STATIC_ILOG_64 is the bit length of every 64-bit word. */
  lemma StaticIlog64Correct(v: nat)
    requires v < Pow2(64)
    ensures StaticIlog6(v) == BitLength(v)
  {
    Pow2Values();
    CascadeLevel(v, 32);
    StaticIlog32Correct(if v >= Pow2(32) then Shr(v, 32) else v);
  }

  // ---------- the count-leading-zeros form ----------

  /** Leading zero bits of a `w`-bit word. */
  function LeadingZeros(w: nat, v: nat): nat {
    if w == 0 || v >= Pow2(w - 1) then 0 else 1 + LeadingZeros(w - 1, v)
  }

  /** `ilog32` (`w` = 32) and `ilog64` (`w` = 64): `(w - clz(v)) & -!!v`.
      The builtin's answer for 0 is undefined: `clzOfZero` is any integer. */
  function IlogClz(w: nat, v: nat, clzOfZero: int): nat {
    var clz := if v == 0 then clzOfZero else LeadingZeros(w, v);
    And(Wrap(32, w - clz), if v == 0 then 0 else Pow2(32) - 1)
  }

  lemma {:induction false} LeadingZerosBounds(w: nat, v: nat)
    requires 0 < v < Pow2(w)
    ensures LeadingZeros(w, v) < w
    ensures Pow2(w - LeadingZeros(w, v) - 1) <= v < Pow2(w - LeadingZeros(w, v))
  {
    if v < Pow2(w - 1) {
      LeadingZerosBounds(w - 1, v);
    }
  }

  /** The builtin form is the bit length of every word, whatever clz(0) is. */
  lemma IlogClzCorrect(w: nat, v: nat, clzOfZero: int)
    requires w <= 64 && v < Pow2(w)
    ensures IlogClz(w, v, clzOfZero) == BitLength(v)
  {
    hide Pow2, And, LeadingZeros, Wrap;
    if v == 0 {
      AndZero(Wrap(32, w - clzOfZero));
    } else {
      hide BitLength;
      LeadingZerosBounds(w, v);
      var n := w - LeadingZeros(w, v);
      assert IlogClz(w, v, clzOfZero) == And(Wrap(32, n), Pow2(32) - 1);
      hide *;
      BitLengthUnique(v, n);
      WrapKeeps(32, n) by { Pow2Values(); }
      AndAll(n, 32) by { Pow2Values(); }
    }
  }

  /** `ilog32` as the program calls it. */
  function Ilog32(v: nat): nat { IlogClz(32, v, 0) }

  /** `ilog64` as the program calls it. */
  function Ilog64(v: nat): nat { IlogClz(64, v, 0) }

  /** `1 << ilog(n - 1)` restores a power of two. */
  lemma IlogOfPow2(k: nat, w: nat)
    requires k < w <= 64
    ensures Pow2(k) <= Pow2(w)
    ensures IlogClz(w, Pow2(k) - 1, 0) == k
  {
    hide Pow2, And, LeadingZeros, IlogClz;
    Pow2Order(k, w);
    Pow2Step(0);
    IlogClzCorrect(w, Pow2(k) - 1, 0);
    if k > 0 {
      Pow2Step(k - 1);
      BitLengthUnique(Pow2(k) - 1, k);
    }
  }
}
