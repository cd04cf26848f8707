/** Machine words as natural numbers.

    The program mixes bit operators (`&`, `|`, `^`, shifts) with plain counting.
    The operators are defined here bit by bit, and the lemmas relate each idiom of
    the program to division and remainder, which is how the ring proofs reason.
 */
module Bits {

  function Pow2(k: nat): (p: nat)
    ensures p >= 1
  {
    if k == 0 then 1 else 2 * Pow2(k - 1)
  }

  ghost predicate IsPow2(n: nat) {
    exists k: nat :: n == Pow2(k)
  }

  function And(x: nat, y: nat): (r: nat)
    ensures r <= x && r <= y
  {
    if x == 0 || y == 0 then 0
    else (if x % 2 == 1 && y % 2 == 1 then 1 else 0) + 2 * And(x / 2, y / 2)
  }

  function Or(x: nat, y: nat): nat {
    if x == 0 then y
    else if y == 0 then x
    else (if x % 2 == 1 || y % 2 == 1 then 1 else 0) + 2 * Or(x / 2, y / 2)
  }

  function Xor(x: nat, y: nat): nat {
    if x == 0 then y
    else if y == 0 then x
    else (if x % 2 == y % 2 then 0 else 1) + 2 * Xor(x / 2, y / 2)
  }

  /** `~x` on words of `w` bits. */
  function Not(w: nat, x: nat): nat
    requires x < Pow2(w)
  {
    Pow2(w) - 1 - x
  }

  /** The bits a C conversion to an unsigned type of `w` bits keeps. */
  function Wrap(w: nat, x: int): (r: nat)
    ensures r < Pow2(w)
  {
    x % Pow2(w)
  }

  /** C conversion to a signed type of `w` bits. */
  function ToSigned(w: nat, x: int): (r: int)
    requires w > 0
    ensures 0 - Pow2(w - 1) <= r < Pow2(w - 1)
  {
    var u := Wrap(w, x);
    if u < Pow2(w - 1) then u else u - Pow2(w)
  }

  // ---------- division and remainder ----------

  lemma DivModUnique(a: int, b: int, q: int, r: int)
    requires b > 0 && 0 <= r < b && a == q * b + r
    ensures a / b == q && a % b == r
  {
    var q', r' := a / b, a % b;
    assert a == q' * b + r';
    assert (q - q') * b == r' - r;
    if q > q' { MulGe(q - q', b); }
    if q < q' { MulGe(q' - q, b); }
  }

  lemma MulGe(k: int, b: int)
    requires k >= 1 && b >= 0
    ensures k * b >= b
  {
  }

  lemma QuotientNat(a: nat, b: nat)
    requires b > 0
    ensures a / b >= 0
  {
    var q := a / b;
    if q <= -1 { MulGe(-q, b); }
  }

  lemma QuotientAtLeast(p: nat, b: nat, n: nat)
    requires b > 0 && n * b <= p
    ensures n <= p / b
  {
    var q := p / b;
    if q < n { MulLe(q + 1, n, b); }
  }

  lemma QuotientBelow(p: nat, b: nat, n: nat)
    requires b > 0 && p < n * b
    ensures p / b < n
  {
    var q := p / b;
    if q >= n { MulLe(n, q, b); }
  }

  /** Adding a multiple of the modulus changes nothing. */
  lemma ModShift(a: int, k: int, b: int)
    requires b > 0
    ensures (a + k * b) % b == a % b
  {
    DivModUnique(a + k * b, b, a / b + k, a % b);
  }

  /** A remainder modulo a multiple of `a` keeps the remainder modulo `a`. */
  lemma ModOfMod(x: int, a: int, b: int)
    requires a > 0 && b > 0
    ensures a * b > 0 && (x % (a * b)) % a == x % a
  {
    var q := x / (a * b);
    assert x == q * (a * b) + x % (a * b);
    assert q * (a * b) == (q * b) * a;
    ModShift(x % (a * b), q * b, a);
  }

  /** Two numbers less than the modulus apart with equal remainders are equal. */
  lemma ModInjective(x: int, y: int, n: int)
    requires n > 0 && x % n == y % n && x <= y < x + n
    ensures x == y
  {
    var k := y / n - x / n;
    assert y - x == k * n;
    if k >= 1 { MulGe(k, n); }
    if k <= -1 { MulGe(-k, n); }
  }

  /** A reader that knows the true count up to less than one lap recovers it. */
  lemma Recover(known: int, actual: int, m: int)
    requires m > 0 && known <= actual < known + m
    ensures known + (actual % m - known % m) % m == actual
  {
    var k := actual / m - known / m;
    assert actual - known == k * m + (actual % m - known % m);
    ModShift(actual % m - known % m, k, m);
    DivModUnique(actual - known, m, 0, actual - known);
  }

  /** Recovery from a truncated counter is exact: it fails as soon as the true count is a
      lap ahead. */
  lemma RecoverIsExact(known: int, actual: int, m: int)
    requires m > 0 && known <= actual
    ensures known + (actual % m - known % m) % m == actual <==> actual < known + m
  {
    if actual < known + m { Recover(known, actual, m); }
  }

  lemma AddMod(a: int, b: int, m: int)
    requires m > 0
    ensures (a % m + b) % m == (a + b) % m
  {
    ModShift(a % m + b, a / m, m);
  }

  /** A counter that wraps at every addition holds the wrapped total. */
  lemma WrapAdd(w: nat, x: nat, k: nat)
    ensures Wrap(w, Wrap(w, x) + k) == Wrap(w, x + k)
  {
    hide Pow2;
    AddMod(x, k, Pow2(w));
  }

  /** The slot of the `p`-th entry in a ring of `n`. */
  function Slot(p: nat, n: nat): (s: nat)
    requires n > 0
    ensures s < n
  {
    p % n
  }

  /** Entries less than a lap apart have different slots. */
  lemma SlotsDistinct(p: nat, q: nat, n: nat)
    requires n > 0 && p < q < p + n
    ensures Slot(p, n) != Slot(q, n)
  {
    if p % n == q % n { ModInjective(p, q, n); }
  }

  lemma WrapKeeps(w: nat, x: nat)
    requires x < Pow2(w)
    ensures Wrap(w, x) == x
  {
    hide Pow2;
    DivModUnique(x, Pow2(w), 0, x);
  }

  // ---------- powers of two ----------

  lemma Pow2Step(k: nat)
    ensures Pow2(0) == 1
    ensures Pow2(k + 1) == 2 * Pow2(k)
  {
  }

  lemma {:induction false} Pow2Add(a: nat, b: nat)
    ensures Pow2(a + b) == Pow2(a) * Pow2(b)
  {
    hide *;
    if a == 0 {
      Pow2Step(0);
    } else {
      Pow2Add(a - 1, b);
      Pow2Step(a - 1);
      Pow2Step(a - 1 + b);
      DoubleProduct(Pow2(a - 1), Pow2(b));
    }
  }

  lemma DoubleProduct(p: nat, q: nat)
    ensures 2 * (p * q) == (2 * p) * q
  {
  }

  lemma {:induction false} Pow2Monotone(a: nat, b: nat)
    requires a < b
    ensures 2 * Pow2(a) <= Pow2(b)
    decreases b
  {
    if a + 1 < b {
      Pow2Monotone(a, b - 1);
    }
  }

  lemma Pow2Order(a: nat, b: nat)
    ensures a <= b <==> Pow2(a) <= Pow2(b)
    ensures a == b <==> Pow2(a) == Pow2(b)
  {
    if a < b { Pow2Monotone(a, b); }
    if b < a { Pow2Monotone(b, a); }
  }

  lemma Pow2Values()
    ensures Pow2(4) == 16 && Pow2(6) == 64 && Pow2(8) == 256 && Pow2(15) == 0x8000
    ensures Pow2(16) == 0x1_0000 && Pow2(24) == 0x100_0000
    ensures Pow2(30) == 0x4000_0000 && Pow2(31) == 0x8000_0000 && Pow2(32) == 0x1_0000_0000
    ensures Pow2(63) == 0x8000_0000_0000_0000 && Pow2(64) == 0x1_0000_0000_0000_0000
  {
    assert Pow2(4) == 16 && Pow2(6) == 64 && Pow2(7) == 128 && Pow2(8) == 256;
    hide Pow2;
    Pow2Add(8, 7);
    Pow2Add(8, 8);
    Pow2Add(16, 8);
    Pow2Add(15, 15);
    Pow2Add(16, 15);
    Pow2Add(16, 16);
    Pow2Add(32, 31);
    Pow2Add(32, 32);
  }

  /** A counter wrapped at a larger power of two still has the right remainder. */
  lemma Pow2ModOfMod(x: nat, k: nat, w: nat)
    requires k <= w
    ensures (x % Pow2(w)) % Pow2(k) == x % Pow2(k)
  {
    hide *;
    Pow2Add(k, w - k);
    ModOfMod(x, Pow2(k), Pow2(w - k));
  }

  lemma DivMul(x: nat, a: nat, b: nat)
    requires a > 0 && b > 0
    ensures a * b > 0 && x / (a * b) == (x / a) / b
  {
    var y := x / a;
    var q, r := y / b, y % b;
    var rest := r * a + x % a;
    assert (q * b + r) * a == q * (a * b) + r * a;
    MulLe(r, b - 1, a);
    assert (b - 1) * a == a * b - a;
    DivModUnique(x, a * b, q, rest);
  }

  lemma MulLe(x: int, y: int, a: nat)
    requires x <= y
    ensures x * a <= y * a
  {
  }

  /** The lap parity of a wrapped counter is the lap parity of the full count. */
  lemma PhaseOfWrapped(x: nat, k: nat, w: nat)
    requires k < w
    ensures (x % Pow2(w)) / Pow2(k) % 2 == x / Pow2(k) % 2
  {
    hide *;
    Pow2Step(w - k - 1);
    Pow2Add(k, w - k);
    PhaseOfMod(x, Pow2(k), Pow2(w - k - 1));
  }

  lemma PhaseOfMod(x: nat, a: nat, b: nat)
    requires a > 0 && b > 0
    ensures a * (2 * b) > 0
    ensures (x % (a * (2 * b))) / a % 2 == x / a % 2
  {
    var m := a * (2 * b);
    var q, y := x / m, x % m;
    assert x == q * m + y;
    assert q * m == (q * (2 * b)) * a;
    DivModUnique(x, a, q * (2 * b) + y / a, y % a) by {
      assert y == (y / a) * a + y % a;
      assert (q * (2 * b) + y / a) * a == (q * (2 * b)) * a + (y / a) * a;
    }
    assert q * (2 * b) == (q * b) * 2;
    ModShift(y / a, q * b, 2);
  }

  // ---------- the bit idioms ----------

  lemma ModHalf(x: nat, p: nat)
    requires p > 0
    ensures x % (2 * p) == x % 2 + 2 * ((x / 2) % p)
  {
    var h := x / 2;
    assert x == 2 * h + x % 2;
    assert h == (h / p) * p + h % p;
    assert 2 * ((h / p) * p) == (h / p) * (2 * p);
    DivModUnique(x, 2 * p, h / p, x % 2 + 2 * (h % p));
  }

  /** `x & (2^k - 1)` is the remainder: every masked ring index. */
  lemma {:induction false} AndMask(x: nat, k: nat)
    ensures And(x, Pow2(k) - 1) == x % Pow2(k)
  {
    hide *;
    if k == 0 {
      AndZero(x);
      Pow2Step(0);
    } else {
      AndMask(x / 2, k - 1);
      Pow2Step(k - 1);
      AndMaskStep(x, Pow2(k - 1));
    }
  }

  lemma AndZero(x: nat)
    ensures And(x, 0) == 0 == x % 1
  {
  }

  lemma AndMaskStep(x: nat, p: nat)
    requires p > 0
    requires And(x / 2, p - 1) == (x / 2) % p
    ensures And(x, 2 * (p - 1) + 1) == x % (2 * p)
  {
    hide *;
    AndOdd(x, p - 1);
    ModHalf(x, p);
  }

  lemma AndOdd(x: nat, y: nat)
    ensures And(x, 2 * y + 1) == x % 2 + 2 * And(x / 2, y)
  {
    assert (2 * y + 1) % 2 == 1 && (2 * y + 1) / 2 == y;
  }

  /** `x & ~(2^k - 1)` on a word of `w` bits clears the low `k` bits. */
  lemma AndHigh(x: nat, k: nat, w: nat)
    requires k <= w && x < Pow2(w)
    ensures Pow2(k) <= Pow2(w)
    ensures And(x, Pow2(w) - Pow2(k)) == x - x % Pow2(k)
  {
    hide *;
    Pow2Order(k, w);
    AndHighMask(x, k, w, Pow2(w) - Pow2(k));
  }

  lemma {:induction false} AndHighMask(x: nat, k: nat, w: nat, mask: nat)
    requires k <= w && x < Pow2(w) && mask + Pow2(k) == Pow2(w)
    ensures And(x, mask) == x - x % Pow2(k)
    decreases k
  {
    hide *;
    Pow2Step(0);
    if k == 0 {
      AndAll(x, w);
    } else {
      Pow2Step(k - 1);
      Pow2Step(w - 1);
      Pow2Order(k - 1, w - 1);
      var half := Pow2(w - 1) - Pow2(k - 1);
      AndHighMask(x / 2, k - 1, w - 1, half);
      AndHighStep(x, Pow2(k - 1), half);
    }
  }

  lemma AndAll(x: nat, w: nat)
    requires x < Pow2(w)
    ensures And(x, Pow2(w) - 1) == x == x - x % 1
  {
    hide Pow2, And;
    AndMask(x, w);
    DivModUnique(x, Pow2(w), 0, x);
  }

  lemma AndHighStep(x: nat, low: nat, d: nat)
    requires low > 0
    requires And(x / 2, d) == x / 2 - (x / 2) % low
    ensures And(x, 2 * d) == x - x % (2 * low)
  {
    AndDouble(x, d);
    hide And;
    ModHalf(x, low);
  }

  lemma AndDouble(x: nat, y: nat)
    ensures And(x, 2 * y) == 2 * And(x / 2, y)
  {
    assert (2 * y) % 2 == 0 && (2 * y) / 2 == y;
  }

  /** `x & 2^k` tests bit `k`, the parity of the lap. */
  lemma {:induction false} AndBit(x: nat, k: nat)
    ensures And(x, Pow2(k)) == (x / Pow2(k) % 2) * Pow2(k)
  {
    if k == 0 {
      assert And(x, 1) == x % 2;
    } else {
      hide *;
      AndBit(x / 2, k - 1);
      Pow2Step(k - 1);
      AndBitStep(x, Pow2(k - 1));
    }
  }

  lemma AndBitStep(x: nat, p: nat)
    requires p > 0
    requires And(x / 2, p) == (x / 2 / p % 2) * p
    ensures And(x, 2 * p) == (x / (2 * p) % 2) * (2 * p)
  {
    hide *;
    AndDouble(x, p);
    DivMul(x, 2, p);
    var bit := x / 2 / p % 2;
    assert 2 * (bit * p) == bit * (2 * p);
  }

  /** `x | y` and `x ^ y` are the sum less what `x & y` counts twice. */
  lemma {:induction false} OrXorSum(x: nat, y: nat)
    ensures Or(x, y) + And(x, y) == x + y
    ensures Xor(x, y) + 2 * And(x, y) == x + y
  {
    if x != 0 && y != 0 { OrXorSum(x / 2, y / 2); }
  }

  /** `(a << k) | b` with `b` below `2^k` joins two fields without overlap. */
  lemma {:induction false} OrFields(a: nat, k: nat, b: nat)
    requires b < Pow2(k)
    ensures Or(a * Pow2(k), b) == a * Pow2(k) + b
  {
    if k == 0 {
    } else {
      hide *;
      Pow2Step(k - 1);
      OrFields(a, k - 1, b / 2);
      OrFieldsStep(a, Pow2(k - 1), b);
    }
  }

  lemma OrFieldsStep(a: nat, p: nat, b: nat)
    requires Or(a * p, b / 2) == a * p + b / 2
    ensures Or(a * (2 * p), b) == a * (2 * p) + b
  {
    hide *;
    var x := a * p;
    assert a * (2 * p) == 2 * x;
    OrEven(x, b);
  }

  lemma OrEven(x: nat, y: nat)
    ensures Or(2 * x, y) == y % 2 + 2 * Or(x, y / 2)
  {
    assert (2 * x) % 2 == 0 && (2 * x) / 2 == x;
  }

  lemma {:induction false} XorZero(x: nat, y: nat)
    ensures Xor(x, y) == 0 <==> x == y
  {
    if x != 0 && y != 0 {
      XorZero(x / 2, y / 2);
    }
  }
}
