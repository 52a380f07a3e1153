/**
 * The integer semantics of Kotlin on the JVM, written out over Dafny's
 * unbounded `int`: 32-bit `Int` wrap-around, `/` truncating toward zero, and
 * the truncating and saturating conversions from `Float`.
 */
module KotlinNumbers {

  const IntMin: int := -0x8000_0000
  const IntMax: int := 0x7fff_ffff
  const IntModulus: int := 0x1_0000_0000

  predicate IsInt(x: int) {
    IntMin <= x <= IntMax
  }

  function Abs(x: int): (r: int)
    ensures 0 <= r
  {
    if x < 0 then -x else x
  }

  /** The 32-bit two's-complement value of an exact result (Kotlin `Int` arithmetic). */
  function WrapInt(x: int): (r: int)
    ensures IsInt(r)
    ensures (x - r) % IntModulus == 0
    ensures IsInt(x) ==> r == x
  {
    (x - IntMin) % IntModulus + IntMin
  }

  /** Kotlin `/` on `Int` and `Long`: the quotient rounded toward zero. */
  function Quot(a: int, b: int): (q: int)
    requires b != 0
    ensures 0 <= a ==> 0 <= a - q * b < Abs(b)
    ensures a < 0 ==> -Abs(b) < a - q * b <= 0
  {
    if 0 <= a && 0 < b then a / b
    else if 0 <= a then -(a / -b)
    else if 0 < b then -((-a) / b)
    else (-a) / (-b)
  }

  /** `toLong()` of a finite `Float`: truncation toward zero. */
  function Trunc(x: real): (r: int)
    ensures 0.0 <= x ==> r as real <= x < r as real + 1.0
    ensures x < 0.0 ==> r as real - 1.0 < x <= r as real
  {
    if 0.0 <= x then x.Floor else -((-x).Floor)
  }

  /** `toInt()` of a finite `Float`: truncation toward zero, saturating at the `Int` range. */
  function FloatToInt(x: real): (r: int)
    ensures IsInt(r)
    ensures IsInt(Trunc(x)) ==> r == Trunc(x)
    ensures x < IntMin as real ==> r == IntMin
    ensures IntMax as real < x ==> r == IntMax
  {
    var t := Trunc(x);
    if t < IntMin then IntMin else if IntMax < t then IntMax else t
  }

  /** `kotlin.math.ceil` of a finite value, as an integer. */
  function Ceil(x: real): (r: int)
    ensures r as real - 1.0 < x <= r as real
  {
    -((-x).Floor)
  }

  /** On non-negative operands Kotlin's quotient is Dafny's. */
  lemma QuotNonNegative(a: int, b: int)
    requires 0 <= a && 0 < b
    ensures Quot(a, b) == a / b
  {
  }

  /** An even number never wraps to the `Int` value -1. */
  lemma {:induction false} WrapEvenIsNotMinusOne(x: int)
    requires x % 2 == 0
    ensures WrapInt(x) != -1
  {
    var k := (x - IntMin) / IntModulus;
    assert x - IntMin == k * IntModulus + (x - IntMin) % IntModulus;
    var r := (x - IntMin) % IntModulus;
    assert r == x - IntMin - k * IntModulus;
    assert (x - IntMin - k * IntModulus) % 2 == 0 by {
      assert x - IntMin - k * IntModulus == 2 * (x / 2 + 0x4000_0000 - k * 0x8000_0000);
    }
    assert r % 2 == 0;
    assert WrapInt(x) == r + IntMin;
  }

  /** Scaling by a factor in `[0, k]` keeps a non-negative amount between 0 and `k` times it. */
  lemma ScaleWithin(a: int, f: int, k: int)
    requires 0 <= a && 0 <= f <= k
    ensures 0 <= a * f <= a * k
  {
  }

  /** The real counterpart of `ScaleWithin`. */
  lemma ScaleWithinReal(a: real, f: real, k: real)
    requires 0.0 <= a && 0.0 <= f <= k
    ensures 0.0 <= a * f <= a * k
  {
  }

  /** Converting a value in `[0, n]` to `Int` gives an integer in `[0, n]`. */
  lemma FloatToIntWithin(x: real, n: int)
    requires 0.0 <= x <= n as real && n <= IntMax
    ensures 0 <= FloatToInt(x) <= n
  {
    assert Trunc(x) as real <= x;
  }

  /** A quotient that leaves a remainder in `[0, b)` of a non-negative dividend is not negative. */
  lemma NonNegativeQuotient(a: int, b: int, q: int)
    requires 0 <= a && 0 < b && 0 <= a - q * b < b
    ensures 0 <= q
  {
  }

  /** A quotient of non-negative operands grows with the dividend. */
  lemma QuotMonotone(a1: int, a2: int, b: int)
    requires 0 <= a1 <= a2 && 0 < b
    ensures Quot(a1, b) <= Quot(a2, b)
  {
    var q1, q2 := Quot(a1, b), Quot(a2, b);
    assert q1 * b <= a1 <= a2 < (q2 + 1) * b;
    CancelBelow(q1, q2 + 1, b);
  }

  lemma CancelBelow(x: int, y: int, b: int)
    requires 0 < b && x * b < y * b
    ensures x < y
  {
  }

  /** A dividend in `[0, n * b]` gives a quotient in `[0, n]`. */
  lemma QuotWithin(a: int, b: int, n: int)
    requires 0 <= a <= n * b && 0 < b
    ensures 0 <= Quot(a, b) <= n
  {
    var q := Quot(a, b);
    NonNegativeQuotient(a, b, q);
    assert q * b <= a <= n * b < (n + 1) * b;
    CancelBelow(q, n + 1, b);
  }

  /** Truncating a value in `[0, n]` gives an integer in `[0, n]`. */
  lemma TruncWithin(x: real, n: int)
    requires 0.0 <= x <= n as real
    ensures 0 <= Trunc(x) <= n
  {
  }

  /** `amount * value / 100` in `Float`: the `value` percent of `amount`. */
  function PercentOf(amount: real, value: real): (x: real)
    ensures x * 100.0 == amount * value
    ensures 0.0 <= amount && 0.0 <= value <= 100.0 ==> 0.0 <= x <= amount
  {
    PercentBound(amount, value);
    amount * value / 100.0
  }

  lemma PercentBound(amount: real, value: real)
    ensures 0.0 <= amount && 0.0 <= value <= 100.0 ==> 0.0 <= amount * value / 100.0 <= amount
  {
    if 0.0 <= amount && 0.0 <= value <= 100.0 {
      ScaleWithinReal(amount, value, 100.0);
    }
  }
}
