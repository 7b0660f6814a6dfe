/**
 DECIMAL arithmetic: a number of precision p is an integer below 10^p in magnitude,
 stored in the smallest of four integer types.
 */
module Decimal {
  const DECIMAL_PRECISION_LIMIT: nat := 38

  function Pow10(n: nat): (r: int)
    ensures r > 0
  {
    if n == 0 then 1 else 10 * Pow10(n - 1)
  }

  lemma {:induction false} Pow10Sum(m: nat, n: nat)
    ensures Pow10(m + n) == Pow10(m) * Pow10(n)
    decreases m
  {
    if m > 0 {
      Pow10Sum(m - 1, n);
      assert Pow10(m + n) == 10 * (Pow10(m - 1) * Pow10(n));
    }
  }

  lemma Pow10Monotone(m: nat, n: nat)
    requires m <= n
    ensures Pow10(m) <= Pow10(n)
  {
    Pow10Sum(m, n - m);
    MultiplyAtLeast(Pow10(m), Pow10(n - m));
  }

  lemma MultiplyAtLeast(a: int, b: int)
    requires a >= 0 && b >= 1
    ensures a * b >= a
  {
  }

  // ----- storage -----

  /** The bound of the integer type that holds a precision: values from -bound to bound - 1. */
  function StorageBound(precision: nat): int
    requires precision <= DECIMAL_PRECISION_LIMIT
  {
    if precision <= 4 then 0x8000
    else if precision <= 9 then 0x8000_0000
    else if precision <= 18 then 0x8000_0000_0000_0000
    else 0x8000_0000_0000_0000_0000_0000_0000_0000
  }

  predicate Fits(x: int, precision: nat)
    requires precision <= DECIMAL_PRECISION_LIMIT
  {
    -StorageBound(precision) <= x < StorageBound(precision)
  }

  /** A number of the precision. */
  predicate InRange(x: int, precision: nat) {
    -Pow10(precision) < x < Pow10(precision)
  }

  /** The power that bounds a precision can itself be stored. */
  lemma PowerFits(precision: nat)
    requires precision <= DECIMAL_PRECISION_LIMIT
    ensures Pow10(precision) < StorageBound(precision)
  {
    Powers();
    if precision <= 4 {
      Pow10Monotone(precision, 4);
    } else if precision <= 9 {
      Pow10Monotone(precision, 9);
    } else if precision <= 18 {
      Pow10Monotone(precision, 18);
    } else {
      Pow10Monotone(precision, 38);
    }
  }

  lemma Powers()
    ensures Pow10(4) == 10_000 && Pow10(9) == 1_000_000_000 && Pow10(18) == 1_000_000_000_000_000_000
    ensures Pow10(38) == 100_000_000_000_000_000_000_000_000_000_000_000_000
  {
    Pow10Sum(2, 2);
    Pow10Sum(4, 4);
    Pow10Sum(1, 8);
    Pow10Sum(9, 9);
    Pow10Sum(1, 18);
    Pow10Sum(19, 19);
  }

  // ----- addition and subtraction -----

  datatype Result = Ok(value: int) | Overflow

  /** The integers computed on the way; none when the comparison is not reached. */
  function AddCheck(left: int, right: int, precision: nat): int {
    if right > 0 then Pow10(precision) - right else -Pow10(precision) - right
  }

  function Add(left: int, right: int, precision: nat): Result {
    if (right > 0 && AddCheck(left, right, precision) <= left) || (right < 0 && AddCheck(left, right, precision) >= left) then Overflow
    else Ok(left + right)
  }

  function SubtractCheck(left: int, right: int, precision: nat): int {
    if right > 0 then -Pow10(precision) + right else Pow10(precision) + right
  }

  function Subtract(left: int, right: int, precision: nat): Result {
    if (right > 0 && SubtractCheck(left, right, precision) >= left) || (right < 0 && SubtractCheck(left, right, precision) <= left) then Overflow
    else Ok(left - right)
  }

  /** Addition throws exactly when the true sum is out of range, is exact otherwise, and no step of it overflows. */
  lemma AddExact(left: int, right: int, precision: nat)
    requires precision <= DECIMAL_PRECISION_LIMIT && InRange(left, precision) && InRange(right, precision)
    ensures Add(left, right, precision) == if InRange(left + right, precision) then Ok(left + right) else Overflow
    ensures right != 0 ==> Fits(AddCheck(left, right, precision), precision)
    ensures Add(left, right, precision).Ok? ==> Fits(left + right, precision)
  {
    PowerFits(precision);
  }

  lemma SubtractExact(left: int, right: int, precision: nat)
    requires precision <= DECIMAL_PRECISION_LIMIT && InRange(left, precision) && InRange(right, precision)
    ensures Subtract(left, right, precision) == if InRange(left - right, precision) then Ok(left - right) else Overflow
    ensures right != 0 ==> Fits(SubtractCheck(left, right, precision), precision)
    ensures Subtract(left, right, precision).Ok? ==> Fits(left - right, precision)
  {
    PowerFits(precision);
  }

  // ----- multiplication -----

  function Multiply(left: int, right: int, precision: nat): Result {
    var product := left * right;
    if product <= -Pow10(precision) || product >= Pow10(precision) then Overflow else Ok(product)
  }

  lemma ProductBound(a: int, b: int, m: int, n: int)
    requires -m < a < m && -n < b < n
    ensures -(m * n) < a * b < m * n
  {
    if a >= 0 && b >= 0 {
      ProductBelow(a, b, m, n);
    } else if a >= 0 {
      ProductBelow(a, -b, m, n);
      assert a * b == -(a * -b);
    } else if b >= 0 {
      ProductBelow(-a, b, m, n);
      assert a * b == -(-a * b);
    } else {
      ProductBelow(-a, -b, m, n);
      assert a * b == -a * -b;
    }
  }

  lemma ProductBelow(a: int, b: int, m: int, n: int)
    requires 0 <= a < m && 0 <= b < n
    ensures 0 <= a * b < m * n
  {
    assert a * b <= a * n;
    assert a * n < m * n;
  }

  /** The product of numbers of two precisions fits the sum of the precisions and one, and the overflow branch is dead. */
  lemma ProductFits(left: int, right: int, p1: nat, p2: nat)
    requires p1 + p2 + 1 <= DECIMAL_PRECISION_LIMIT && InRange(left, p1) && InRange(right, p2)
    ensures Multiply(left, right, p1 + p2 + 1) == Ok(left * right)
    ensures InRange(left * right, p1 + p2) && Fits(left * right, p1 + p2 + 1)
  {
    ProductBound(left, right, Pow10(p1), Pow10(p2));
    Pow10Sum(p1, p2);
    Pow10Monotone(p1 + p2, p1 + p2 + 1);
    PowerFits(p1 + p2 + 1);
  }

  // ----- rounding -----

  /** The remainder of a truncating division has the sign of the dividend. */
  function Remainder(x: int, m: int): int
    requires m > 0
  {
    if x >= 0 then x % m else -((-x) % m)
  }

  function Quotient(x: int, m: int): int
    requires m > 0
  {
    if x >= 0 then x / m else -((-x) / m)
  }

  /** What is divided by the power in the end. */
  function FloorStep(x: int, m: int): int
    requires m > 0
  {
    if x < 0 then x - (if Remainder(x, m) == 0 then 0 else m + Remainder(x, m)) else x - Remainder(x, m)
  }

  function CeilStep(x: int, m: int): int
    requires m > 0
  {
    if x < 0 then x - Remainder(x, m) else x + (if Remainder(x, m) == 0 then 0 else m - Remainder(x, m))
  }

  function Floor(x: int, scale: nat): int {
    Quotient(FloorStep(x, Pow10(scale)), Pow10(scale))
  }

  function Ceil(x: int, scale: nat): int {
    Quotient(CeilStep(x, Pow10(scale)), Pow10(scale))
  }

  /** The largest integer not above x / m. */
  ghost predicate IsFloor(f: int, x: int, m: int) {
    f * m <= x < (f + 1) * m
  }

  /** The smallest integer not below x / m. */
  ghost predicate IsCeil(c: int, x: int, m: int) {
    (c - 1) * m < x <= c * m
  }

  /** Division of a number that is not negative: quotient and remainder. */
  lemma DivisionOf(x: int, m: int, q: int, r: int)
    requires m > 0 && 0 <= r < m && x == q * m + r
    ensures x / m == q && x % m == r
  {
    var d, e := x / m, x % m;
    assert x == d * m + e;
    assert (q - d) * m == e - r by {
      assert (q - d) * m == q * m - d * m;
    }
    assert (d - q) * m == -((q - d) * m);
    if q > d {
      MultiplyAtLeast(m, q - d);
    } else if q < d {
      MultiplyAtLeast(m, d - q);
    }
  }

  /** A multiple is divided without remainder. */
  lemma QuotientOfMultiple(q: int, m: int)
    requires m > 0
    ensures Quotient(q * m, m) == q
  {
    if q >= 0 {
      DivisionOf(q * m, m, q, 0);
      MultiplySign(q, m);
    } else {
      DivisionOf(-q * m, m, -q, 0);
      MultiplySign(-q, m);
      assert -q * m == -(q * m);
    }
  }

  lemma MultiplySign(q: int, m: int)
    requires q >= 0 && m > 0
    ensures q * m >= 0 && (q * m == 0 ==> q == 0)
  {
    if q > 0 {
      MultiplyAtLeast(m, q);
    }
  }

  /** A number split by a power: quotient and remainder as the truncating operators give them. */
  lemma Truncation(x: int, m: int) returns (q: int)
    requires m > 0
    ensures x == q * m + Remainder(x, m) && -m < Remainder(x, m) < m
    ensures (x >= 0 ==> Remainder(x, m) >= 0) && (x < 0 ==> Remainder(x, m) <= 0)
  {
    if x >= 0 {
      q := x / m;
      assert x == q * m + x % m;
    } else {
      q := -((-x) / m);
      var d, e := (-x) / m, (-x) % m;
      assert -x == d * m + e;
      assert -d * m == -(d * m);
    }
  }

  /** The floor is the mathematical one. */
  lemma FloorExact(x: int, scale: nat)
    ensures IsFloor(Floor(x, scale), x, Pow10(scale))
  {
    var m := Pow10(scale);
    var q := Truncation(x, m);
    var f := if x < 0 && Remainder(x, m) != 0 then q - 1 else q;
    assert (q - 1) * m == q * m - m && (q + 1) * m == q * m + m;
    assert FloorStep(x, m) == f * m;
    QuotientOfMultiple(f, m);
    assert (f + 1) * m == f * m + m;
  }

  /** The ceiling is the mathematical one. */
  lemma CeilExact(x: int, scale: nat)
    ensures IsCeil(Ceil(x, scale), x, Pow10(scale))
  {
    var m := Pow10(scale);
    var q := Truncation(x, m);
    var c := if x >= 0 && Remainder(x, m) != 0 then q + 1 else q;
    assert (q - 1) * m == q * m - m && (q + 1) * m == q * m + m;
    assert CeilStep(x, m) == c * m;
    QuotientOfMultiple(c, m);
    assert (c - 1) * m == c * m - m;
  }

  /** Rounding fits: what is divided stays in the integer type, and the result has the precision of the operand. */
  lemma RoundingFits(x: int, precision: nat, scale: nat)
    requires scale <= precision <= DECIMAL_PRECISION_LIMIT && InRange(x, precision)
    ensures Fits(FloorStep(x, Pow10(scale)), precision) && Fits(CeilStep(x, Pow10(scale)), precision)
    ensures InRange(Floor(x, scale), precision) && InRange(Ceil(x, scale), precision)
  {
    StepsBounded(x, precision, scale);
    PowerFits(precision);
    FloorExact(x, scale);
    CeilExact(x, scale);
    assert (Floor(x, scale) + 1) * Pow10(scale) == Floor(x, scale) * Pow10(scale) + Pow10(scale);
    assert (Ceil(x, scale) - 1) * Pow10(scale) == Ceil(x, scale) * Pow10(scale) - Pow10(scale);
    RoundedBelow(x, Floor(x, scale), precision, scale);
    RoundedBelow(x, Ceil(x, scale), precision, scale);
  }

  /** A number that is less than a unit away from x / m is at most n in magnitude when x is below n * m. */
  lemma RoundedAtMost(x: int, f: int, m: int, n: int)
    requires m > 0 && -(n * m) < x < n * m && -m < f * m - x < m
    ensures -n <= f <= n
  {
    assert (n + 1) * m == n * m + m && -f * m == -(f * m);
    SmallerFactor(f, n + 1, m);
    SmallerFactor(-f, n + 1, m);
  }

  lemma RoundedBelow(x: int, f: int, precision: nat, scale: nat)
    requires scale <= precision && InRange(x, precision) && -Pow10(scale) < f * Pow10(scale) - x < Pow10(scale)
    ensures InRange(f, precision)
  {
    Pow10Sum(precision - scale, scale);
    if scale > 0 {
      hide Pow10;
      Pow10Next(precision - 1);
      Pow10Monotone(precision - scale, precision - 1);
      RoundedAtMost(x, f, Pow10(scale), Pow10(precision - scale));
    } else {
      assert Pow10(0) == 1;
    }
  }

  lemma Pow10Next(n: nat)
    ensures Pow10(n) < Pow10(n + 1)
  {
  }

  lemma SmallerFactor(a: int, b: int, m: int)
    requires m > 0 && a * m < b * m
    ensures a < b
  {
    assert (a - b) * m == a * m - b * m;
    if a >= b {
      MultiplySign(a - b, m);
    }
  }

  lemma StepsBounded(x: int, precision: nat, scale: nat)
    requires scale <= precision && InRange(x, precision)
    ensures -Pow10(precision) <= FloorStep(x, Pow10(scale)) <= Pow10(precision)
    ensures -Pow10(precision) <= CeilStep(x, Pow10(scale)) <= Pow10(precision)
  {
    Pow10Sum(precision - scale, scale);
    hide Pow10;
    StepsWithin(x, Pow10(scale), Pow10(precision - scale));
  }

  /** The multiple of m next to x on the side of zero, and one further, are within n * m. */
  lemma Truncated(x: int, m: int, n: int) returns (t: int)
    requires m > 0 && -(n * m) < x < n * m
    ensures x == t + Remainder(x, m)
    ensures x >= 0 ==> 0 <= t && t + m <= n * m && 0 <= Remainder(x, m) < m
    ensures x < 0 ==> t <= 0 && -t + m <= n * m && -m < Remainder(x, m) <= 0
  {
    hide Remainder;
    var q := Truncation(x, m);
    t := q * m;
    if x >= 0 {
      NextMultiple(q, m, n);
      TruncatedSign(q, m, x - t);
    } else {
      assert -q * m == -t;
      NextMultiple(-q, m, n);
      TruncatedSign(-q, m, t - x);
    }
  }

  /** A multiple of m that is more than -m is not negative. */
  lemma TruncatedSign(q: int, m: int, r: int)
    requires m > 0 && r < m && q * m + r >= 0
    ensures q * m >= 0
  {
    assert (-q - 1) * m == -(q * m) - m;
    if q < 0 {
      MultiplySign(-q - 1, m);
    } else {
      MultiplySign(q, m);
    }
  }

  /** Rounding to a multiple of m stays between the multiples that enclose the number. */
  lemma StepsWithin(x: int, m: int, n: int)
    requires m > 0 && -(n * m) < x < n * m
    ensures -(n * m) <= FloorStep(x, m) <= n * m && -(n * m) <= CeilStep(x, m) <= n * m
  {
    hide Remainder, FloorStep, CeilStep;
    var t := Truncated(x, m, n);
    if x >= 0 {
      StepsAbove(x, t, m);
    } else {
      StepsBelow(x, t, m);
    }
  }

  lemma StepsAbove(x: int, t: int, m: int)
    requires m > 0 && x >= 0 && x == t + Remainder(x, m) && 0 <= Remainder(x, m) < m
    ensures FloorStep(x, m) == t && t <= CeilStep(x, m) <= t + m
  {
  }

  lemma StepsBelow(x: int, t: int, m: int)
    requires m > 0 && x < 0 && x == t + Remainder(x, m) && -m < Remainder(x, m) <= 0
    ensures t - m <= FloorStep(x, m) <= t && CeilStep(x, m) == t
  {
  }

  lemma NextMultiple(q: int, m: int, n: int)
    requires m > 0 && q * m < n * m
    ensures q * m + m <= n * m
  {
    SmallerFactor(q, n, m);
    MultiplySign(n - q - 1, m);
    assert (n - q - 1) * m == n * m - q * m - m;
  }

  // ----- types of results -----

  function Min(a: int, b: int): int {
    if a < b then a else b
  }

  function Max(a: int, b: int): int {
    if a < b then b else a
  }

  /** Precision and scale of a sum or a difference. */
  function AddParams(p1: int, p2: int, s1: int, s2: int): (int, int) {
    var p := Min(DECIMAL_PRECISION_LIMIT, Max(s1, s2) + Max(p1 - s1, p2 - s2) + 1);
    var s := Min(p, Max(s1, s2));
    if Max(p1 - s1, p2 - s2) < Min(DECIMAL_PRECISION_LIMIT, p) - s
    then (p, Min(p, DECIMAL_PRECISION_LIMIT) - Max(p1 - s1, p2 - s2)) else (p, s)
  }

  /** Precision and scale of a product, or the exception that there is no such type. */
  datatype Params = Params(precision: int, scale: int) | TooPrecise

  function MultiplyParams(p1: int, p2: int, s1: int, s2: int): Params {
    if p1 + p2 + 1 > DECIMAL_PRECISION_LIMIT then TooPrecise else Params(p1 + p2 + 1, s1 + s2)
  }

  predicate IsType(p: int, s: int) {
    1 <= p <= DECIMAL_PRECISION_LIMIT && 0 <= s <= p
  }

  /** The result types are types; those of sums have no digit for a carry. */
  lemma ParamsValid(p1: int, p2: int, s1: int, s2: int)
    requires IsType(p1, s1) && IsType(p2, s2)
    ensures var (p, s) := AddParams(p1, p2, s1, s2); IsType(p, s) && p - s <= Max(p1 - s1, p2 - s2)
    ensures var r := MultiplyParams(p1, p2, s1, s2); r.Params? ==> IsType(r.precision, r.scale)
  {
  }

  /** The digit that a sum gains goes to its fraction, as long as the limit leaves one; at the limit the fraction is that
      of the operands, and the digits before the point are cut to what is left. */
  lemma CarryGoesToFraction(p1: int, p2: int, s1: int, s2: int)
    requires IsType(p1, s1) && IsType(p2, s2)
    ensures var scale, whole := Max(s1, s2), Max(p1 - s1, p2 - s2);
            AddParams(p1, p2, s1, s2) ==
            if scale + whole < DECIMAL_PRECISION_LIMIT then (scale + whole + 1, scale + 1)
            else (DECIMAL_PRECISION_LIMIT, scale)
  {
  }

  /** Numbers are integers over a power of ten. A product is exact: the integer stored, at the scale of the result type, is
      the product of the operands at theirs; it never overflows, and there is no type exactly beyond 38 digits. */
  lemma MultiplyExact(left: int, right: int, p1: nat, p2: nat, s1: nat, s2: nat)
    requires IsType(p1, s1) && IsType(p2, s2) && InRange(left, p1) && InRange(right, p2)
    ensures var r := MultiplyParams(p1, p2, s1, s2);
            && (r.TooPrecise? <==> p1 + p2 >= DECIMAL_PRECISION_LIMIT)
            && (r.Params? ==>
                  var product := Multiply(left, right, r.precision);
                  && IsType(r.precision, r.scale) && product.Ok? && InRange(product.value, r.precision)
                  && Fits(product.value, r.precision)
                  && product.value * (Pow10(s1) * Pow10(s2)) == left * right * Pow10(r.scale))
  {
    hide Multiply, Pow10;
    if p1 + p2 < DECIMAL_PRECISION_LIMIT {
      ProductFits(left, right, p1, p2);
      Pow10Monotone(p1 + p2, p1 + p2 + 1);
      Pow10Sum(s1, s2);
    }
  }

  /** A number with more digits after the point. */
  function Scaled(x: int, from: int, to: int): int
    requires from <= to
  {
    x * Pow10(to - from)
  }

  lemma ScaledInRange(x: int, p: nat, s: int, to: int, bound: nat)
    requires InRange(x, p) && s <= to && p - s <= bound - to && 0 <= bound - to
    ensures InRange(Scaled(x, s, to), bound)
  {
    var k: nat := to - s;
    Pow10Sum(p, k);
    Pow10Monotone(p + k, bound);
    ScaledBelow(x, Pow10(p), Pow10(k));
  }

  lemma ScaledBelow(x: int, m: int, k: int)
    requires -m < x < m && k > 0
    ensures -(m * k) < x * k < m * k
  {
    LessScaled(x, m, k);
    LessScaled(-m, x, k);
  }

  lemma LessScaled(a: int, b: int, k: int)
    requires a < b && k > 0
    ensures a * k < b * k
  {
    MultiplyAtLeast(k, b - a);
    assert (b - a) * k == b * k - a * k;
  }

  lemma ScaledOnce(x: int, s: int, to: int)
    requires s <= to
    ensures Scaled(x, s, to + 1) == 10 * Scaled(x, s, to)
  {
    var k: nat := to - s;
    assert Pow10(k + 1) == 10 * Pow10(k);
    Reorder(x, Pow10(k));
  }

  lemma Reorder(x: int, m: int)
    ensures x * (10 * m) == 10 * (x * m)
  {
  }

  /** So a sum or a difference of two numbers, cast to the type of the result, throws exactly when it needs a digit more
      before the point than the wider of them has. */
  lemma CarryThrows(x: int, y: int, p1: nat, s1: nat, p2: nat, s2: nat)
    requires IsType(p1, s1) && IsType(p2, s2) && InRange(x, p1) && InRange(y, p2)
    requires Max(s1, s2) + Max(p1 - s1, p2 - s2) + 1 <= DECIMAL_PRECISION_LIMIT
    ensures var s, p: nat := Max(s1, s2), Max(s1, s2) + Max(p1 - s1, p2 - s2);
            var left, right, x', y' := Scaled(x, s1, s), Scaled(y, s2, s), Scaled(x, s1, s + 1), Scaled(y, s2, s + 1);
            && AddParams(p1, p2, s1, s2) == (p + 1, s + 1) && InRange(x', p + 1) && InRange(y', p + 1)
            && (Add(x', y', p + 1).Overflow? <==> !InRange(left + right, p))
            && (Subtract(x', y', p + 1).Overflow? <==> !InRange(left - right, p))
  {
    var s, p: nat := Max(s1, s2), Max(s1, s2) + Max(p1 - s1, p2 - s2);
    ScaledInRange(x, p1, s1, s + 1, p + 1);
    ScaledInRange(y, p2, s2, s + 1, p + 1);
    ScaledOnce(x, s1, s);
    ScaledOnce(y, s2, s);
    var left, right := Scaled(x, s1, s), Scaled(y, s2, s);
    hide Scaled, Add, Subtract;
    AddExact(10 * left, 10 * right, p + 1);
    SubtractExact(10 * left, 10 * right, p + 1);
    TenfoldInRange(left + right, p);
    TenfoldInRange(left - right, p);
  }

  lemma TenfoldInRange(x: int, p: nat)
    ensures InRange(10 * x, p + 1) <==> InRange(x, p)
  {
  }
}
