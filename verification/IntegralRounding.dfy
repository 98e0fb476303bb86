/** Rounding to an integral value, on patterns: what clearing the low bits of a pattern and
adding one unit of the integer part do to the magnitude.

A format has t fraction bits, h == 2^t, and the given exponent bias; one is 2^(bias + t - 1)
units of the smallest subnormal. */
module IntegralRounding {
  import opened Bits
  import opened Rounding
  import opened Packing

  /** The magnitude of 1.0. */
  function One(t: nat, bias: nat): (u: nat)
    requires bias >= 1
    ensures u > 0
  {
    Pow2(bias + t - 1)
  }

  /** How many whole units of d there are in m. */
  function Quot(m: nat, d: nat): (q: nat)
    requires d > 0
    ensures q == m / d
  {
    DivNonnegative(m, d);
    m / d
  }

  // ----- what rounding to an integer means, for magnitudes m and r in a format with unit u -----

  function Signed(negative: bool, m: nat): int {
    if negative then -(m as int) else m
  }

  /** The integer part. */
  ghost predicate IsIntegerPart(m: nat, r: nat, u: nat)
    requires u > 0
  {
    r == Times(Quot(m, u), u)
  }

  /** The greatest integer not above the signed value. */
  ghost predicate IsGreatestBelow(negative: bool, m: nat, r: nat, u: nat)
    requires u > 0
  {
    Signed(negative, r) == Signed(negative, m) / u * u
  }

  /** The least integer not below the signed value. */
  ghost predicate IsLeastAbove(negative: bool, m: nat, r: nat, u: nat)
    requires u > 0
  {
    Signed(negative, r) == -(-Signed(negative, m) / u * u)
  }

  /** The nearest integer, halfway cases away from zero. */
  ghost predicate IsNearestInteger(m: nat, r: nat, u: nat)
    requires u > 0
  {
    r == Times(Quot(2 * m + u, 2 * u), u)
  }

  /** Bits of the fraction below the binary point, for an exponent field e. */
  function PointShift(t: nat, bias: nat, e: nat): nat
    requires bias <= e <= bias + t
  {
    t - (e - bias)
  }

  /** A pattern with its low k bits cleared. */
  function ClearLow(p: nat, k: nat): (r: nat)
    ensures r <= p
  {
    ClearNonnegative(p, k);
    p - p % Pow2(k)
  }

  lemma ClearNonnegative(p: nat, k: nat)
    ensures 0 <= p % Pow2(k) <= p
  {
    DivModBasic(p, Pow2(k));
    DivNonnegative(p, Pow2(k));
    Nonnegative(Pow2(k), p / Pow2(k));
  }

  /** One is 2^shift units of the last place of a number with exponent field e. */
  lemma OneInPlaces(t: nat, bias: nat, e: nat)
    requires 1 <= bias <= e <= bias + t
    ensures One(t, bias) == Shl(Pow2(PointShift(t, bias, e)), e - 1)
  {
    Pow2Add(PointShift(t, bias, e), e - 1);
  }

  /** The integer part of a significand s in units of 2^k. */
  lemma ScaledQuotient(s: nat, k: nat, j: nat, one: nat)
    requires one == Shl(Pow2(k), j)
    ensures one > 0 && Shl(s, j) / one == s / Pow2(k) && Shl(s, j) % one == Shl(s % Pow2(k), j)
    ensures s / Pow2(k) >= 0 && Shl(s - s % Pow2(k), j) == Times(s / Pow2(k), one)
    ensures Shl(s - s % Pow2(k) + Pow2(k), j) == Times(s / Pow2(k) + 1, one)
  {
    var d, f := Pow2(k), Pow2(j);
    DivModBasic(s, d);
    DivNonnegative(s, d);
    var q, r := s / d, s % d;
    MulAtLeast(d, f);
    ProductOrder(r, d, f);
    Nonnegative(r, f);
    SplitProduct(d, q, r, f);
    DivModUnique(s * f, d * f, q, r * f);
    NextQuotient(d, q, f);
  }

  lemma SplitProduct(d: nat, q: nat, r: nat, f: nat)
    ensures (d * q + r) * f == d * f * q + r * f && d * q * f == q * (d * f)
  {
    Swap(d, q, f);
    MulAssoc(q, d, f);
    assert (d * q + r) * f == d * q * f + r * f;
  }

  lemma NextQuotient(d: nat, q: nat, f: nat)
    ensures (d * q + d) * f == (q + 1) * (d * f)
  {
    SplitProduct(d, q, d, f);
    assert (q + 1) * (d * f) == q * (d * f) + d * f;
  }

  /** The low bits of a pattern are those of its significand. */
  lemma PatternLowBits(t: nat, k: nat, p: nat)
    requires k <= t
    ensures p % Pow2(t) % Pow2(k) == p % Pow2(k) == (Pow2(t) + p % Pow2(t)) % Pow2(k)
    ensures p % Pow2(t) / Pow2(k) >= 0
  {
    Pow2Add(k, t - k);
    LowBitsOfProduct(p, Pow2(k), Pow2(t - k), Pow2(t));
  }

  lemma LowBitsOfProduct(p: nat, d: nat, m: nat, h: nat)
    requires d > 0 && m > 0 && h == d * m
    ensures p % h % d == p % d == (h + p % h) % d && p % h / d >= 0
  {
    DivModSplit(p, d, m);
    var r, low := p / d % m, p % d;
    DivNonnegative(p, d);
    DivModUnique(p % h, d, r, low);
    AddProducts(d, m, r, low);
    DivModUnique(h + p % h, d, m + r, low);
  }

  lemma AddProducts(d: int, m: int, r: int, low: int)
    ensures d * m + (d * r + low) == d * (m + r) + low
  {
  }

  /** Truncation and the next integer, for numbers that have both an integer part and a fraction. */
  lemma FractionCleared(t: nat, bias: nat, p: nat)
    requires bias >= 1 && bias <= p / Pow2(t) < bias + t
    ensures var h, one, k := Pow2(t), One(t, bias), PointShift(t, bias, p / Pow2(t));
            && 1 <= k <= t
            && Mag(h, ClearLow(p, k)) == Times(Quot(Mag(h, p), one), one)
            && Mag(h, ClearLow(p, k) + Pow2(k)) == Times(Quot(Mag(h, p), one) + 1, one)
            && (Mag(h, p) % one == 0 <==> p % Pow2(k) == 0)
  {
    hide *;
    ShiftRange(t, bias, p / Pow2(t));
    var h, one, e := Pow2(t), One(t, bias), p / Pow2(t);
    var k, f := PointShift(t, bias, e), p % h;
    var s := h + f;
    DivModBasic(p, h);
    PatternLowBits(t, k, p);
    OneInPlaces(t, bias, e);
    ScaledQuotient(s, k, e - 1, one);
    ClearedRange(t, k, p);
    FieldPattern(h, e, f, p);
    MagOf(h, e - 1, s);
    ShlMeaning(s, e - 1);
    var s' := s - s % Pow2(k);
    FieldPattern(h, e, f - f % Pow2(k), ClearLow(p, k));
    MagOf(h, e - 1, s');
    ShlMeaning(s', e - 1);
    FieldPattern(h, e, f - f % Pow2(k) + Pow2(k), ClearLow(p, k) + Pow2(k));
    MagOf(h, e - 1, s' + Pow2(k));
    ShlMeaning(s' + Pow2(k), e - 1);
    ShlNone(s % Pow2(k), e - 1);
  }

  lemma ShiftRange(t: nat, bias: nat, e: nat)
    requires 1 <= bias <= e < bias + t
    ensures 1 <= PointShift(t, bias, e) <= t && e >= 1
  {
  }

  lemma ShlNone(a: nat, k: nat)
    ensures Shl(a, k) == 0 <==> a == 0
  {
    ProductOrder(a, 0, Pow2(k));
  }

  /** Clearing the low bits leaves a fraction, and there is room for one more unit of 2^k. */
  lemma ClearedRange(t: nat, k: nat, p: nat)
    requires k <= t
    ensures var h, f := Pow2(t), p % Pow2(t);
            && 0 <= f % Pow2(k) <= f && f - f % Pow2(k) + Pow2(k) <= h
            && ClearLow(p, k) == p - f % Pow2(k)
  {
    PatternLowBits(t, k, p);
    Pow2Add(k, t - k);
    var d, m := Pow2(k), Pow2(t - k);
    var f := p % Pow2(t);
    DivModBasic(p, Pow2(t));
    DivModBasic(f, d);
    var q := f / d;
    Room(d, q, f % d, m);
    Nonnegative(d, q);
  }

  lemma Room(d: nat, q: nat, r: nat, m: nat)
    requires d * q + r < d * m
    ensures d * q + d <= d * m
  {
    if q >= m { ProductLe(m, q, d); } else { ProductLe(q + 1, m, d); assert d * (q + 1) == d * q + d; }
  }

  /** A pattern from its fields; a carry out of the fraction field is allowed. */
  lemma FieldPattern(h: nat, e: nat, f: nat, p: nat)
    requires h > 0 && e >= 1 && p == h * e + f
    ensures p == Pattern(h, e - 1, h + f)
  {
    NextMultiple(h, e - 1);
  }

  /** Numbers from 2^t up have no fraction. */
  lemma NoFraction(t: nat, bias: nat, p: nat)
    requires bias >= 1 && p / Pow2(t) >= bias + t
    ensures Mag(Pow2(t), p) % One(t, bias) == 0
  {
    hide *;
    var h, e, f := Pow2(t), p / Pow2(t), p % Pow2(t);
    DivModBasic(p, h);
    FieldPattern(h, e, f, p);
    MagOf(h, e - 1, h + f);
    OneIs(t, bias);
    var j := e - 1 - (bias + t - 1);
    Pow2Add(bias + t - 1, j);
    MulAssoc(h + f, Pow2(bias + t - 1), Pow2(j));
    Swap(h + f, Pow2(bias + t - 1), Pow2(j));
    Nonnegative(h + f, Pow2(j));
    var one, q: nat := One(t, bias), (h + f) * Pow2(j);
    assert Mag(h, p) == q * one;
    MulCommutes(q, one);
    DivModUnique(Mag(h, p), one, q, 0);
  }

  lemma OneIs(t: nat, bias: nat)
    requires bias >= 1
    ensures One(t, bias) == Pow2(bias + t - 1)
  {
  }

  lemma MulCommutes(a: int, b: int)
    ensures a * b == b * a
  {
  }

  /** The pattern of 1.0, and the powers of two around it. */
  lemma OnePattern(t: nat, bias: nat)
    requires bias >= 2
    ensures Mag(Pow2(t), Pow2(t) * bias) == One(t, bias)
    ensures 2 * Mag(Pow2(t), Pow2(t) * (bias - 1)) == One(t, bias)
    ensures Pow2(t) * bias >= 0 && Pow2(t) * (bias - 1) >= 0
  {
    hide *;
    var h := Pow2(t);
    Nonnegative(h, bias);
    Nonnegative(h, bias - 1);
    FieldPattern(h, bias, 0, h * bias);
    MagOf(h, bias - 1, h);
    FieldPattern(h, bias - 1, 0, h * (bias - 1));
    MagOf(h, bias - 2, h);
    Pow2Add(t, bias - 1);
    OneIs(t, bias);
    DoubledPower(h, bias - 2);
  }

  /** Numbers with a smaller exponent field are below 1.0, and below 0.5 unless theirs is next. */
  lemma BelowOne(t: nat, bias: nat, p: nat)
    requires bias >= 2 && p / Pow2(t) < bias
    ensures Mag(Pow2(t), p) < One(t, bias)
    ensures 2 * Mag(Pow2(t), p) >= One(t, bias) <==> p / Pow2(t) == bias - 1
  {
    hide *;
    var h := Pow2(t);
    OnePattern(t, bias);
    DivModBasic(p, h);
    QuotientOrder(p, h, bias);
    QuotientOrder(p, h, bias - 1);
    MagOrder(h, p, h * bias);
    MagOrder(h, p, h * (bias - 1));
  }

  lemma QuotientOrder(p: nat, h: nat, n: nat)
    requires h > 0
    ensures p / h < n <==> p < h * n
  {
    DivModBasic(p, h);
    var q := p / h;
    if q < n { ProductLe(q + 1, n, h); assert h * (q + 1) == h * q + h; } else { ProductLe(n, q, h); }
  }

  /** The bit below the binary point says whether the fraction is at least one half. */
  lemma HalfBit(t: nat, bias: nat, p: nat)
    requires bias >= 1 && bias <= p / Pow2(t) < bias + t
    ensures var k := PointShift(t, bias, p / Pow2(t));
            k >= 1 && (p / Pow2(k - 1) % 2 == 1 <==> 2 * (Mag(Pow2(t), p) % One(t, bias)) >= One(t, bias))
  {
    hide *;
    ShiftRange(t, bias, p / Pow2(t));
    var h, one, e := Pow2(t), One(t, bias), p / Pow2(t);
    var k, f := PointShift(t, bias, e), p % h;
    DivModBasic(p, h);
    PatternLowBits(t, k, p);
    OneInPlaces(t, bias, e);
    ScaledQuotient(h + f, k, e - 1, one);
    FieldPattern(h, e, f, p);
    MagOf(h, e - 1, h + f);
    ShlMeaning(h + f, e - 1);
    TopBit(p, k);
    var r := p % Pow2(k);
    ShlHalf(r, Pow2(k), e - 1);
  }

  lemma TopBit(p: nat, k: nat)
    requires k >= 1
    ensures p / Pow2(k - 1) % 2 == 1 <==> 2 * (p % Pow2(k)) >= Pow2(k)
  {
    var d := Pow2(k - 1);
    DivModSplit(p, d, 2);
    assert Pow2(k) == d * 2;
  }

  lemma ShlHalf(r: nat, d: nat, j: nat)
    ensures 2 * r >= d <==> 2 * Shl(r, j) >= Shl(d, j)
  {
    ProductOrder(2 * r, d, Pow2(j));
    MulAssoc(2, r, Pow2(j));
  }

  lemma SmallerPattern(p: nat, q: nat, k: nat)
    ensures q == p || q == 0 || q == ClearLow(p, k) ==> q <= p
  {
  }

  lemma SmallQuotient(m: nat, u: nat)
    requires m < u
    ensures Quot(m, u) == 0 && Times(0, u) == 0 && m % u == m
  {
    DivModUnique(m, u, 0, m);
  }

  lemma QuotTimes(m: nat, u: nat)
    requires u > 0
    ensures m == Times(Quot(m, u), u) + m % u && 0 <= m % u < u
  {
    DivModBasic(m, u);
  }

  lemma QuotIs(m: nat, u: nat)
    requires u > 0
    ensures Quot(m, u) == m / u
  {
  }

  /** Dividing by u and multiplying by it again, for m and for -m. */
  lemma TowardsMinus(m: nat, u: nat)
    requires u > 0
    ensures m / u * u == Times(Quot(m, u), u) && (m % u == 0 ==> Times(Quot(m, u), u) == m)
    ensures -(m as int) / u * u == -(if m % u == 0 then m else Times(Quot(m, u) + 1, u))
  {
    DivModBasic(m, u);
    var q, r, n := m / u, m % u, m as int;
    Negated(u, q);
    if r == 0 {
      DivModUnique(-n, u, -q, 0);
    } else {
      DivModUnique(-n, u, -q - 1, u - r);
    }
  }

  lemma Negated(u: int, q: int)
    ensures u * q == q * u && u * (-q) == -(u * q) && u * (-q - 1) == -(u * q) - u && (-q - 1) * u == -((q + 1) * u) && (q + 1) * u == u * q + u
    ensures (-q) * u == -(q * u)
  {
  }

  lemma HalfUp(m: nat, u: nat)
    requires u > 0
    ensures Quot(2 * m + u, 2 * u) == Quot(m, u) + if 2 * (m % u) >= u then 1 else 0
  {
    DivModBasic(m, u);
    var q, r := m / u, m % u;
    Doubled(u, q);
    if 2 * r >= u {
      DivModUnique(2 * m + u, 2 * u, q + 1, 2 * r - u);
    } else {
      DivModUnique(2 * m + u, 2 * u, q, 2 * r + u);
    }
  }

  lemma Doubled(u: int, q: int)
    ensures 2 * u * q == 2 * (u * q) && 2 * u * (q + 1) == 2 * (u * q) + 2 * u
  {
  }

  // ----- the sign decides which way -----

  lemma GreatestBelow(negative: bool, m: nat, r: nat, u: nat)
    requires u > 0 && r == if m % u == 0 then m else if negative then Times(Quot(m, u) + 1, u) else Times(Quot(m, u), u)
    ensures IsGreatestBelow(negative, m, r, u)
  {
    TowardsMinus(m, u);
  }

  lemma LeastAbove(negative: bool, m: nat, r: nat, u: nat)
    requires u > 0 && r == if m % u == 0 then m else if negative then Times(Quot(m, u), u) else Times(Quot(m, u) + 1, u)
    ensures IsLeastAbove(negative, m, r, u)
  {
    TowardsMinus(m, u);
  }

  lemma NearestInteger(m: nat, r: nat, u: nat, up: bool)
    requires u > 0 && (up <==> 2 * (m % u) >= u) && r == Times(Quot(m, u) + if up then 1 else 0, u)
    ensures IsNearestInteger(m, r, u)
  {
    HalfUp(m, u);
  }

  lemma PatternIsZero(t: nat, p: nat)
    ensures Pow2(t) > 0 && (p == 0 <==> Mag(Pow2(t), p) == 0)
  {
    hide Mag, Pow2;
    MagOrder(Pow2(t), 0, p);
    MagZero(Pow2(t));
  }
}
