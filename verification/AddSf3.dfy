/** __addsf3: binary32 addition (addsf3.c). */
module AddSf3 {
  import opened Bits
  import opened Limbs
  import opened Rounding
  import opened Sticky
  import opened Binary32
  import opened Packing

  /** What section 6 of IEEE 754-2019 says about adding special operands, and correct
  rounding of the exact sum for finite ones.  An exact zero sum is +0 unless both
  operands are negative zeros. */
  ghost predicate IsSum(a: Float, b: Float, r: Float) {
    if a.IsNaN() then r == QuietNaN(a)
    else if b.IsNaN() then r == QuietNaN(b)
    else if a.IsInfinite() then
      if b.IsInfinite() && a.Negative() != b.Negative() then r.IsQuietNaN() else r == a
    else if b.IsInfinite() then r == b
    else
      var sum := a.Value() + b.Value();
      if sum == 0 then r.IsZero() && r.Negative() == (a.Negative() && b.Negative())
      else RoundedTo(r, sum < 0, Abs(sum), 1)
  }

  method AddFloats(a: Float, b: Float) returns (r: Float)
    ensures IsSum(a, b, r)
  {
    hide RoundedTo, Mag, Float.Pattern;
    var aExponent, bExponent := Exponent(a), Exponent(b);
    ClassifyByFields(a);
    ClassifyByFields(b);
    if aExponent == 255 {
      if !FractionIsZero(a) {
        return QuietNaN(a);
      }
      if bExponent == 255 {
        if !FractionIsZero(b) {
          return QuietNaN(b);
        }
        if Sign(a) != Sign(b) {
          return QNaN();
        }
      }
      return a;
    }
    if bExponent == 255 {
      if !FractionIsZero(b) {
        return QuietNaN(b);
      }
      return b;
    }
    r := AddFinite(a, aExponent, b, bExponent);
  }

  /** __addsf3 once neither operand is infinite or a NaN. */
  method AddFinite(a: Float, aField: u16, b: Float, bField: u16) returns (r: Float)
    requires a.IsFinite() && b.IsFinite() && aField == Exponent(a) && bField == Exponent(b)
    ensures IsSum(a, b, r)
  {
    hide *;
    var aExponent, bExponent := aField, bField;
    var aSign, bSign := Sign(a), Sign(b);
    var aSignificand, bSignificand := Significand(a, aExponent), Significand(b, bExponent);
    FieldValue(a, aExponent);
    FieldValue(b, bExponent);
    if aSignificand.IsZero() {
      if bSignificand.IsZero() {
        SumOfZeros(a, b);
        return Zero(And(aSign, bSign));
      }
      ZeroPlus(a, b);
      return b;
    }
    if bSignificand.IsZero() {
      ZeroPlus(b, a);
      return a;
    }
    if aExponent == 0 {
      aExponent := 1;
    }
    if bExponent == 0 {
      bExponent := 1;
    }
    if aExponent < bExponent || (aExponent == bExponent && Compare(aSignificand, bSignificand) < 0) {
      aExponent, bExponent := bExponent, aExponent;
      aSign, bSign := bSign, aSign;
      aSignificand, bSignificand := bSignificand, aSignificand;
    }
    MakeOrdered(aSignificand.Val(), aExponent, bSignificand.Val(), bExponent);
    r := AddOrdered(aExponent, aSign, aSignificand, bExponent, bSign, bSignificand);
    FiniteSum(a, b, r);
  }

  lemma SumOfZeros(a: Float, b: Float)
    requires a.IsZero() && b.IsZero()
    ensures var sign := And(Sign(a), Sign(b)); (sign == 0 || sign == 0x8000) && IsSum(a, b, Zero(sign))
  {
    ClassifyByFields(a);
    ClassifyByFields(b);
    AndSignBit(Sign(a));
    AndSignBit(0);
  }

  lemma ZeroPlus(zero: Float, x: Float)
    requires zero.IsZero() && x.IsFinite() && !x.IsZero()
    ensures IsSum(zero, x, x)
    ensures IsSum(x, zero, x)
  {
    hide Mag, RoundedTo, QuietNaN, Float.Pattern;
    ZeroMagnitude(zero);
    ZeroMagnitude(x);
    RepresentableRounds(x);
  }

  lemma FieldValue(x: Float, e: u16)
    requires x.IsFinite() && e == Exponent(x)
    ensures e < 255 && Significand(x, e).Val() < 0x100_0000
    ensures e > 0 ==> Significand(x, e).Val() >= 0x80_0000
    ensures Significand(x, e).Val() == 0 <==> x.IsZero()
    ensures x.Value() == Scaled(Sign(x), Significand(x, e).Val(), if e == 0 then 1 else e)
  {
    FiniteFields(x, e);
  }

  lemma FiniteSum(a: Float, b: Float, r: Float)
    requires a.IsFinite() && b.IsFinite() && !a.IsZero() && !b.IsZero()
    requires IsRoundedSum(r, a.Value() + b.Value())
    ensures IsSum(a, b, r)
  {
    hide Mag, RoundedTo, QuietNaN;
    ZeroMagnitude(a);
    ZeroMagnitude(b);
  }

  // ----- the arithmetic of finite nonzero operands -----

  /** m * 2^(e-1) units of 2^-149, with the sign of a sign field. */
  function Scaled(sign: u16, m: nat, e: nat): int
    requires e >= 1
  {
    if sign == 0 then m * Pow2(e - 1) else -(m * Pow2(e - 1))
  }

  ghost predicate IsRoundedSum(r: Float, v: int) {
    if v == 0 then r == Float(0, 0) else RoundedTo(r, v < 0, Abs(v), 1)
  }

  /** The aligned sum in units of 2^(larger exponent - 4 - c): a counts 2^c times. */
  function Aligned(a: nat, b: nat, c: nat, subtract: bool): int {
    8 * (a * Pow2(c)) + if subtract then -8 * b else 8 * b
  }

  /** The sum or difference of two magnitudes whose exponents differ by c. */
  function Combined(a: nat, aExponent: nat, b: nat, bExponent: nat, subtract: bool): int
    requires aExponent >= 1 && bExponent >= 1
  {
    a * Pow2(aExponent - 1) + if subtract then -(b * Pow2(bExponent - 1)) else b * Pow2(bExponent - 1)
  }

  /** The first operand is not smaller than the second. */
  predicate Ordered(a: nat, aExponent: nat, b: nat, bExponent: nat) {
    && 1 <= bExponent <= aExponent < 255
    && 0 < a < 0x100_0000 && 0 < b < 0x100_0000
    && (aExponent > 1 ==> a >= 0x80_0000)
    && (aExponent == bExponent ==> a >= b)
  }

  lemma OrderedMeans(a: nat, aExponent: nat, b: nat, bExponent: nat)
    requires Ordered(a, aExponent, b, bExponent)
    ensures 1 <= bExponent <= aExponent < 255 && 0 < a < 0x100_0000 && 0 < b < 0x100_0000
    ensures (aExponent > 1 ==> a >= 0x80_0000) && (aExponent == bExponent ==> a >= b)
  {
  }

  lemma MakeOrdered(a: nat, aExponent: nat, b: nat, bExponent: nat)
    requires 1 <= bExponent <= aExponent < 255 && 0 < a < 0x100_0000 && 0 < b < 0x100_0000
    requires aExponent > 1 ==> a >= 0x80_0000
    requires aExponent == bExponent ==> a >= b
    ensures Ordered(a, aExponent, b, bExponent)
  {
  }

  lemma AlignedOperands(a: nat, aExponent: nat, b: nat, bExponent: nat)
    requires Ordered(a, aExponent, b, bExponent)
    ensures var c := aExponent - bExponent;
            var S := StickyShift(8 * b, c);
            && S <= 8 * a && S < 0x800_0000 && (c >= 4 ==> S <= 0x80_0000)
            && (c <= 3 ==> S * Pow2(c) == 8 * b)
            && Stands(S, 2, 8 * b, Pow2(c))
  {
    var c := aExponent - bExponent;
    StandsShifted(8 * b, c, 8 * b, 1);
    Pow2Values();
    if c >= 4 {
      Pow2Monotone(4, c);
      ShiftBound(8 * b, Pow2(c), 16);
    } else {
      ShiftExact(b, c);
    }
  }

  /** The three zero bits below the significand absorb a short shift. */
  lemma ShiftExact(b: nat, c: nat)
    requires c <= 3
    ensures StickyShift(8 * b, c) * Pow2(c) == 8 * b && StickyShift(8 * b, c) == b * Pow2(3 - c)
  {
    Pow2Values();
    var v := 8 * b;
    if c == 0 {
      assert Shr(v, c) == v && !Loses(v, c);
    } else if c == 1 {
      assert Shr(v, c) == 4 * b && !Loses(v, c);
    } else if c == 2 {
      assert Shr(v, c) == 2 * b && !Loses(v, c);
    } else {
      assert Shr(v, c) == b && !Loses(v, c);
    }
  }

  lemma ShiftBound(x: nat, d: nat, m: nat)
    requires 0 < m <= d
    ensures x / d <= x / m
  {
    DivModBasic(x, d);
    DivModBasic(x, m);
    if x / d > x / m {
      ProductLe(m, d, x / d);
      ProductLe(x / m + 1, x / d, m);
    }
  }

  /** Adding or subtracting an exact even number keeps what a significand stands for. */
  lemma StandsSum(A: nat, S: nat, num: nat, den: nat)
    requires den > 0 && A % 2 == 0 && Stands(S, 2, num, den)
    ensures A * den + num >= 0 && Stands(A + S, 2, A * den + num, den)
    ensures S <= A ==> A * den - num >= 0 && Stands(A - S, 2, A * den - num, den)
  {
    Nonnegative(A, den);
    Distribute(A, S, den);
    Distribute(A, S + 1, den);
    Distribute(A, S - 1, den);
    if S <= A {
      Nonnegative(A - S, den);
      if S % 2 == 1 { Nonnegative(A - S - 1, den); }
    }
  }

  lemma Distribute(a: int, s: int, d: int)
    ensures (a + s) * d == a * d + s * d
    ensures (a - s) * d == a * d - s * d
  {
  }

  /** The aligned numerator is the exact sum, up to the common scale. */
  lemma AlignedExact(a: nat, aExponent: nat, b: nat, bExponent: nat, subtract: bool)
    requires Ordered(a, aExponent, b, bExponent)
    ensures Aligned(a, b, aExponent - bExponent, subtract) * Pow2(aExponent - 1)
         == Combined(a, aExponent, b, bExponent, subtract) * (8 * Pow2(aExponent - bExponent))
  {
    var c := aExponent - bExponent;
    var u, v, P := Pow2(aExponent - 1), Pow2(bExponent - 1), Pow2(c);
    Pow2Add(bExponent - 1, c);
    AlignedProducts(a, b, u, v, P);
  }

  lemma AlignedProducts(a: nat, b: nat, u: nat, v: nat, P: nat)
    requires u == v * P
    ensures (8 * (a * P) + 8 * b) * u == (a * u + b * v) * (8 * P)
    ensures (8 * (a * P) - 8 * b) * u == (a * u - b * v) * (8 * P)
  {
    assert 8 * (a * P) * u == a * u * (8 * P);
    assert 8 * b * u == b * v * (8 * P);
  }

  lemma CombinedSign(aSign: u16, a: nat, aExponent: nat, bSign: u16, b: nat, bExponent: nat)
    requires Ordered(a, aExponent, b, bExponent)
    requires (aSign == 0 || aSign == 0x8000) && (bSign == 0 || bSign == 0x8000)
    ensures var n := Combined(a, aExponent, b, bExponent, aSign != bSign);
            && Scaled(aSign, a, aExponent) + Scaled(bSign, b, bExponent) == (if aSign == 0 then n else -n)
            && (n > 0 <==> Aligned(a, b, aExponent - bExponent, aSign != bSign) > 0)
            && (n == 0 <==> Aligned(a, b, aExponent - bExponent, aSign != bSign) == 0)
            && (aSign == bSign ==> n > 0)
  {
    AlignedExact(a, aExponent, b, bExponent, aSign != bSign);
    var n, m := Combined(a, aExponent, b, bExponent, aSign != bSign), Aligned(a, b, aExponent - bExponent, aSign != bSign);
    var u, P := Pow2(aExponent - 1), 8 * Pow2(aExponent - bExponent);
    ProductOrder(0, n, P);
    ProductOrder(0, m, u);
    Nonnegative(a, Pow2(aExponent - bExponent));
  }

  lemma StandsExactly(E: nat, num: nat, den: nat)
    requires den > 0 && num == E * den
    ensures Stands(E, 4, num, den)
  {
    ProductOrder(E - E % 4, E, den);
    ProductOrder(E, E - E % 4 + 4, den);
  }

  lemma StandsAfterShifts(R: nat, j: nat, exact: bool, num: nat, den: nat)
    requires den > 0 && Stands(R, 2, num, den)
    requires if exact then num == R * den else j <= 1
    ensures num * Pow2(j) >= 0 && R * Pow2(j) >= 0
    ensures Stands(R * Pow2(j), 4, num * Pow2(j), den)
  {
    hide Pow2;
    Pow2Values();
    Nonnegative(num, Pow2(j));
    Nonnegative(R, Pow2(j));
    if exact {
      Swap(R, den, Pow2(j));
      StandsExactly(R * Pow2(j), num * Pow2(j), den);
    } else if j == 0 {
      StandsCoarser(R, num, den);
    } else {
      StandsDoubled(R, num, den);
    }
  }

  /** What pack_float promises, in terms of the exact sum. */
  lemma FinishSum(r: Float, sign: u16, exponent: nat, num: nat, den: nat, n: nat)
    requires exponent >= 1 && den > 0 && num * Pow2(exponent - 1) == n * (8 * den)
    requires RoundedTo(r, sign == 0x8000, ScaledNum(exponent, num), ScaledDen(exponent, den))
    ensures RoundedTo(r, sign == 0x8000, n, 1)
  {
    RoundedSameRatio(r, sign == 0x8000, ScaledNum(exponent, num), ScaledDen(exponent, den), n, 1);
  }

  method AddOrdered(aExponent: nat, aSign: u16, a: Words, bExponent: nat, bSign: u16, b: Words)
    returns (r: Float)
    requires (aSign == 0 || aSign == 0x8000) && (bSign == 0 || bSign == 0x8000)
    requires Ordered(a.Val(), aExponent, b.Val(), bExponent)
    ensures IsRoundedSum(r, Scaled(aSign, a.Val(), aExponent) + Scaled(bSign, b.Val(), bExponent))
  {
    hide *;
    OrderedMeans(a.Val(), aExponent, b.Val(), bExponent);
    ghost var c, P := aExponent - bExponent, Pow2(aExponent - bExponent);
    ghost var num := Aligned(a.Val(), b.Val(), c, aSign != bSign);
    ghost var n := Combined(a.Val(), aExponent, b.Val(), bExponent, aSign != bSign);
    AlignedOperands(a.Val(), aExponent, b.Val(), bExponent);
    AlignedExact(a.Val(), aExponent, b.Val(), bExponent, aSign != bSign);
    CombinedSign(aSign, a.Val(), aExponent, bSign, b.Val(), bExponent);
    var aExtended, bExtended := ExtendSignificand(a), ExtendSignificand(b);
    bExtended := ShiftRightSticky(bExtended, aExponent - bExponent);
    AlignedStands(a.Val(), b.Val(), bExtended.Val(), c, aSign != bSign);
    if aSign == bSign {
      r := PackSum(aSign, aExponent, Add(aExtended, bExtended), num, P, n);
    } else {
      r := PackDifference(aSign, aExponent, Subtract(aExtended, bExtended), c, num, n);
    }
    MakeRoundedSum(r, aSign == 0x8000, n);
  }

  lemma MakeRoundedSum(r: Float, negative: bool, n: nat)
    requires if n == 0 then r == Float(0, 0) else RoundedTo(r, negative, n, 1)
    ensures IsRoundedSum(r, if negative then -(n as int) else n)
  {
    hide RoundedTo;
  }

  lemma AlignedStands(a: nat, b: nat, S: nat, c: nat, subtract: bool)
    requires Stands(S, 2, 8 * b, Pow2(c)) && S <= 8 * a
    ensures var num := Aligned(a, b, c, subtract);
            var R := if subtract then 8 * a - S else 8 * a + S;
            num >= 0 && Stands(R, 2, num, Pow2(c)) && (S * Pow2(c) == 8 * b ==> num == R * Pow2(c))
  {
    hide *;
    StandsSum(8 * a, S, 8 * b, Pow2(c));
    MulAssoc(8, a, Pow2(c));
    Distribute(8 * a, S, Pow2(c));
    AlignedIs(a, b, c, subtract);
  }

  lemma AlignedIs(a: nat, b: nat, c: nat, subtract: bool)
    ensures Aligned(a, b, c, subtract) == 8 * (a * Pow2(c)) + if subtract then -8 * b else 8 * b
  {
  }

  /** __addsf3 for operands of equal sign, after alignment. */
  method PackSum(sign: u16, aExponent: nat, sum: Words, ghost num: nat, ghost den: nat, ghost n: nat)
    returns (r: Float)
    requires (sign == 0 || sign == 0x8000) && 1 <= aExponent < 255 && den > 0
    requires sum.Val() < 0x1000_0000 && (aExponent > 1 ==> sum.Val() >= 0x400_0000)
    requires Stands(sum.Val(), 2, num, den) && num * Pow2(aExponent - 1) == n * (8 * den)
    ensures RoundedTo(r, sign == 0x8000, n, 1)
  {
    hide RoundedTo, Stands, And, StickyShift;
    var exponent, result := aExponent, sum;
    ghost var d := den;
    TopBits(result);
    if And(result.high, 0x0800) != 0 {
      StandsShifted(result.Val(), 1, num, den);
      StickyHalf(result.Val());
      result := ShiftRightSticky(result, 1);
      exponent := exponent + 1;
      d := den * Pow2(1);
      DoubledScale(num, Pow2(aExponent - 1), n, den);
    }
    StandsCoarser(result.Val(), num, d);
    r := PackFloat(sign, exponent, result, num, d);
    FinishSum(r, sign, exponent, num, d, n);
  }

  lemma StickyHalf(v: nat)
    requires 0x800_0000 <= v < 0x1000_0000
    ensures 0x400_0000 <= StickyShift(v, 1) < 0x800_0000
  {
  }

  lemma DoubledScale(num: nat, u: nat, n: nat, den: nat)
    requires num * u == n * (8 * den)
    ensures num * (2 * u) == n * (8 * (den * 2))
  {
    assert num * (2 * u) == 2 * (num * u);
    assert n * (8 * (den * 2)) == 2 * (n * (8 * den));
  }

  /** __addsf3 for operands of opposite sign, after alignment: up to one left shift can
  move a sticky bit, and only when the exponents were so far apart that one is enough. */
  method PackDifference(sign: u16, aExponent: nat, difference: Words, ghost c: nat, ghost num: nat, ghost n: nat)
    returns (r: Float)
    requires (sign == 0 || sign == 0x8000) && 1 <= aExponent < 255
    requires difference.Val() < 0x800_0000
    requires if c >= 4 then difference.Val() >= 0x200_0000 else num == difference.Val() * Pow2(c)
    requires Stands(difference.Val(), 2, num, Pow2(c)) && num * Pow2(aExponent - 1) == n * (8 * Pow2(c))
    requires n == 0 <==> num == 0
    ensures if n == 0 then r == Float(0, 0) else RoundedTo(r, sign == 0x8000, n, 1)
  {
    hide RoundedTo, Stands, And, Pow2;
    var exponent, result := aExponent, difference;
    ghost var R := difference.Val();
    StandsForZero(R, num, Pow2(c));
    if result.IsZero() {
      return Zero(0);
    }
    assert Pow2(0) == 1 by { Pow2Values(); }
    TopBits(result);
    while And(result.high, 0x0400) == 0 && exponent > 1
      invariant 1 <= exponent <= aExponent
      invariant result.Val() == R * Pow2(aExponent - exponent) && result.Val() < 0x800_0000
      invariant c >= 4 ==> aExponent == exponent || (aExponent == exponent + 1 && result.Val() >= 0x400_0000)
      invariant And(result.high, 0x0400) == 0 <==> result.Val() < 0x400_0000
    {
      DoublingStep(R, aExponent - exponent, result.Val());
      result := ShiftLeftOne(result);
      exponent := exponent - 1;
      TopBits(result);
    }
    ghost var j := aExponent - exponent;
    StandsAfterShifts(R, j, c < 4, num, Pow2(c));
    r := PackFloat(sign, exponent, result, num * Pow2(j), Pow2(c));
    Pow2Add(j, exponent - 1);
    MulAssoc(num, Pow2(j), Pow2(exponent - 1));
    FinishSum(r, sign, exponent, num * Pow2(j), Pow2(c), n);
  }

  lemma StandsForZero(E: nat, num: nat, den: nat)
    requires den > 0 && Stands(E, 2, num, den)
    ensures E == 0 <==> num == 0
  {
    if E % 2 == 0 { ProductOrder(0, E, den); } else { Nonnegative(E - E % 2, den); }
  }
}
