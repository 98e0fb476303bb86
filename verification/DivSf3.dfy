/** __divsf3: binary32 division (divsf3.c). */
module DivSf3 {
  import opened Bits
  import opened Limbs
  import opened Rounding
  import opened Sticky
  import opened Binary32
  import opened Packing

  /** Section 6 of IEEE 754-2019 for special operands and zero divisors, and correct
  rounding of the exact quotient, in units of 2^-149, for the others. */
  ghost predicate IsQuotient(a: Float, b: Float, r: Float) {
    var negative := a.Negative() != b.Negative();
    if a.IsNaN() then r == QuietNaN(a)
    else if b.IsNaN() then r == QuietNaN(b)
    else if a.IsInfinite() then
      if b.IsInfinite() then r.IsQuietNaN() else r.IsInfinite() && r.Negative() == negative
    else if b.IsInfinite() then r.IsZero() && r.Negative() == negative
    else if b.IsZero() then
      if a.IsZero() then r.IsQuietNaN() else r.IsInfinite() && r.Negative() == negative
    else
      IsRoundedQuotient(a.Magnitude(), b.Magnitude(), negative, r)
  }

  ghost predicate IsRoundedQuotient(a: nat, b: nat, negative: bool, r: Float) {
    RoundedTo(r, negative, Shl(a, 149), b)
  }

  method DivideFloats(a: Float, b: Float) returns (r: Float)
    ensures IsQuotient(a, b, r)
  {
    hide RoundedTo, Mag, Pow2, Or, And, Float.Pattern, IsRoundedQuotient;
    var aExponent, bExponent := Exponent(a), Exponent(b);
    var sign := Xor(Sign(a), Sign(b));
    XorSigns(a, b);
    ClassifyByFields(a);
    ClassifyByFields(b);
    if aExponent == 255 {
      if !FractionIsZero(a) {
        return QuietNaN(a);
      }
      if bExponent == 255 {
        if !FractionIsZero(b) {
          return QuietNaN(b);
        }
        return QNaN();
      }
      return Infinity(sign);
    }
    if bExponent == 255 {
      if !FractionIsZero(b) {
        return QuietNaN(b);
      }
      SignedZero(sign);
      return Zero(sign);
    }
    var aSignificand, bSignificand := Significand(a, aExponent), Significand(b, bExponent);
    FiniteFields(a, aExponent);
    FiniteFields(b, bExponent);
    if aSignificand.IsZero() {
      if bSignificand.IsZero() {
        return QNaN();
      }
      ZeroQuotient(b.Magnitude(), sign);
      return Zero(sign);
    }
    if bSignificand.IsZero() {
      return Infinity(sign);
    }
    r := DivideFinite(a, aExponent, b, bExponent, sign);
  }

  lemma ZeroQuotient(b: nat, sign: u16)
    requires b > 0 && (sign == 0 || sign == 0x8000)
    ensures IsRoundedQuotient(0, b, sign == 0x8000, Zero(sign))
  {
    hide RoundedTo;
    ZeroRounds(sign, b);
  }

  /** __divsf3 for finite nonzero operands. */
  method DivideFinite(a: Float, aField: u16, b: Float, bField: u16, sign: u16) returns (r: Float)
    requires a.IsFinite() && b.IsFinite() && aField == Exponent(a) && bField == Exponent(b)
    requires !a.IsZero() && !b.IsZero()
    requires sign == if a.Negative() != b.Negative() then 0x8000 else 0
    ensures IsRoundedQuotient(a.Magnitude(), b.Magnitude(), a.Negative() != b.Negative(), r)
  {
    hide *;
    var aSignificand, bSignificand := Significand(a, aField), Significand(b, bField);
    FiniteFields(a, aField);
    FiniteFields(b, bField);
    var aStart := if aField != 0 then aField - 127 else -126;
    var bStart := if bField != 0 then bField - 127 else -126;
    var exponent, bUnbiased;
    aSignificand, exponent := NormalizeSignificand(aSignificand, aStart);
    bSignificand, bUnbiased := NormalizeSignificand(bSignificand, bStart);
    ghost var aUnbiased := exponent;
    exponent := exponent - bUnbiased + 127;

    var remainder := aSignificand;
    ghost var doubled := 0;
    if Compare(aSignificand, bSignificand) < 0 {
      remainder := ShiftLeftOne(aSignificand);
      exponent := exponent - 1;
      doubled := 1;
    }
    FirstQuotientBit(aSignificand.Val(), doubled, remainder.Val());
    ghost var n := remainder.Val();
    remainder := Subtract(remainder, bSignificand);
    var quotient := RestoringDivision(remainder, bSignificand);
    ghost var num := Shl(n, 26);
    r := PackFloat(sign, exponent, quotient, num, bSignificand.Val());
    NormalizedMagnitude(a.Magnitude(), Significand(a, aField).Val(), aSignificand.Val(), aStart, aUnbiased);
    NormalizedMagnitude(b.Magnitude(), Significand(b, bField).Val(), bSignificand.Val(), bStart, bUnbiased);
    RoundedQuotient(r, sign == 0x8000, exponent, num, bSignificand.Val(), aSignificand.Val(), 26 + doubled,
                    a.Magnitude(), aStart - aUnbiased, aStart + 126, b.Magnitude(), bStart - bUnbiased, bStart + 126);
  }

  lemma FirstQuotientBit(a: nat, doubled: nat, n: nat)
    requires doubled <= 1 && n == if doubled == 1 then 2 * a else a
    ensures Shl(n, 26) == Shl(a, 26 + doubled)
  {
    assert Pow2(27) == 2 * Pow2(26);
    MulAssoc(a, 2, Pow2(26));
  }

  /** 26 more quotient bits below a leading one, with a sticky bit for the remainder. */
  method RestoringDivision(start: Words, divisor: Words) returns (quotient: Words)
    requires 0x80_0000 <= divisor.Val() < 0x100_0000 && start.Val() < divisor.Val()
    ensures 0x400_0000 <= quotient.Val() < 0x800_0000
    ensures Stands(quotient.Val(), 2, Shl(start.Val() + divisor.Val(), 26), divisor.Val())
    ensures Stands(quotient.Val(), 4, Shl(start.Val() + divisor.Val(), 26), divisor.Val())
  {
    hide *;
    var remainder := start;
    quotient := Words(1, 0);
    var bit := 0;
    ghost var n, d := start.Val() + divisor.Val(), divisor.Val();
    Pow2Values();
    WordsOne();
    ShlZero(n);
    while bit != 26
      invariant 0 <= bit <= 26
      invariant remainder.Val() < divisor.Val()
      invariant Pow2(bit) <= quotient.Val() < 2 * Pow2(bit)
      invariant Shl(n, bit) == quotient.Val() * d + remainder.Val()
    {
      DivisionStep(n, bit, quotient.Val(), d, remainder.Val());
      Pow2Monotone(bit + 1, 26);
      quotient := ShiftLeftOne(quotient);
      remainder := ShiftLeftOne(remainder);
      if Compare(remainder, divisor) >= 0 {
        remainder := Subtract(remainder, divisor);
        quotient := SetLowBit(quotient);
      }
      bit := bit + 1;
    }
    QuotientStands(quotient.Val(), d, remainder.Val(), Shl(n, 26));
    if !remainder.IsZero() {
      quotient := SetLowBit(quotient);
    }
    StandsCoarser(quotient.Val(), Shl(n, 26), d);
  }

  lemma WordsOne()
    ensures Words(1, 0).Val() == 1
  {
  }

  lemma DivisionStep(n: nat, bit: nat, q: nat, d: nat, r: nat)
    requires Shl(n, bit) == q * d + r
    ensures Pow2(bit + 1) == 2 * Pow2(bit)
    ensures Shl(n, bit + 1) == 2 * q * d + 2 * r
    ensures Shl(n, bit + 1) == (2 * q + 1) * d + (2 * r - d)
  {
    MulAssoc(n, 2, Pow2(bit));
    DoubleProduct(q, d);
    assert n * (2 * Pow2(bit)) == 2 * (Shl(n, bit));
    assert (2 * q + 1) * d == 2 * q * d + d;
  }

  /** A truncated quotient with the sticky bit of its remainder stands for the quotient. */
  lemma QuotientStands(q: nat, d: nat, r: nat, num: nat)
    requires r < d && num == q * d + r
    ensures Stands(if r != 0 && q % 2 == 0 then q + 1 else q, 2, num, d)
  {
    assert (q + 1) * d == q * d + d && (q - 1) * d == q * d - d && (q + 2) * d == q * d + 2 * d;
  }

  /** pack_float's promise, restated: with a = k * 2^(pa-da) and b = l * 2^(pb-db), the
  quotient k * 2^t / l of the normalised significands rounds to a / b. */
  lemma RoundedQuotient(r: Float, negative: bool, exponent: int, num: nat, l: nat, k: nat, t: nat,
                        a: nat, da: nat, pa: nat, b: nat, db: nat, pb: nat)
    requires l > 0 && b > 0 && num == Shl(k, t)
    requires RoundedTo(r, negative, ScaledNum(exponent, num), ScaledDen(exponent, l))
    requires Shl(a, da) == Shl(k, pa) && Shl(b, db) == Shl(l, pb)
    requires exponent + t + pb + da == pa + 153 + db
    ensures IsRoundedQuotient(a, b, negative, r)
  {
    hide *;
    var up, down := if exponent >= 1 then exponent - 1 else 0, 3 + if exponent >= 1 then 0 else 1 - exponent;
    ScaledShifts(exponent, num, l);
    ShlShl(k, t, up);
    QuotientShifts(a, k, da, pa, b, l, db, pb, t + up, down, 149);
    RoundedSameTimes(r, negative, Shl(k, t + up), Shl(l, down), Shl(a, 149), b);
    QuotientRounded(a, b, negative, r);
  }

  lemma QuotientRounded(a: nat, b: nat, negative: bool, r: Float)
    requires RoundedTo(r, negative, Shl(a, 149), b)
    ensures IsRoundedQuotient(a, b, negative, r)
  {
  }

  /** k * 2^x over l * 2^y is a * 2^z over b. */
  lemma QuotientShifts(a: nat, k: nat, da: nat, pa: nat, b: nat, l: nat, db: nat, pb: nat, x: nat, y: nat, z: nat)
    requires Shl(a, da) == Shl(k, pa) && Shl(b, db) == Shl(l, pb)
    requires x + pb + da == pa + z + y + db
    ensures Times(Shl(k, x), b) == Times(Shl(a, z), Shl(l, y))
  {
    hide Times, Shl;
    var left, right := Times(Shl(k, x), b), Times(Shl(a, z), Shl(l, y));
    assert Shl(left, db + da) == Shl(Times(k, l), x + pb + da) by {
      ShlShl(left, db, da);
      ShlTimes(Shl(k, x), b, db);
      ShlTimes(Shl(k, x), l, pb);
      ShlTimes(k, l, x);
      ShlShl(Times(k, l), x, pb);
      ShlShl(Times(k, l), x + pb, da);
    }
    assert Shl(right, db + da) == Shl(Times(k, l), pa + z + y + db) by {
      ShlTimes(Shl(a, z), l, y);
      ShlTimes(a, l, z);
      ShlShl(Times(a, l), z, y);
      ShlShl(Times(a, l), z + y, db + da);
      ShlShl(Times(a, l), da, z + y + db);
      ShlTimes(a, l, da);
      ShlTimes(k, l, pa);
      ShlShl(Times(k, l), pa, z + y + db);
    }
    ShlCancel(left, right, db + da);
  }
}
