/** truncf, floorf, ceilf and roundf on the 32-bit pattern (bits.c). */
module IntegralFloat {
  import opened Bits
  import opened Rounding
  import opened Packing
  import opened Binary32
  import opened IntegralRounding

  // ----- what is promised -----

  ghost function Unit(): (u: nat)
    ensures u > 0
  {
    One(23, 127)
  }

  /** The integer part. */
  ghost predicate IsTrunc(x: Float, r: Float) {
    if !x.IsFinite() then r == x
    else r.IsFinite() && r.Negative() == x.Negative() && IsIntegerPart(x.Magnitude(), r.Magnitude(), Unit())
  }

  /** The greatest integer not above x; the sign is that of x even where the result is zero. */
  ghost predicate IsFloor(x: Float, r: Float) {
    if !x.IsFinite() then r == x
    else r.IsFinite() && r.Negative() == x.Negative() && IsGreatestBelow(x.Negative(), x.Magnitude(), r.Magnitude(), Unit())
  }

  /** The least integer not below x. */
  ghost predicate IsCeil(x: Float, r: Float) {
    if !x.IsFinite() then r == x
    else r.IsFinite() && r.Negative() == x.Negative() && IsLeastAbove(x.Negative(), x.Magnitude(), r.Magnitude(), Unit())
  }

  /** The nearest integer, halfway cases away from zero. */
  ghost predicate IsRound(x: Float, r: Float) {
    if !x.IsFinite() then r == x
    else r.IsFinite() && r.Negative() == x.Negative() && IsNearestInteger(x.Magnitude(), r.Magnitude(), Unit())
  }

  // ----- patterns -----

  /** A pattern that changes below the sign bit. */
  lemma SameSignBits(x: Float, r: Float, d: int)
    requires r.Bits() == x.Bits() + d && 0 <= x.Pattern() + d < 0x8000_0000
    ensures r.Negative() == x.Negative() && r.Pattern() == x.Pattern() + d
  {
    hide Float.Pattern, Float.Bits, Float.Negative;
    BitsMeaning(x);
    BitsMeaning(r);
  }

  /** The exponent field. */
  function Field(x: Float): (e: nat)
    ensures e == x.Pattern() / Pow2(23) && e == Exponent(x) && e <= 255
    ensures x.IsFinite() <==> e < 255
  {
    assert Pow2(23) == 0x80_0000 by { Pow2Values(); }
    Exponent(x)
  }

  /** bits & ~((1 << k) - 1) and bits & (1 << (k - 1)) */
  lemma Masked(bits: u32, k: nat)
    requires 1 <= k <= 23
    ensures 0 <= Pow2(k) - 1 <= 0xffff_ffff && And(bits, 0xffff_ffff - (Pow2(k) - 1)) == ClearLow(bits, k)
    ensures And(bits, Pow2(k - 1)) != 0 <==> bits / Pow2(k - 1) % 2 == 1
  {
    hide *;
    var d, m := Pow2(k), Pow2(32 - k);
    Pow2Add(k, 32 - k);
    Pow2Values();
    MaskProduct(d, m);
    AndHighMask(bits, d * (m - 1), m - 1, k);
    ShrIs(bits, k);
    AndMask(Shr(bits, k), m - 1, 32 - k);
    DivModBasic(bits, d);
    QuotientRange(bits, d, m, bits / d, bits % d);
    DivModUnique(bits / d, m, 0, bits / d);
    ClearIs(bits, k);
    AndBit(bits, k - 1);
    ShrIs(bits, k - 1);
    TestedBit(Pow2(k - 1), bits / Pow2(k - 1));
  }

  lemma MaskProduct(d: nat, m: nat)
    requires d >= 1 && m >= 1 && d * m == 0x1_0000_0000
    ensures d * (m - 1) == 0xffff_ffff - (d - 1) && 0 <= d * (m - 1) && d <= 0x1_0000_0000
  {
    MulAtLeast(d, m);
    assert d * (m - 1) == d * m - d;
  }

  lemma QuotientRange(x: nat, d: nat, m: nat, q: int, r: int)
    requires x == d * q + r && 0 <= r < d && x < d * m
    ensures 0 <= q < m
  {
    if q < 0 { ProductLe(q, -1, d); }
    if q >= m { ProductLe(m, q, d); }
  }

  lemma TestedBit(d: nat, q: int)
    requires d > 0
    ensures d * (q % 2) != 0 <==> q % 2 == 1
  {
  }

  lemma ClearIs(p: nat, k: nat)
    ensures ClearLow(p, k) == p - p % Pow2(k)
  {
  }

  /** The sign bit is above everything that is cleared. */
  lemma ClearedBelowSign(x: Float, k: nat)
    requires 1 <= k <= 23
    ensures x.Bits() - ClearLow(x.Bits(), k) == x.Pattern() - ClearLow(x.Pattern(), k)
    ensures ClearLow(x.Bits(), k) < 0x1_0000_0000
    ensures x.Bits() / Pow2(k - 1) % 2 == x.Pattern() / Pow2(k - 1) % 2
  {
    hide *;
    BitsMeaning(x);
    var s, p, b := if x.Negative() then 1 else 0, x.Pattern(), x.Bits();
    LowKept(b, p, s, k);
    BitKept(b, p, s, k);
    ClearNonnegative(b, k);
  }

  lemma LowKept(b: nat, p: nat, s: nat, k: nat)
    requires 1 <= k <= 23 && b == p + 0x8000_0000 * s
    ensures b - ClearLow(b, k) == p - ClearLow(p, k)
  {
    hide *;
    HighMultiple(b, p, s, k, 31 - k);
    ClearIs(b, k);
    ClearIs(p, k);
  }

  lemma BitKept(b: nat, p: nat, s: nat, k: nat)
    requires 1 <= k <= 23 && b == p + 0x8000_0000 * s
    ensures b / Pow2(k - 1) % 2 == p / Pow2(k - 1) % 2
  {
    hide *;
    HighMultiple(b, p, s, k - 1, 32 - k);
    Pow2Step(31 - k);
    EvenRest(p / Pow2(k - 1), s, Pow2(31 - k));
  }

  lemma HighMultiple(b: nat, p: nat, s: nat, k: nat, j: nat)
    requires b == p + 0x8000_0000 * s && k + j == 31
    ensures b % Pow2(k) == p % Pow2(k) && b / Pow2(k) == p / Pow2(k) + Pow2(j) * s
  {
    hide *;
    Pow2Add(k, j);
    assert Pow2(31) == 0x8000_0000 by { Pow2Of31(); }
    DivModBasic(p, Pow2(k));
    MultipleAdded(Pow2(k), p / Pow2(k), p % Pow2(k), Pow2(j), s, b);
  }

  lemma MultipleAdded(d: nat, q: int, r: int, m: nat, s: nat, b: int)
    requires d > 0 && 0 <= r < d && b == d * q + r + d * m * s
    ensures b % d == r && b / d == q + m * s
  {
    assert d * (q + m * s) == d * q + d * m * s;
    DivModUnique(b, d, q + m * s, r);
  }

  lemma EvenRest(q: int, s: nat, half: nat)
    ensures (q + 2 * half * s) % 2 == q % 2
  {
    assert 2 * half * s == 2 * (half * s);
  }

  // ----- truncation -----

  /** What trunc_float_bits leaves. */
  ghost predicate Truncated(x: Float, bits: u32) {
    var p, e, r := x.Pattern(), Field(x), FromBits(bits);
    && r.Negative() == x.Negative()
    && (e >= 150 ==> bits == x.Bits())
    && (e < 127 ==> r.Pattern() == 0)
    && (127 <= e < 150 ==> r.Pattern() == ClearLow(p, 150 - e))
  }

  lemma TruncatedMeans(x: Float, bits: u32)
    requires Truncated(x, bits)
    ensures var p, e, r := x.Pattern(), Field(x), FromBits(bits);
            && r.Negative() == x.Negative() && (e >= 150 ==> r == x)
            && (e < 127 ==> r.Pattern() == 0) && (127 <= e < 150 ==> r.Pattern() == ClearLow(p, 150 - e))
  {
    hide Float.Pattern, Float.Negative, Float.Bits, ClearLow, FromBits;
    BitsMeaning(x);
  }

  method TruncFloatBits(shape: Float) returns (bits: u32)
    ensures Truncated(shape, bits)
  {
    hide *;
    var exponent := Exponent(shape);
    assert Field(shape) == exponent;
    BitsMeaning(shape);
    if exponent == 0xff {
      bits := shape.Bits();
      KeptBits(shape);
      return;
    }
    if exponent < 127 {
      bits := Float(0, And(shape.word1, 0x8000)).Bits();
      Cleared(shape);
      return;
    }
    if exponent >= 150 {
      bits := shape.Bits();
      KeptBits(shape);
      return;
    }
    var shift := 23 - (exponent - 127);
    var mask := Pow2(shift) - 1;
    Masked(shape.Bits(), shift);
    ClearedBelowSign(shape, shift);
    bits := And(shape.Bits(), 0xffff_ffff - mask);
    LowCleared(shape, bits, shift);
  }

  lemma KeptBits(x: Float)
    requires Field(x) >= 150
    ensures Truncated(x, x.Bits())
  {
    hide Float.Pattern, Float.Negative, Float.Bits;
    BitsMeaning(x);
  }

  lemma Cleared(x: Float)
    requires Field(x) < 127
    ensures And(x.word1, 0x8000) < 0x1_0000 && Truncated(x, Float(0, And(x.word1, 0x8000)).Bits())
  {
    hide *;
    AndSignBit(x.word1);
    SignIs(x);
    var s := And(x.word1, 0x8000);
    WordPattern(s);
    BitsMeaning(Float(0, s));
    MakeTruncated(x, Float(0, s).Bits());
  }

  lemma WordPattern(s: u16)
    requires s == 0 || s == 0x8000
    ensures Float(0, s).Pattern() == 0 && (Float(0, s).Negative() <==> s == 0x8000)
  {
  }

  lemma MakeTruncated(x: Float, bits: u32)
    requires Field(x) < 127 && FromBits(bits).Negative() == x.Negative() && FromBits(bits).Pattern() == 0
    ensures Truncated(x, bits)
  {
    hide Float.Pattern, Float.Negative, Float.Bits, FromBits;
  }

  lemma LowCleared(x: Float, bits: u32, k: nat)
    requires 127 <= Field(x) < 150 && k == 150 - Field(x) && bits == ClearLow(x.Bits(), k)
    ensures Truncated(x, bits)
  {
    hide Float.Pattern, Float.Negative, Float.Bits, ClearLow, FromBits;
    ClearedBelowSign(x, k);
    SameSignBits(x, FromBits(bits), bits - x.Bits());
  }

  /** The magnitude of what truncation leaves, and whether it leaves everything. */
  lemma Outcome(x: Float, bits: u32)
    requires Truncated(x, bits)
    ensures Field(x) >= 150 ==> bits == x.Bits()
    ensures var r := FromBits(bits);
            x.IsFinite() ==>
              && r.IsFinite() && r.Negative() == x.Negative() && r.Magnitude() == Times(Quot(x.Magnitude(), Unit()), Unit())
              && (bits == x.Bits() <==> x.Magnitude() % Unit() == 0)
  {
    hide *;
    var r, p, e := FromBits(bits), x.Pattern(), Field(x);
    TruncatedMeans(x, bits);
    BitsMeaning(x);
    BitsMeaning(r);
    if !x.IsFinite() {
      return;
    }
    PatternMagnitude(x);
    PatternMagnitude(r);
    UnitIs();
    FiniteIs(x);
    FiniteIs(r);
    QuotTimes(x.Magnitude(), Unit());
    QuotIs(x.Magnitude(), Unit());
    if e >= 150 {
      NoFraction(23, 127, p);
    } else if e < 127 {
      BelowOne(23, 127, p);
      SmallQuotient(x.Magnitude(), Unit());
      PatternIsZero(23, p);
      PatternIsZero(23, r.Pattern());
    } else {
      PointShiftIs(e);
      FractionCleared(23, 127, p);
      ClearIs(p, 150 - e);
      SmallerPattern(p, r.Pattern(), 150 - e);
    }
  }

  lemma PatternMagnitude(x: Float)
    ensures Pow2(23) > 0 && x.Magnitude() == Mag(Pow2(23), x.Pattern())
  {
    hide Mag, Float.Pattern;
    Pow2Values();
  }

  lemma UnitIs()
    ensures Unit() == One(23, 127)
  {
  }

  lemma FiniteIs(x: Float)
    ensures x.IsFinite() <==> x.Pattern() < 0x7f80_0000
  {
  }

  lemma PointShiftIs(e: nat)
    requires 127 <= e < 150
    ensures PointShift(23, 127, e) == 150 - e
  {
  }

  method TruncF(value: Float) returns (r: Float)
    ensures IsTrunc(value, r)
  {
    hide *;
    var bits := TruncFloatBits(value);
    Outcome(value, bits);
    BitsMeaning(value);
    r := FromBits(bits);
    TruncFrom(value, r);
  }

  lemma TruncFrom(x: Float, r: Float)
    requires if x.IsFinite() then r.IsFinite() && r.Negative() == x.Negative() && r.Magnitude() == Times(Quot(x.Magnitude(), Unit()), Unit())
             else r == x
    ensures IsTrunc(x, r)
  {
    hide Unit, Float.Magnitude, Times, Quot;
  }

  // ----- the next integer -----

  /** Adding one to the integer part, with the carry into the exponent. */
  lemma NextInteger(x: Float, bits: u32)
    requires Truncated(x, bits) && 127 <= Field(x) < 150
    ensures bits + Pow2(150 - Field(x)) < 0x1_0000_0000
    ensures var r := FromBits(bits + Pow2(150 - Field(x)));
            r.IsFinite() && r.Negative() == x.Negative() && r.Magnitude() == Times(Quot(x.Magnitude(), Unit()) + 1, Unit())
  {
    hide *;
    var p, e, t := x.Pattern(), Field(x), FromBits(bits);
    var k := 150 - e;
    TruncatedMeans(x, bits);
    PointShiftIs(e);
    FractionCleared(23, 127, p);
    PatternMagnitude(x);
    UnitIs();
    QuotIs(x.Magnitude(), Unit());
    BitsMeaning(t);
    IncrementedRange(p, k, e);
    var r := FromBits(bits + Pow2(k));
    SameSignBits(t, r, Pow2(k));
    PatternMagnitude(r);
    FiniteIs(r);
  }

  lemma IncrementedRange(p: nat, k: nat, e: nat)
    requires e == p / Pow2(23) && e < 150 && k <= 23
    ensures ClearLow(p, k) + Pow2(k) < 0x7f80_0000
  {
    hide Pow2;
    Pow2Values();
    Pow2Monotone(k, 23);
    ClearNonnegative(p, k);
    DivModBasic(p, Pow2(23));
  }

  /** 0.0 or 1.0 with a sign. */
  function Small(negative: bool, one: bool): Float {
    Float(0, (if negative then 0x8000 else 0) + if one then 0x3f80 else 0)
  }

  lemma SmallMagnitude(negative: bool, one: bool)
    ensures var r := Small(negative, one); r.IsFinite() && r.Negative() == negative && r.Magnitude() == if one then Unit() else 0
  {
    hide *;
    var r := Small(negative, one);
    SmallPattern(negative, one);
    FiniteIs(r);
    PatternMagnitude(r);
    OnePattern(23, 127);
    UnitIs();
    Pow2Values();
    PatternIsZero(23, 0);
  }

  lemma SmallPattern(negative: bool, one: bool)
    ensures var r := Small(negative, one); r.Negative() == negative && r.Pattern() == if one then 0x80_0000 * 127 else 0
  {
  }

  lemma BelowUnit(x: Float)
    requires Field(x) < 127
    ensures x.IsFinite() && x.Magnitude() < Unit() && Quot(x.Magnitude(), Unit()) == 0 && x.Magnitude() % Unit() == x.Magnitude()
    ensures Times(0, Unit()) == 0 && Times(1, Unit()) == Unit()
    ensures 2 * x.Magnitude() >= Unit() <==> Field(x) == 126
  {
    hide *;
    PatternMagnitude(x);
    UnitIs();
    BelowOne(23, 127, x.Pattern());
    SmallQuotient(x.Magnitude(), Unit());
    TimesMeaning(1, Unit());
  }

  lemma FloorFrom(x: Float, r: Float)
    requires if !x.IsFinite() then r == x
             else r.IsFinite() && r.Negative() == x.Negative()
                  && var m, u := x.Magnitude(), Unit();
                     r.Magnitude() == if m % u == 0 then m else if x.Negative() then Times(Quot(m, u) + 1, u) else Times(Quot(m, u), u)
    ensures IsFloor(x, r)
  {
    hide Float.Pattern, Float.Magnitude, Unit, Mag;
    if x.IsFinite() { GreatestBelow(x.Negative(), x.Magnitude(), r.Magnitude(), Unit()); }
  }

  lemma CeilFrom(x: Float, r: Float)
    requires if !x.IsFinite() then r == x
             else r.IsFinite() && r.Negative() == x.Negative()
                  && var m, u := x.Magnitude(), Unit();
                     r.Magnitude() == if m % u == 0 then m else if x.Negative() then Times(Quot(m, u), u) else Times(Quot(m, u) + 1, u)
    ensures IsCeil(x, r)
  {
    hide Float.Pattern, Float.Magnitude, Unit, Mag;
    if x.IsFinite() { LeastAbove(x.Negative(), x.Magnitude(), r.Magnitude(), Unit()); }
  }

  lemma SmallBits(bits: u32, negative: bool)
    requires bits == if negative then 0xbf80_0000 else 0x3f80_0000
    ensures FromBits(bits) == Small(negative, true)
  {
  }

  method FloorF(value: Float) returns (r: Float)
    ensures IsFloor(value, r)
  {
    hide *;
    var integral := TruncFloatBits(value);
    var exponent := Exponent(value);
    assert Field(value) == exponent;
    Outcome(value, integral);
    BitsMeaning(value);
    AndSignBit(value.word1);
    SignIs(value);
    if exponent == 0xff || integral == value.Bits() {
      FloorFrom(value, value);
      return value;
    }
    if And(value.word1, 0x8000) == 0 {
      r := FromBits(integral);
      FloorFrom(value, r);
      return;
    }
    if exponent < 127 {
      r := FromBits(0xbf80_0000);
      BelowUnit(value);
      SmallMagnitude(true, true);
      SmallBits(0xbf80_0000, true);
    } else {
      NextInteger(value, integral);
      assert 23 - (exponent - 127) == 150 - Field(value);
      r := FromBits(integral + Pow2(23 - (exponent - 127)));
    }
    FloorFrom(value, r);
  }

  method CeilF(value: Float) returns (r: Float)
    ensures IsCeil(value, r)
  {
    hide *;
    var integral := TruncFloatBits(value);
    var exponent := Exponent(value);
    assert Field(value) == exponent;
    Outcome(value, integral);
    BitsMeaning(value);
    AndSignBit(value.word1);
    SignIs(value);
    if exponent == 0xff || integral == value.Bits() {
      CeilFrom(value, value);
      return value;
    }
    if And(value.word1, 0x8000) != 0 {
      r := FromBits(integral);
      CeilFrom(value, r);
      return;
    }
    if exponent < 127 {
      r := FromBits(0x3f80_0000);
      BelowUnit(value);
      SmallMagnitude(false, true);
      SmallBits(0x3f80_0000, false);
    } else {
      NextInteger(value, integral);
      assert 23 - (exponent - 127) == 150 - Field(value);
      r := FromBits(integral + Pow2(23 - (exponent - 127)));
    }
    CeilFrom(value, r);
  }

  lemma SignIs(x: Float)
    ensures x.Negative() <==> x.word1 >= 0x8000
  {
  }

  // ----- round -----

  lemma RoundFrom(x: Float, r: Float, up: bool)
    requires x.IsFinite() && r.IsFinite() && r.Negative() == x.Negative()
    requires up <==> 2 * (x.Magnitude() % Unit()) >= Unit()
    requires r.Magnitude() == Times(Quot(x.Magnitude(), Unit()) + if up then 1 else 0, Unit())
    ensures IsRound(x, r)
  {
    hide Float.Pattern, Float.Magnitude, Unit, Mag;
    NearestInteger(x.Magnitude(), r.Magnitude(), Unit(), up);
  }

  /** From exponent field 150 up the value is an integer, or not finite. */
  lemma IntegerRounds(x: Float)
    requires Field(x) >= 150
    ensures IsRound(x, x)
  {
    hide Float.Pattern, Float.Magnitude, Unit, Mag, FromBits, Quot, Times, NearestEven;
    KeptBits(x);
    Outcome(x, x.Bits());
    if x.IsFinite() {
      QuotTimes(x.Magnitude(), Unit());
      BitsMeaning(x);
      RoundFrom(x, x, false);
    }
  }

  /** magnitude: the pattern without its sign, cleared and perhaps incremented; then the sign. */
  lemma Assembled(x: Float, magnitude: nat, r: Float)
    requires magnitude < 0x8000_0000 && r == FromBits(magnitude).(word1 := Or(FromBits(magnitude).word1, Sign(x)))
    ensures r.Negative() == x.Negative() && r.Pattern() == magnitude
  {
    hide Or;
    var m := FromBits(magnitude);
    OrSign(Sign(x), m.word1);
    OrCommutes(Sign(x), m.word1);
  }

  lemma SignRange(x: Float, magnitude: nat)
    requires magnitude < 0x8000_0000
    ensures Or(FromBits(magnitude).word1, Sign(x)) < 0x1_0000
  {
    hide Or;
    OrSign(Sign(x), FromBits(magnitude).word1);
    OrCommutes(Sign(x), FromBits(magnitude).word1);
  }

  method RoundF(value: Float) returns (r: Float)
    ensures IsRound(value, r)
  {
    hide *;
    var sign := And(value.word1, 0x8000);
    var magnitude := And(value.Bits(), 0x7fff_ffff);
    var exponent := Exponent(value);
    assert Field(value) == exponent;
    BitsFields(value);
    AndSignBit(value.word1);
    SignIs(value);
    if exponent == 0xff || exponent >= 150 {
      IntegerRounds(value);
      return value;
    }
    if exponent < 126 {
      BelowUnit(value);
      SmallMagnitude(value.Negative(), false);
      SmallWord(value.Negative());
      r := Float(0, sign);
      RoundFrom(value, r, false);
      return;
    }
    if exponent == 126 {
      BelowUnit(value);
      SmallMagnitude(value.Negative(), true);
      SmallWord(value.Negative());
      OrSign(sign, 0x3f80);
      r := Float(0, Or(sign, 0x3f80));
      RoundFrom(value, r, true);
      return;
    }
    var shift := 23 - (exponent - 127);
    var mask := Pow2(shift) - 1;
    Masked(magnitude, shift);
    Masked(value.Bits(), shift);
    ClearedBelowSign(value, shift);
    IncrementedRange(magnitude, shift, exponent);
    magnitude := And(magnitude, 0xffff_ffff - mask);
    var up := And(value.Bits(), Pow2(shift - 1)) != 0;
    if up {
      magnitude := magnitude + Pow2(shift);
    }
    r := FromBits(magnitude);
    SignRange(value, magnitude);
    SignField(value);
    r := r.(word1 := Or(r.word1, sign));
    Assembled(value, magnitude, r);
    Rounded(value, r, shift, up);
  }

  lemma SmallWord(negative: bool)
    ensures Small(negative, true) == Float(0, if negative then 0xbf80 else 0x3f80) && Small(negative, false) == Float(0, if negative then 0x8000 else 0)
  {
  }

  lemma SignField(x: Float)
    ensures Sign(x) == And(x.word1, 0x8000)
  {
  }

  lemma Rounded(x: Float, r: Float, k: nat, up: bool)
    requires 127 <= Field(x) < 150 && k == 150 - Field(x) && r.Negative() == x.Negative()
    requires up <==> x.Pattern() / Pow2(k - 1) % 2 == 1
    requires r.Pattern() == ClearLow(x.Pattern(), k) + if up then Pow2(k) else 0
    ensures IsRound(x, r)
  {
    hide *;
    var p, e := x.Pattern(), Field(x);
    PointShiftIs(e);
    FractionCleared(23, 127, p);
    HalfBit(23, 127, p);
    PatternMagnitude(x);
    PatternMagnitude(r);
    UnitIs();
    IncrementedRange(p, k, e);
    FiniteIs(r);
    RoundFrom(x, r, up);
  }
}
