/** frexpf, ilogbf, and the way back through scalbnf (decompose.c). */
module Decompose {
  import opened Bits
  import opened Rounding
  import opened Packing
  import opened Binary32
  import opened Scalb

  /** m is rm * 2^n exactly, in units that both share. */
  ghost predicate SplitBy(m: nat, rm: nat, n: int) {
    if n >= 0 then m == Shl(rm, n) else rm == Shl(m, -n)
  }

  /** Section 7.12.6.4 of C17: value == r * 2^exponent with 1/2 <= |r| < 1; zeros, infinities and
  NaNs are returned with exponent 0. */
  ghost predicate IsFrexp(value: Float, r: Float, exponent: int) {
    if !value.IsFinite() || value.IsZero() then r == value && exponent == 0
    else
      && r.IsFinite() && r.Negative() == value.Negative() && Pow2(148) <= r.Magnitude() < Pow2(149)
      && SplitBy(value.Magnitude(), r.Magnitude(), exponent)
  }

  const FP_ILOGB0: int := -0x8000_0000
  const FP_ILOGBNAN: int := 0x7fff_ffff

  /** Section 7.12.6.5 of C17: the exponent of the leading bit, subnormal or not. */
  ghost predicate IsILogB(value: Float, k: int) {
    if value.IsZero() then k == FP_ILOGB0
    else if !value.IsFinite() then k == FP_ILOGBNAN
    else k >= -149 && Pow2(k + 149) <= value.Magnitude() < Pow2(k + 150)
  }

  // ----- bits -----

  /** One bit of the upper word, when nothing but the sign is above it. */
  lemma UpperBit(low: nat, top: nat, i: nat)
    requires i < 15 && (top == 0 || top == 0x8000_0000) && low < Pow2(17 + i)
    ensures And((low + top) / 0x1_0000, Pow2(i)) == 0 <==> low < Pow2(16 + i)
  {
    hide *;
    var b := (low + top) / 0x1_0000;
    var s := if top == 0 then 0 else 1;
    Pow2Values();
    Pow2Step(16 + i);
    Pow2Add(16, i);
    Pow2Add(i, 15 - i);
    Pow2Step(14 - i);
    AndBit(b, i);
    ShrIs(b, i);
    var q := if low < Pow2(16 + i) then 0 else 1;
    DivModBasic(low, 0x1_0000);
    DivModUnique(low + top, 0x1_0000, low / 0x1_0000 + 0x8000 * s, low % 0x1_0000);
    TopBit(low, i, q);
    HighAway(b, low / 0x1_0000, Pow2(i), q, Pow2(14 - i), s);
    OnlyBit(Pow2(i), q);
  }

  lemma TopBit(low: nat, i: nat, q: nat)
    requires low < 2 * (0x1_0000 * Pow2(i)) && q == if low < 0x1_0000 * Pow2(i) then 0 else 1
    ensures 0 <= low / 0x1_0000 - q * Pow2(i) < Pow2(i)
  {
    hide *;
    DivModBasic(low, 0x1_0000);
  }

  lemma HighAway(b: nat, l: nat, d: nat, q: nat, half: nat, s: nat)
    requires d > 0 && b == l + 0x8000 * s && 0x8000 == d * (2 * half) && (q == 0 || q == 1) && (s == 0 || s == 1)
    requires 0 <= l - q * d < d
    ensures b / d % 2 == q
  {
    hide *;
    var n := 2 * half * s + q;
    assert d * n == 0x8000 * s + q * d by { if s == 1 { assert d * (2 * half + q) == d * (2 * half) + d * q; } }
    DivModUnique(b, d, n, l - q * d);
    DivModUnique(n, 2, half * s, q);
  }

  lemma OnlyBit(d: nat, q: nat)
    requires d > 0 && (q == 0 || q == 1)
    ensures d * q == 0 <==> q == 0
  {
  }

  lemma FieldsOf(x: Float)
    ensures x.Bits() == x.Pattern() + if x.Negative() then 0x8000_0000 else 0
    ensures And(x.word1, 0x7fff) == x.word1 % 0x8000 && Float(x.word0, x.word1 % 0x8000).Bits() == x.Pattern()
    ensures x.word1 >= 0x8000 <==> x.Negative()
  {
    hide And, Pow2;
    Pow2Values();
    AndMask(x.word1, 0x7fff, 15);
    var w := x.word1;
    DivModUnique(w, 0x8000, if w >= 0x8000 then 1 else 0, if w >= 0x8000 then w - 0x8000 else w);
  }

  // ----- frexpf -----

  /** sign | 0x3f00 | (word[1] & 0x7f): exponent field 126, and the fraction that bits end in. */
  lemma Half(sign: u16, bits: nat)
    requires (sign == 0x8000 || sign == 0) && bits < 0x8000_0000
    ensures Or(Or(sign, 0x3f00), And(bits / 0x1_0000, 0x7f)) < 0x1_0000
    ensures var r := Float(bits % 0x1_0000, Or(Or(sign, 0x3f00), And(bits / 0x1_0000, 0x7f)));
            r.Negative() == (sign == 0x8000) && r.Pattern() == Pattern(HIDDEN, 125, 0x80_0000 + bits % 0x80_0000)
  {
    hide *;
    var f := bits / 0x1_0000 % 128;
    And7f(bits / 0x1_0000);
    OrSign(sign, 0x3f00);
    Pow2Values();
    OrAbove(if sign == 0 then 0x7e else 0x17e, f, 7, 0x80);
    HalfPattern(sign, bits, f);
  }

  lemma HalfPattern(sign: u16, bits: nat, f: nat)
    requires (sign == 0x8000 || sign == 0) && bits < 0x8000_0000 && f == bits / 0x1_0000 % 128
    ensures var r := Float(bits % 0x1_0000, sign + 0x3f00 + f);
            r.Negative() == (sign == 0x8000) && r.Pattern() == Pattern(HIDDEN, 125, 0x80_0000 + bits % 0x80_0000)
  {
    var b, w := bits / 0x1_0000, sign + 0x3f00 + f;
    DivModUnique(w, 0x8000, if sign == 0 then 0 else 1, 0x3f00 + f);
    DivModUnique(bits, 0x80_0000, b / 128, f * 0x1_0000 + bits % 0x1_0000);
  }

  /** A normalised significand and its exponent split the magnitude. */
  lemma Splits(m: nat, s: nat, e: int)
    requires e >= -149 && if e >= -126 then m == Shl(s, e + 126) else Shl(m, -126 - e) == s
    ensures SplitBy(m, Shl(s, 125), e + 1)
  {
    hide Pow2, Shl;
    if e >= -1 {
      ShlShl(s, 125, e + 1);
    } else if e >= -126 {
      ShlShl(s, e + 126, -e - 1);
    } else {
      ShlShl(m, -126 - e, 125);
    }
  }

  lemma HalfToOne(s: nat)
    requires 0x80_0000 <= s < 0x100_0000
    ensures Pow2(148) <= Shl(s, 125) < Pow2(149) && Pattern(HIDDEN, 125, s) < INFINITY
  {
    hide Pow2;
    Pow2Values();
    Pow2Add(23, 125);
    Pow2Add(24, 125);
    ProductOrder(s, 0x100_0000, Pow2(125));
    ProductLe(0x80_0000, s, Pow2(125));
  }

  lemma Frexped(value: Float, s: nat, e: int, r: Float)
    requires value.IsFinite() && !value.IsZero() && 0x80_0000 <= s < 0x100_0000 && e >= -149
    requires if e >= -126 then value.Magnitude() == Shl(s, e + 126) else Shl(value.Magnitude(), -126 - e) == s
    requires r.Negative() == value.Negative() && r.Pattern() == Pattern(HIDDEN, 125, s)
    ensures IsFrexp(value, r, e + 1)
  {
    hide Pow2, Mag, Shl, Float.Pattern, Pattern;
    MagOf(HIDDEN, 125, s);
    ShlMeaning(s, 125);
    Splits(value.Magnitude(), s, e);
    HalfToOne(s);
  }

  lemma Unsplit(value: Float)
    requires !value.IsFinite() || value.IsZero()
    ensures IsFrexp(value, value, 0)
  {
  }

  /** A normal number as significand and exponent. */
  lemma NormalParts(x: Float, field: u16)
    requires x.IsFinite() && field == Exponent(x) && field >= 1
    ensures field < 255 && x.Magnitude() == Shl(0x80_0000 + x.Pattern() % 0x80_0000, field - 1)
  {
    hide Pow2, Mag;
    ClassifyByFields(x);
    SignificandMagnitude(x, field);
  }

  lemma SubnormalParts(x: Float)
    requires Exponent(x) == 0
    ensures x.IsFinite() && x.Pattern() < 0x80_0000 && x.Magnitude() == x.Pattern() == Shl(x.Pattern(), 0)
  {
    hide Mag;
    PatternZero(HIDDEN, x.Pattern());
    MagOf(HIDDEN, 0, x.Pattern());
    assert Pow2(0) == 1;
  }

  /** One more doubling below the hidden bit. */
  lemma Doubling(m: nat, j: nat, bits: nat)
    requires m > 0 && bits == Shl(m, j) && bits < 0x80_0000
    ensures 2 * bits == Shl(m, j + 1) && j < 23
  {
    hide Pow2;
    Pow2Step(j);
    Swap(m, 2, Pow2(j));
    Pow2Values();
    if j >= 23 { Pow2Monotone(23, j); ProductLe(1, m, Pow2(j)); }
  }

  lemma TestsHidden(bits: nat)
    requires bits < 0x100_0000
    ensures And(bits / 0x1_0000, 0x0080) == 0 <==> bits < 0x80_0000
  {
    hide *;
    Pow2Values();
    UpperBit(bits, 0, 7);
  }

  method FrexpF(value: Float) returns (r: Float, exponent: int)
    ensures IsFrexp(value, r, exponent)
  {
    hide *;
    var field := Exponent(value);
    var sign := Sign(value);
    FieldsOf(value);
    Classes(value);
    exponent := 0;
    if field == 0xff || !(value.word0 != 0 || And(value.word1, 0x7fff) != 0) {
      Unsplit(value);
      return value, exponent;
    }
    var bits: nat := Float(value.word0, value.word1 % 0x8000).Bits();
    var unbiased: int := -126;
    if field != 0 {
      unbiased := field as int - 127;
      NormalParts(value, field);
    } else {
      SubnormalParts(value);
      ghost var j: nat := 0;
      TestsHidden(bits);
      while And(bits / 0x1_0000, 0x0080) == 0
        invariant unbiased == -126 - j && j <= 23 && 0 < bits < 0x100_0000 && bits == Shl(value.Magnitude(), j)
        invariant And(bits / 0x1_0000, 0x0080) == 0 <==> bits < 0x80_0000
        decreases 0x100_0000 - bits
      {
        Doubling(value.Magnitude(), j, bits);
        bits := 2 * bits;
        TestsHidden(bits);
        unbiased, j := unbiased - 1, j + 1;
      }
      DivModUnique(bits, 0x80_0000, 1, bits - 0x80_0000);
    }
    exponent := unbiased + 1;
    Half(sign, bits);
    r := Float(bits % 0x1_0000, Or(Or(sign, 0x3f00), And(bits / 0x1_0000, 0x007f)));
    Frexped(value, 0x80_0000 + bits % 0x80_0000, unbiased, r);
  }

  lemma Classes(x: Float)
    ensures Exponent(x) == 255 <==> !x.IsFinite()
    ensures x.word0 == 0 && x.word1 % 0x8000 == 0 <==> x.IsZero()
    ensures x.IsZero() <==> x.Pattern() == 0
    ensures x.Pattern() < 0x8000_0000
  {
    ClassifyByFields(x);
  }

  // ----- ilogbf -----

  lemma NormalLog(x: Float, field: u16)
    requires x.IsFinite() && field == Exponent(x) && field >= 1
    ensures IsILogB(x, field - 127)
  {
    hide Pow2, Mag, Shl, Float.Pattern;
    NormalParts(x, field);
    LogRange(0x80_0000 + x.Pattern() % 0x80_0000, field - 1, x.Magnitude());
    NotZero(x, field);
  }

  lemma NotZero(x: Float, field: u16)
    requires field == Exponent(x) && field >= 1
    ensures !x.IsZero()
  {
  }

  lemma LogRange(s: nat, j: nat, m: nat)
    requires 0x80_0000 <= s < 0x100_0000 && m == Shl(s, j)
    ensures Pow2(j + 23) <= m < Pow2(j + 24)
  {
    hide Pow2;
    Pow2Values();
    Pow2Add(23, j);
    Pow2Add(24, j);
    ProductOrder(s, 0x100_0000, Pow2(j));
    ProductLe(0x80_0000, s, Pow2(j));
  }

  lemma SubnormalLog(x: Float, j: nat, low: nat)
    requires Exponent(x) == 0 && !x.IsZero() && j <= 22 && low == Shl(x.Magnitude(), j) && 0x40_0000 <= low < 0x80_0000
    ensures IsILogB(x, -127 - j)
  {
    hide Pow2, Mag, Float.Pattern;
    SubnormalParts(x);
    Pow2Values();
    Pow2Add(22 - j, j);
    Pow2Add(23 - j, j);
    ProductOrder(x.Magnitude(), Pow2(23 - j), Pow2(j));
    ProductOrder(x.Magnitude(), Pow2(22 - j), Pow2(j));
  }

  lemma TestsLeading(low: nat, top: nat)
    requires low < 0x80_0000 && (top == 0 || top == 0x8000_0000)
    ensures And((low + top) / 0x1_0000, 0x0040) == 0 <==> low < 0x40_0000
  {
    hide *;
    Pow2Values();
    UpperBit(low, top, 6);
  }

  /** shape.bits <<= 1 drops the sign and nothing else. */
  lemma SignDropped(low: nat, top: nat)
    requires low < 0x40_0000 && (top == 0 || top == 0x8000_0000)
    ensures 2 * (low + top) % 0x1_0000_0000 == 2 * low
  {
    DivModUnique(2 * (low + top), 0x1_0000_0000, if top == 0 then 0 else 1, 2 * low);
  }

  method ILogBF(value: Float) returns (k: int)
    ensures IsILogB(value, k)
  {
    hide *;
    var field := Exponent(value);
    FieldsOf(value);
    Classes(value);
    if !(value.word0 != 0 || And(value.word1, 0x7fff) != 0) {
      LogSpecial(value);
      return FP_ILOGB0;
    }
    if field == 0xff {
      LogSpecial(value);
      return FP_ILOGBNAN;
    }
    if field != 0 {
      NormalLog(value, field);
      return field as int - 127;
    }
    SubnormalParts(value);
    var bits: nat := value.Bits();
    ghost var low: nat, top: nat, j: nat := value.Pattern(), if value.Negative() then 0x8000_0000 else 0, 0;
    k := -127;
    TestsLeading(low, top);
    while And(bits / 0x1_0000, 0x0040) == 0
      invariant bits == low + top && (top == 0 || top == 0x8000_0000) && k == -127 - j && j <= 22
      invariant 0 < low < 0x80_0000 && low == Shl(value.Magnitude(), j)
      invariant And(bits / 0x1_0000, 0x0040) == 0 <==> low < 0x40_0000
      decreases 0x80_0000 - low
    {
      Doubling(value.Magnitude(), j, low);
      SmallStep(value.Magnitude(), j, low);
      SignDropped(low, top);
      bits := 2 * bits % 0x1_0000_0000;
      low, top, j := 2 * low, 0, j + 1;
      TestsLeading(low, top);
      k := k - 1;
    }
    SubnormalLog(value, j, low);
  }

  lemma SmallStep(m: nat, j: nat, low: nat)
    requires 0 < low < 0x40_0000 && low == Shl(m, j)
    ensures j < 22
  {
    hide Pow2;
    Pow2Values();
    ProductOrder(0, m, Pow2(j));
    if j >= 22 { Pow2Monotone(22, j); ProductLe(1, m, Pow2(j)); }
  }

  lemma LogSpecial(x: Float)
    ensures x.IsZero() ==> IsILogB(x, FP_ILOGB0)
    ensures !x.IsFinite() ==> IsILogB(x, FP_ILOGBNAN)
  {
  }

  // ----- together -----

  /** scalbnf puts back together what frexpf took apart: every float except a signalling NaN
  comes back unchanged, and that one comes back quiet. */
  lemma RoundTrip(value: Float, r: Float, exponent: int, back: Float)
    requires IsFrexp(value, r, exponent) && IsScaleB(r, exponent, back)
    ensures back == if value.IsNaN() then QuietNaN(value) else value
  {
    hide Pow2, Mag, Shl, Float.Pattern, RoundedTo, NearestEven;
    if value.IsFinite() {
      if value.IsZero() {
        ZeroMagnitude(value);
        RepresentableRounds(value);
        ShlNothing(value.Magnitude());
        RoundedUnique(value, back, value.Negative(), value.Magnitude(), 1);
      } else if exponent >= 0 {
        RepresentableRounds(value);
        RoundedUnique(value, back, value.Negative(), value.Magnitude(), 1);
      } else {
        ShlMeaning(value.Magnitude(), -exponent);
        NearestExact(HIDDEN, value.Pattern(), r.Magnitude(), Pow2(-exponent));
        Witness(value, value.Negative(), value.Pattern(), r.Magnitude(), Pow2(-exponent));
        RoundedUnique(value, back, value.Negative(), r.Magnitude(), Pow2(-exponent));
      }
    }
  }

  lemma ShlNothing(m: nat)
    ensures Shl(m, 0) == m
  {
    assert Pow2(0) == 1;
  }

  /** ilogbf is one less than the exponent of frexpf. */
  lemma LogOfFrexp(value: Float, r: Float, exponent: int, k: int)
    requires value.IsFinite() && !value.IsZero() && IsFrexp(value, r, exponent) && IsILogB(value, k)
    ensures k == exponent - 1
  {
    hide Mag, Float.Pattern, Pow2;
    var m, rm := value.Magnitude(), r.Magnitude();
    if exponent >= 0 {
      Pow2Add(148, exponent);
      Pow2Add(149, exponent);
      ProductLe(Pow2(148), rm, Pow2(exponent));
      ProductOrder(rm, Pow2(149), Pow2(exponent));
      SameBand(m, exponent + 148, k + 149);
    } else {
      var n := -exponent;
      ShlMeaning(m, n);
      ProductOrder(m, Pow2(k + 150), Pow2(n));
      ProductLe(Pow2(k + 149), m, Pow2(n));
      Pow2Add(k + 149, n);
      Pow2Add(k + 150, n);
      SameBand(rm, 148, k + 149 + n);
    }
  }

  lemma SameBand(m: nat, a: nat, b: nat)
    requires Pow2(a) <= m < Pow2(a + 1) && Pow2(b) <= m < Pow2(b + 1)
    ensures a == b
  {
    hide Pow2;
    if a < b { Pow2Monotone(a + 1, b); }
    if b < a { Pow2Monotone(b + 1, a); }
  }
}
