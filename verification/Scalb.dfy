/** scalbnf: scaling a float by a power of two (decompose.c). */
module Scalb {
  import opened Bits
  import opened Rounding
  import opened Binary32
  import opened Packing
  import opened MulSf3

  /** r is m * 2^n units rounded exactly once. */
  ghost predicate IsScaled(m: nat, n: int, negative: bool, r: Float) {
    if n >= 0 then RoundedTo(r, negative, Shl(m, n), 1) else RoundedTo(r, negative, m, Pow2(-n))
  }

  /** Section 5.3.3 of IEEE 754-2019: value * 2^n with one rounding; NaNs are quieted and
  infinities kept. */
  ghost predicate IsScaleB(value: Float, n: int, r: Float) {
    if value.IsNaN() then r == QuietNaN(value)
    else if value.IsInfinite() then r == value
    else IsScaled(value.Magnitude(), n, value.Negative(), r)
  }

  method MultiplyFloatPower(value: Float, exponent: int) returns (r: Float)
    requires -126 <= exponent <= 127
    ensures IsScaleB(value, exponent, r)
  {
    hide *;
    var power := Float(0, U16(U16(exponent + 127) * 0x80));
    PowerOfTwo(exponent);
    r := MulFloats(value, power);
    ScaledByPower(value, exponent, power, r);
  }

  lemma PowerOfTwo(exponent: int)
    requires -126 <= exponent <= 127
    ensures var power := Float(0, U16(U16(exponent + 127) * 0x80));
            && power.IsFinite() && !power.IsZero() && !power.Negative()
            && power.Magnitude() == Pow2(exponent + 149)
  {
    hide Mag, Pow2;
    var e := exponent + 127;
    assert U16(U16(e) * 0x80) == e * 0x80;
    assert Float(0, e * 0x80).Pattern() == Pattern(HIDDEN, e - 1, HIDDEN);
    MagOf(HIDDEN, e - 1, HIDDEN);
    Pow2Values();
    Pow2Add(23, e - 1);
  }

  lemma ScaledByPower(value: Float, exponent: int, power: Float, r: Float)
    requires power.IsFinite() && !power.IsZero() && !power.Negative()
    requires exponent >= -126 && power.Magnitude() == Pow2(exponent + 149)
    requires IsProduct(value, power, r)
    ensures IsScaleB(value, exponent, r)
  {
    hide RoundedTo, Pow2, Mag, Times;
    if value.IsFinite() {
      var m := value.Magnitude();
      TimesShlOne(m, exponent + 149);
      ShlOne(exponent + 149);
      if exponent >= 0 {
        ShlShl(m, exponent, 149);
        TimesShlOne(Shl(m, exponent), 149);
        ShlOne(149);
        TimesUnit(Shl(m, exponent + 149));
        RoundedSameTimes(r, value.Negative(), Shl(m, exponent + 149), Pow2(149), Shl(m, exponent), 1);
      } else {
        ShlShl(m, exponent + 149, -exponent);
        TimesShlOne(Shl(m, exponent + 149), -exponent);
        TimesShlOne(m, 149);
        ShlOne(-exponent);
        ShlOne(149);
        RoundedSameTimes(r, value.Negative(), Shl(m, exponent + 149), Pow2(149), m, Pow2(-exponent));
      }
    }
  }

  // ----- scaling up: exact until it overflows -----

  lemma ScaledUp(value: Float, n: nat, r: Float) returns (q: nat)
    requires value.IsFinite() && IsScaled(value.Magnitude(), n, value.Negative(), r)
    ensures Mag(HIDDEN, q) == Shl(value.Magnitude(), n) && r.Pattern() == Min(q, INFINITY)
    ensures value.Pattern() <= q
  {
    hide Mag, Pow2, NearestEven, Float.Pattern;
    q := MagShiftUp(HIDDEN, value.Pattern(), n);
    NearestExact(HIDDEN, q, Shl(value.Magnitude(), n), 1);
    var p: nat :| NearestEven(HIDDEN, p, Shl(value.Magnitude(), n), 1) && r.Pattern() == Min(p, INFINITY);
    NearestUnique(HIDDEN, p, q, Shl(value.Magnitude(), n), 1);
  }

  lemma FromExact(m: nat, n: nat, negative: bool, r: Float, q: nat)
    requires Mag(HIDDEN, q) == Shl(m, n) && r.Pattern() == Min(q, INFINITY) && r.Negative() == negative
    ensures IsScaled(m, n, negative, r)
  {
    hide Mag, Pow2, NearestEven, Float.Pattern, Shl;
    NearestExact(HIDDEN, q, Shl(m, n), 1);
    Witness(r, negative, q, Shl(m, n), 1);
  }

  lemma UpStep(value: Float, j: nat, r': Float, k: nat, r: Float)
    requires IsScaleB(value, j, r') && IsScaleB(r', k, r)
    ensures IsScaleB(value, j + k, r)
  {
    hide Mag, Pow2, NearestEven, Float.Pattern, Shl, RoundedTo;
    if value.IsFinite() {
      var m := value.Magnitude();
      SignKept(value, j, r');
      var q := ScaledUp(value, j, r');
      ShlShl(m, j, k);
      if r'.IsFinite() {
        assert r'.Magnitude() == Shl(m, j);
      } else {
        var q' := MagShiftUp(HIDDEN, q, k);
        ShlMeaning(Shl(m, j), k);
        FromExact(m, j + k, value.Negative(), r, q');
      }
    }
  }

  lemma SignKept(value: Float, n: int, r: Float)
    requires value.IsFinite() && IsScaled(value.Magnitude(), n, value.Negative(), r)
    ensures r.Negative() == value.Negative()
  {
  }

  lemma InfinityMagnitude()
    ensures Mag(HIDDEN, INFINITY) == Pow2(277)
  {
    hide Pow2;
    MagOf(HIDDEN, 254, HIDDEN);
    Pow2Values();
    Pow2Add(23, 254);
  }

  /** 2^381 and more overflow every nonzero float alike. */
  lemma UpClamp(value: Float, n: int, r: Float)
    requires n >= 381 && IsScaleB(value, 381, r)
    ensures IsScaleB(value, n, r)
  {
    hide Mag, Pow2, NearestEven, Float.Pattern, Shl, RoundedTo;
    if value.IsFinite() {
      SignKept(value, 381, r);
      var q := ScaledUp(value, 381, r);
      var q' := MagShiftUp(HIDDEN, q, n - 381);
      var m := value.Magnitude();
      ShlMeaning(Shl(m, 381), n - 381);
      ShlShl(m, 381, n - 381);
      ZeroMagnitude(value);
      if m == 0 {
        ShlMeaning(0, 381);
        ShlMeaning(0, n);
        MagZero(HIDDEN);
        MagOrder(HIDDEN, 0, q);
        FromExact(m, n, value.Negative(), r, 0);
      } else {
        InfinityMagnitude();
        Pow2Monotone(277, 381);
        ShlMeaning(m, 381);
        ProductLe(1, m, Pow2(381));
        MagOrder(HIDDEN, q, INFINITY);
        FromExact(m, n, value.Negative(), r, q');
      }
    }
  }

  // ----- scaling down: exact, or too small to matter -----

  /** At most half of the smallest subnormal: the result is a zero. */
  lemma TinyIsZero(r: Float, negative: bool, num: nat, den: nat)
    requires den > 0 && 2 * num <= den
    ensures RoundedTo(r, negative, num, den) <==> r.Pattern() == 0 && r.Negative() == negative
  {
    hide Mag, NearestEven, Float.Pattern;
    NearestZero(HIDDEN, num, den);
    if RoundedTo(r, negative, num, den) {
      var p: nat :| NearestEven(HIDDEN, p, num, den) && r.Pattern() == Min(p, INFINITY);
      NearestUnique(HIDDEN, 0, p, num, den);
    } else if r.Pattern() == 0 && r.Negative() == negative {
      Witness(r, negative, 0, num, den);
    }
  }

  /** After a step down the result is finite and is the pattern nearest to the quotient. */
  lemma ScaledDown(value: Float, r: Float)
    requires value.IsFinite() && IsScaled(value.Magnitude(), -102, value.Negative(), r)
    ensures r.IsFinite() && r.Negative() == value.Negative()
    ensures NearestEven(HIDDEN, r.Pattern(), value.Magnitude(), Pow2(102))
  {
    hide Mag, NearestEven, Float.Pattern, Pow2;
    var p: nat :| NearestEven(HIDDEN, p, value.Magnitude(), Pow2(102)) && r.Pattern() == Min(p, INFINITY);
    MulAtLeast(Pow2(102), 1);
    ProductLe(1, Pow2(102), value.Magnitude());
    NearestNotAbove(HIDDEN, p, value.Pattern(), value.Magnitude(), Pow2(102));
  }

  /** A magnitude of at least 2^125 units divides exactly by 2^102. */
  lemma LargeDivides(p: nat) returns (q: nat)
    requires Mag(HIDDEN, p) >= Pow2(125)
    ensures Mag(HIDDEN, q) * Pow2(102) == Mag(HIDDEN, p)
  {
    hide Mag, Pow2;
    var k, s := MagSplit(HIDDEN, p);
    if k < 102 {
      Pow2Values();
      Pow2Add(24, k);
      Pow2Monotone(24 + k, 125);
      ProductOrder(s, Pow2(24), Pow2(k));
    } else {
      q := Pattern(HIDDEN, k - 102, s);
      MagOf(HIDDEN, k - 102, s);
      Pow2Add(k - 102, 102);
      MulAssoc(s, Pow2(k - 102), Pow2(102));
    }
  }

  lemma DownStep(value: Float, r': Float, k: int, r: Float)
    requires k <= -25 && IsScaleB(value, -102, r') && IsScaleB(r', k, r)
    ensures IsScaleB(value, k - 102, r)
  {
    hide Mag, NearestEven, Float.Pattern, Pow2, RoundedTo;
    if value.IsFinite() {
      var m := value.Magnitude();
      ScaledDown(value, r');
      if m >= Pow2(125) {
        var q := LargeDivides(value.Pattern());
        NearestExact(HIDDEN, q, m, Pow2(102));
        NearestUnique(HIDDEN, q, r'.Pattern(), m, Pow2(102));
        Pow2Add(102, -k);
        MulAssoc(r'.Magnitude(), Pow2(102), Pow2(-k));
        RoundedSameRatio(r, value.Negative(), r'.Magnitude(), Pow2(-k), m, Pow2(102 - k));
      } else {
        SmallStaysSmall(value, r');
        Pow2Values();
        Pow2Monotone(25, -k);
        Pow2Monotone(126, 102 - k);
        Pow2Add(1, 125);
        Pow2Add(1, 24);
        TinyIsZero(r, value.Negative(), r'.Magnitude(), Pow2(-k));
        TinyIsZero(r, value.Negative(), m, Pow2(102 - k));
      }
    }
  }

  /** A magnitude below 2^125 units leaves at most 2^23 of them. */
  lemma SmallStaysSmall(value: Float, r': Float)
    requires value.Magnitude() < Pow2(125)
    requires NearestEven(HIDDEN, r'.Pattern(), value.Magnitude(), Pow2(102))
    ensures r'.Magnitude() <= 0x80_0000
  {
    hide Mag, NearestEven, Float.Pattern, Pow2;
    NormalThreshold();
    NearestNotAbove(HIDDEN, r'.Pattern(), HIDDEN, value.Magnitude(), Pow2(102));
    MagOrder(HIDDEN, HIDDEN, r'.Pattern());
  }

  lemma NormalThreshold()
    ensures Mag(HIDDEN, HIDDEN) == 0x80_0000 && Mag(HIDDEN, HIDDEN) * Pow2(102) == Pow2(125)
  {
    hide *;
    HiddenValue();
    MagFirstNormal(HIDDEN);
    Pow2Values();
    Pow2Add(23, 102);
  }

  /** 2^-330 and less flush every float to a zero alike. */
  lemma DownClamp(value: Float, n: int, r: Float)
    requires n <= -330 && IsScaleB(value, -330, r)
    ensures IsScaleB(value, n, r)
  {
    hide Mag, NearestEven, Float.Pattern, Pow2, RoundedTo;
    if value.IsFinite() {
      var m := value.Magnitude();
      InfinityMagnitude();
      MagOrder(HIDDEN, value.Pattern(), INFINITY);
      Pow2Add(1, 277);
      Pow2Values();
      Pow2Monotone(278, 330);
      Pow2Monotone(330, -n);
      TinyIsZero(r, value.Negative(), m, Pow2(330));
      TinyIsZero(r, value.Negative(), m, Pow2(-n));
    }
  }

  /** value is scaled by up to three factors, so that each is a normal float. */
  method ScaleBNF(value: Float, n: int) returns (r: Float)
    ensures IsScaleB(value, n, r)
  {
    hide *;
    var x, exponent := value, n;
    ghost var y, done := value, 0;
    if exponent > 127 {
      x := MultiplyFloatPower(x, 127);
      exponent := exponent - 127;
      y, done := x, 127;
      if exponent > 127 {
        x := MultiplyFloatPower(x, 127);
        UpStep(value, 127, y, 127, x);
        exponent := exponent - 127;
        done := 254;
        if exponent > 127 {
          exponent := 127;
        }
      }
    } else if exponent < -126 {
      x := MultiplyFloatPower(x, -102);
      exponent := exponent + 102;
      y, done := x, -102;
      if exponent < -126 {
        x := MultiplyFloatPower(x, -102);
        exponent := exponent + 102;
        done := -204;
        if exponent < -126 {
          exponent := -126;
        }
      }
    }
    r := MultiplyFloatPower(x, exponent);
    if done > 0 {
      UpStep(value, done, x, exponent, r);
      if n >= 381 { UpClamp(value, n, r); }
    } else if done < 0 {
      if done == -204 {
        DownStep(y, x, exponent, r);
        DownStep(value, y, exponent - 102, r);
      } else {
        DownStep(value, x, exponent, r);
      }
      if n <= -330 { DownClamp(value, n, r); }
    }
  }
}
