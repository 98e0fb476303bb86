/** fmodf and fmod: the exact floating-point remainder (fmod.c). */
module Fmod {
  import opened Bits
  import opened Rounding
  import opened Packing
  import opened Binary32
  import opened Binary64
  import opened WideLimbs
  import opened SquareRoot
  import opened Sqrt

  /** Section 7.12.10.1 of C17: x - y * trunc(x / y), which has the sign of x and is exact. */
  ghost predicate IsRemainder(x: Float, y: Float, r: Float) {
    if x.IsNaN() then r == QuietNaN(x)
    else if y.IsNaN() then r == QuietNaN(y)
    else if x.IsInfinite() || y.IsZero() then r.IsQuietNaN()
    else if y.IsInfinite() then r == x
    else y.Magnitude() > 0 && r.IsFinite() && r.Negative() == x.Negative() && r.Magnitude() == x.Magnitude() % y.Magnitude()
  }

  ghost predicate IsRemainder64(x: Double, y: Double, r: Double) {
    if x.IsNaN() then r == QuietNaN64(x)
    else if y.IsNaN() then r == QuietNaN64(y)
    else if x.IsInfinite() || y.IsZero() then r.IsQuietNaN()
    else if y.IsInfinite() then r == x
    else y.Magnitude() > 0 && r.IsFinite() && r.Negative() == x.Negative() && r.Magnitude() == x.Magnitude() % y.Magnitude()
  }

  // ----- the subtract-and-shift reduction -----

  /** x is v plus a multiple of d. */
  ghost predicate Reduces(x: nat, v: nat, d: nat) {
    exists k: nat :: x == v + Times(k, d)
  }

  lemma ReduceStart(x: nat, d: nat)
    ensures Reduces(x, x, d)
  {
    assert x == x + Times(0, d);
  }

  /** Subtracting the divisor's significand at a higher exponent subtracts a multiple of it. */
  lemma ReduceStep(x: nat, n: nat, e: nat, d: nat, de: nat)
    requires Reduces(x, Shl(n, e), Shl(d, de)) && e >= de && n >= d
    ensures Reduces(x, Shl(n - d, e), Shl(d, de))
  {
    hide Pow2;
    var k: nat :| x == Shl(n, e) + Times(k, Shl(d, de));
    var j := Pow2(e - de);
    Pow2Add(e - de, de);
    MulAssoc(d, Pow2(e - de), Pow2(de));
    Swap(d, Pow2(e - de), Pow2(de));
    assert Shl(d, e) == Times(j, Shl(d, de)) by {
      assert d * Pow2(de) * j == d * j * Pow2(de);
    }
    assert Shl(n, e) == Shl(n - d, e) + Shl(d, e);
    assert Times(k + j, Shl(d, de)) == Times(k, Shl(d, de)) + Times(j, Shl(d, de));
  }

  lemma ShlDouble(n: nat, e: nat)
    requires e >= 1
    ensures Shl(n, e) == Shl(2 * n, e - 1)
  {
    MulAssoc(n, 2, Pow2(e - 1));
    DoubleProduct(n, Pow2(e - 1));
  }

  lemma ShlOrder(a: nat, b: nat, e: nat)
    ensures a < b <==> Shl(a, e) < Shl(b, e)
    ensures a == 0 <==> Shl(a, e) == 0
  {
    ProductOrder(a, b, Pow2(e));
    ProductOrder(a, 0, Pow2(e));
  }

  /** Below the divisor, what is left is the remainder. */
  lemma ReduceDone(x: nat, y: nat, t: nat, v: nat)
    requires y > 0 && Reduces(Shl(x, t), v, Shl(y, t)) && v < Shl(y, t)
    ensures v == Shl(x % y, t)
  {
    hide Pow2;
    var k: nat :| Shl(x, t) == v + Times(k, Shl(y, t));
    DivModBasic(x, y);
    var q, r := x / y, x % y;
    ShlOrder(r, y, t);
    DivNonnegative(x, y);
    assert Shl(x, t) == Shl(r, t) + Times(q, Shl(y, t)) by {
      assert x * Pow2(t) == (y * q + r) * Pow2(t);
      assert (y * q + r) * Pow2(t) == y * q * Pow2(t) + r * Pow2(t);
      Swap(y, q, Pow2(t));
      MulAssoc(q, y, Pow2(t));
    }
    var D := Shl(y, t);
    DivModUnique(Shl(x, t), D, k, v);
    DivModUnique(Shl(x, t), D, q, Shl(r, t));
  }

  /** A normalised numerator has at least the exponent of a smaller normalised denominator. */
  lemma ExponentOrder(h: nat, x: nat, y: nat, t: nat, n: nat, e: nat, d: nat, de: nat)
    requires n < 2 * h && h <= d && Shl(x, t) == Shl(n, e) && Shl(y, t) == Shl(d, de) && y < x
    ensures e >= de
  {
    ShlOrder(y, x, t);
    if e < de {
      ShlShl(2 * h, e, de - 1 - e);
      ShlDouble(h, de);
      ShlMonotone(n, 2 * h, e);
      ShlGrows(2 * h, e, de - 1);
      ShlMonotone(h, d, de);
    }
  }

  lemma ShlMonotone(a: nat, b: nat, e: nat)
    requires a <= b
    ensures Shl(a, e) <= Shl(b, e)
  {
    ProductLe(a, b, Pow2(e));
  }

  lemma ShlGrows(a: nat, e: nat, f: nat)
    requires e <= f
    ensures Shl(a, e) <= Shl(a, f)
  {
    Pow2Monotone(e, f);
    ProductLe(Pow2(e), Pow2(f), a);
  }

  /** A scaled positive remainder keeps the exponent within the format. */
  lemma ExponentFloor(r: nat, t: nat, n: nat, e: nat)
    requires r >= 1 && n < Pow2(t) && Shl(r, t) == Shl(n, e)
    ensures e >= 1
  {
    if e == 0 {
      ShlMonotone(1, r, t);
      ShlOne(t);
      ShlZero(n);
    }
  }

  // ----- binary32 -----

  /** significand * 2^exponent is the magnitude of a pattern, scaled by 2^23 to keep exponents natural. */
  ghost predicate Unpacked(p: nat, significand: nat, exponent: int) {
    exponent + 149 >= 0 && Shl(Mag(HIDDEN, p), 23) == Shl(significand, exponent + 149)
  }

  lemma UnpackedStart(p: nat)
    requires p < 0x7f80_0000
    ensures p < 0x80_0000 ==> Unpacked(p, p, -126)
    ensures p >= 0x80_0000 ==> Unpacked(p, p % 0x80_0000 + 0x80_0000, p / 0x80_0000 - 127)
  {
    hide Pow2, Shl;
    var e, f := p / 0x80_0000, p % 0x80_0000;
    if e == 0 {
      PatternZero(HIDDEN, p);
      ShlZero(p);
      MagOf(HIDDEN, 0, p);
    } else {
      MagOf(HIDDEN, e - 1, HIDDEN + f);
      ShlMeaning(HIDDEN + f, e - 1);
      ShlShl(HIDDEN + f, e - 1, 23);
    }
  }

  lemma UnpackedDoubled(p: nat, significand: nat, exponent: int)
    requires p > 0 && Unpacked(p, significand, exponent) && significand < 0x80_0000
    ensures Unpacked(p, 2 * significand, exponent - 1)
  {
    hide Pow2, Shl, Mag;
    Pow2Values();
    MagOrder(HIDDEN, 0, p);
    MagZero(HIDDEN);
    ExponentFloor(Mag(HIDDEN, p), 23, significand, exponent + 149);
    ShlDouble(significand, exponent + 149);
  }

  /** The significand and exponent of a nonzero finite magnitude, normalised. */
  method Unpack(bits: u32) returns (significand: u32, exponent: int)
    requires 0 < bits < 0x7f80_0000
    ensures Unpacked(bits, significand, exponent) && 0x80_0000 <= significand < 0x100_0000 && exponent <= 127
  {
    hide *;
    LowMask23(bits);
    significand := And(bits, 0x7f_ffff);
    var field: int := U16(bits / 0x80_0000);
    UnpackedStart(bits);
    FieldRange(bits);
    if field != 0 {
      OrHidden23(significand);
      significand := Or(significand, 0x80_0000);
      exponent := field - 127;
    } else {
      exponent := -126;
      while significand < 0x80_0000
        invariant 0 < significand < 0x100_0000 && exponent <= -126
        invariant Unpacked(bits, significand, exponent)
        decreases 0x100_0000 - significand
      {
        UnpackedDoubled(bits, significand, exponent);
        significand := significand * 2;
        exponent := exponent - 1;
      }
    }
  }

  lemma LowMask23(bits: nat)
    ensures And(bits, 0x7f_ffff) == bits % 0x80_0000
  {
    Pow2Values();
    AndMask(bits, 0x7f_ffff, 23);
  }

  lemma OrHidden23(f: nat)
    requires f < 0x80_0000
    ensures Or(f, 0x80_0000) == f + 0x80_0000
  {
    Pow2Values();
    OrDisjoint(0x80_0000, f, 23);
    OrCommutes(0x80_0000, f);
  }

  lemma FieldRange(bits: nat)
    requires bits < 0x7f80_0000
    ensures U16(bits / 0x80_0000) == bits / 0x80_0000 <= 254
    ensures bits < 0x80_0000 ==> bits % 0x80_0000 == bits && bits / 0x80_0000 == 0
    ensures bits / 0x80_0000 == 0 ==> bits < 0x80_0000
  {
  }

  method UnsignedFmodF(numerator: u32, denominator: u32) returns (r: u32)
    requires 0 < denominator < numerator < 0x7f80_0000
    ensures r < 0x7f80_0000 && Mag(HIDDEN, denominator) > 0
    ensures Mag(HIDDEN, r) == Mag(HIDDEN, numerator) % Mag(HIDDEN, denominator)
  {
    hide *;
    HiddenValue();
    Pow2Values();
    var n, e := Unpack(numerator);
    var d, de := Unpack(denominator);
    ghost var x, y := Mag(HIDDEN, numerator), Mag(HIDDEN, denominator);
    StartReduction(numerator, denominator, n, e, d, de);
    while e > de
      invariant de <= e && n < 2 * d
      invariant Reduces(Shl(x, 23), Shl(n, e + 149), Shl(d, de + 149))
    {
      if n >= d {
        ReduceStep(Shl(x, 23), n, e + 149, d, de + 149);
        n := n - d;
      }
      if n == 0 {
        FinishZero(x, y, 23, d, de + 149, e + 149);
        PatternOfZero();
        return 0;
      }
      ShlDouble(n, e + 149);
      n := n * 2;
      e := e - 1;
    }
    if n >= d {
      ReduceStep(Shl(x, 23), n, e + 149, d, de + 149);
      n := n - d;
    }
    if n == 0 {
      FinishZero(x, y, 23, d, de + 149, e + 149);
      PatternOfZero();
      return 0;
    }
    FinishReduction(x, y, 23, n, d, e + 149);
    ghost var rem := x % y;
    while n < 0x80_0000
      invariant 0 < n < 0x100_0000 && 0 <= e + 149 && e <= 127
      invariant Shl(rem, 23) == Shl(n, e + 149)
      decreases 0x100_0000 - n
    {
      ExponentFloor(rem, 23, n, e + 149);
      ShlDouble(n, e + 149);
      n := n * 2;
      e := e - 1;
    }
    if e >= -126 {
      LowMask23(n);
      PackNormal(n, e, rem);
      return Or((e + 127) * 0x80_0000, And(n, 0x7f_ffff));
    }
    while e < -126
      invariant 0 < n < 0x100_0000 && 0 <= e + 149 && e <= -126
      invariant Shl(rem, 23) == Shl(n, e + 149)
    {
      ExactHalf(rem, 23, n, e + 149);
      n := n / 2;
      e := e + 1;
    }
    PackSubnormal(n, rem);
    return n;
  }

  lemma StartReduction(p: nat, q: nat, n: nat, e: int, d: nat, de: int)
    requires 0 < q < p < 0x7f80_0000 && Unpacked(p, n, e) && Unpacked(q, d, de)
    requires 0x80_0000 <= n < 0x100_0000 && 0x80_0000 <= d < 0x100_0000
    ensures de <= e && e + 149 >= 0 && de + 149 >= 0
    ensures Mag(HIDDEN, q) > 0 && Shl(Mag(HIDDEN, q), 23) == Shl(d, de + 149)
    ensures Reduces(Shl(Mag(HIDDEN, p), 23), Shl(n, e + 149), Shl(d, de + 149))
  {
    hide Pow2, Shl, Mag, Reduces;
    MagOrder(HIDDEN, q, p);
    MagOrder(HIDDEN, 0, q);
    MagZero(HIDDEN);
    ExponentOrder(0x80_0000, Mag(HIDDEN, p), Mag(HIDDEN, q), 23, n, e + 149, d, de + 149);
    ReduceStart(Shl(n, e + 149), Shl(d, de + 149));
  }

  lemma FinishZero(x: nat, y: nat, t: nat, d: nat, de: nat, e: nat)
    requires y > 0 && Shl(y, t) == Shl(d, de) && Reduces(Shl(x, t), Shl(0, e), Shl(d, de))
    ensures x % y == 0
  {
    hide Pow2, Shl, Reduces;
    ShlOrder(0, y, t);
    ShlOrder(0, 0, e);
    ReduceDone(x, y, t, Shl(0, e));
    ShlOrder(x % y, 0, t);
  }

  lemma FinishReduction(x: nat, y: nat, t: nat, n: nat, d: nat, e: nat)
    requires y > 0 && 0 < n < d && Shl(y, t) == Shl(d, e) && Reduces(Shl(x, t), Shl(n, e), Shl(d, e))
    ensures x % y > 0 && Shl(x % y, t) == Shl(n, e)
  {
    hide Pow2, Shl, Reduces;
    ShlOrder(n, d, e);
    ReduceDone(x, y, t, Shl(n, e));
    ShlOrder(n, 0, e);
    ShlOrder(x % y, 0, t);
  }

  /** Below the smallest normal exponent the shifted-out bit is always zero. */
  lemma ExactHalf(r: nat, t: nat, n: nat, e: nat)
    requires e < t && Shl(r, t) == Shl(n, e)
    ensures n % 2 == 0 && Shl(r, t) == Shl(n / 2, e + 1)
  {
    hide Pow2;
    ShlShl(r, t - e, e);
    ShlCancel(Shl(r, t - e), n, e);
    Pow2Step(t - e - 1);
    assert n == r * (2 * Pow2(t - e - 1));
    assert n == 2 * (r * Pow2(t - e - 1));
    ShlDouble(n / 2, e + 1);
  }

  lemma PatternOfZero()
    ensures Mag(HIDDEN, 0) == 0
  {
  }

  lemma PackNormal(n: nat, e: int, rem: nat)
    requires 0x80_0000 <= n < 0x100_0000 && -126 <= e <= 127 && Shl(rem, 23) == Shl(n, e + 149)
    ensures var r := Or((e + 127) * 0x80_0000, n % 0x80_0000); r < 0x7f80_0000 && Mag(HIDDEN, r) == rem
  {
    hide Pow2, Shl, Mag, Or;
    Pow2Values();
    OrDisjoint((e + 127) * 0x80_0000, n % 0x80_0000, 23);
    MagOf(HIDDEN, e + 126, n);
    ShlMeaning(n, e + 126);
    ShlShl(n, e + 126, 23);
    ShlCancel(Shl(n, e + 126), rem, 23);
  }

  lemma PackSubnormal(n: nat, rem: nat)
    requires n < 0x100_0000 && Shl(rem, 23) == Shl(n, 23)
    ensures Mag(HIDDEN, n) == rem
  {
    hide Pow2, Shl, Mag;
    ShlCancel(rem, n, 23);
    PatternZero(HIDDEN, n);
    MagOf(HIDDEN, 0, n);
    ShlMeaning(n, 0);
    ShlZero(n);
  }

  /** quiet_float_nan */
  function QuietFloatNaN(bits: u32): (r: u32)
    ensures FromBits(r) == if FromBits(bits).IsNaN() then QuietNaN(FromBits(bits)) else QNaN()
  {
    hide And, Or, QuietNaN;
    QuietBits(bits);
    if And(bits, 0x7f80_0000) == 0x7f80_0000 && And(bits, 0x7f_ffff) != 0 then Or(bits, 0x40_0000) else 0x7fc0_0000
  }

  lemma QuietBits(bits: u32)
    ensures And(bits, 0x7f80_0000) == 0x7f80_0000 && And(bits, 0x7f_ffff) != 0 <==> FromBits(bits).IsNaN()
    ensures Or(bits, 0x40_0000) < 0x1_0000_0000
    ensures FromBits(bits).IsNaN() ==> FromBits(Or(bits, 0x40_0000)) == QuietNaN(FromBits(bits))
  {
    hide *;
    NaNFields(bits);
    Pow2Values();
    OrBit(bits, 22);
    ShrIs(bits, 22);
    QuietHalf(bits);
    QuietIs(FromBits(bits));
  }

  lemma NaNFields(bits: u32)
    ensures And(bits, 0x7f80_0000) == 0x7f80_0000 && And(bits, 0x7f_ffff) != 0 <==> FromBits(bits).IsNaN()
  {
    hide And, Pow2, Float.Pattern, FromBits;
    Pow2Values();
    LowMask23(bits);
    AndHighMask(bits, 0x7f80_0000, 0xff, 23);
    ShrIs(bits, 23);
    AndFf(bits / 0x80_0000);
    FromBitsPattern(bits);
    var e, f := bits / 0x80_0000, bits % 0x80_0000;
    DivModUnique(bits, 0x8000_0000, e / 256, e % 256 * 0x80_0000 + f);
  }

  lemma QuietIs(x: Float)
    ensures x.IsQuietNaN() <==> x.IsNaN() && x.word1 / 0x40 % 2 == 1
  {
  }

  lemma QuietHalf(bits: u32)
    ensures bits / 0x40_0000 % 2 == FromBits(bits).word1 / 0x40 % 2
    ensures bits / 0x40_0000 % 2 == 0 ==>
              && bits + 0x40_0000 < 0x1_0000_0000 && FromBits(bits).word1 + 0x40 < 0x1_0000
              && FromBits(bits + 0x40_0000) == FromBits(bits).(word1 := FromBits(bits).word1 + 0x40)
  {
  }

  method FmodF(numerator: Float, denominator: Float) returns (r: Float)
    ensures IsRemainder(numerator, denominator, r)
  {
    hide *;
    BitsFields(numerator);
    BitsFields(denominator);
    var sign: u32 := And(numerator.Bits(), 0x8000_0000);
    var x: u32 := And(numerator.Bits(), 0x7fff_ffff);
    var y: u32 := And(denominator.Bits(), 0x7fff_ffff);
    if x > 0x7f80_0000 || y > 0x7f80_0000 {
      NaNRemainder(numerator, denominator);
      return FromBits(QuietFloatNaN(if x > 0x7f80_0000 then numerator.Bits() else denominator.Bits()));
    }
    InvalidRemainder(numerator, denominator);
    if x == 0x7f80_0000 || y == 0 {
      return FromBits(0x7fc0_0000);
    }
    SmallRemainder(numerator, denominator);
    if y == 0x7f80_0000 || x < y {
      return numerator;
    }
    if x == y {
      SignedResult(numerator, denominator, sign, 0);
      return FromBits(sign);
    }
    var bits := UnsignedFmodF(x, y);
    SignedResult(numerator, denominator, sign, bits);
    r := FromBits(Or(sign, bits));
  }

  lemma NaNRemainder(x: Float, y: Float)
    requires x.Pattern() > 0x7f80_0000 || y.Pattern() > 0x7f80_0000
    ensures x.Pattern() > 0x7f80_0000 ==> x.IsNaN() && IsRemainder(x, y, QuietNaN(x))
    ensures x.Pattern() <= 0x7f80_0000 ==> y.IsNaN() && IsRemainder(x, y, QuietNaN(y))
  {
    hide QuietNaN, Mag;
  }

  lemma InvalidRemainder(x: Float, y: Float)
    requires x.Pattern() <= 0x7f80_0000 && y.Pattern() <= 0x7f80_0000
    ensures x.Pattern() == 0x7f80_0000 || y.Pattern() == 0 ==> IsRemainder(x, y, FromBits(0x7fc0_0000))
  {
    hide Mag, Float.Pattern, FromBits;
    FromBitsPattern(0x7fc0_0000);
    assert FromBits(0x7fc0_0000) == QNaN() by { DefaultNaN(); }
  }

  lemma DefaultNaN()
    ensures FromBits(0x7fc0_0000) == QNaN()
  {
  }

  lemma SmallRemainder(x: Float, y: Float)
    requires x.Pattern() < 0x7f80_0000 && 0 < y.Pattern() <= 0x7f80_0000
    ensures y.Pattern() == 0x7f80_0000 || x.Pattern() < y.Pattern() ==> IsRemainder(x, y, x)
  {
    hide Mag, Float.Pattern;
    ZeroMagnitude(y);
    MagOrder(HIDDEN, x.Pattern(), y.Pattern());
    if x.Magnitude() < y.Magnitude() { DivModUnique(x.Magnitude(), y.Magnitude(), 0, x.Magnitude()); }
  }

  lemma SignedResult(x: Float, y: Float, sign: u32, bits: u32)
    requires 0 < y.Pattern() <= x.Pattern() < 0x7f80_0000 && bits < 0x7f80_0000
    requires sign == if x.Negative() then 0x8000_0000 else 0
    requires || (bits == 0 && x.Pattern() == y.Pattern())
             || (Mag(HIDDEN, y.Pattern()) > 0 && Mag(HIDDEN, bits) == Mag(HIDDEN, x.Pattern()) % Mag(HIDDEN, y.Pattern()))
    ensures Or(sign, bits) < 0x1_0000_0000 && IsRemainder(x, y, FromBits(Or(sign, bits)))
    ensures bits == 0 ==> Or(sign, bits) == sign
  {
    hide *;
    Pow2Of31();
    OrAbove(if x.Negative() then 1 else 0, bits, 31, 0x8000_0000);
    FromBitsPattern(sign + bits);
    DivModUnique(sign + bits, 0x8000_0000, if x.Negative() then 1 else 0, bits);
    RemainderFrom(x, y, bits, FromBits(sign + bits));
  }

  lemma RemainderFrom(x: Float, y: Float, bits: u32, r: Float)
    requires 0 < y.Pattern() <= x.Pattern() < 0x7f80_0000 && bits < 0x7f80_0000
    requires || (bits == 0 && x.Pattern() == y.Pattern())
             || (Mag(HIDDEN, y.Pattern()) > 0 && Mag(HIDDEN, bits) == Mag(HIDDEN, x.Pattern()) % Mag(HIDDEN, y.Pattern()))
    requires r.Pattern() == bits && r.Negative() == x.Negative()
    ensures IsRemainder(x, y, r)
  {
    hide Mag, Float.Pattern;
    ZeroMagnitude(y);
    MagZero(HIDDEN);
    if x.Pattern() == y.Pattern() { DivModUnique(x.Magnitude(), y.Magnitude(), 1, 0); }
  }

  // ----- binary64 -----

  /** A store of word[3] into the union of words and limbs. */
  function SetWord3(limb: u32, word: u16): u32 {
    word * 0x1_0000 + limb % 0x1_0000
  }

  ghost predicate Unpacked64(p: nat, significand: nat, exponent: int) {
    exponent + 1074 >= 0 && Shl(Mag(HIDDEN64, p), 52) == Shl(significand, exponent + 1074)
  }

  lemma UnpackedStart64(p: nat)
    requires p < 0x7ff0_0000_0000_0000
    ensures p < 0x10_0000_0000_0000 ==> Unpacked64(p, p, -1022)
    ensures p >= 0x10_0000_0000_0000 ==>
              Unpacked64(p, p % 0x10_0000_0000_0000 + 0x10_0000_0000_0000, p / 0x10_0000_0000_0000 - 1023)
  {
    hide Pow2, Shl;
    var e, f := p / 0x10_0000_0000_0000, p % 0x10_0000_0000_0000;
    if e == 0 {
      PatternZero(HIDDEN64, p);
      ShlZero(p);
      MagOf(HIDDEN64, 0, p);
    } else {
      MagOf(HIDDEN64, e - 1, HIDDEN64 + f);
      ShlMeaning(HIDDEN64 + f, e - 1);
      ShlShl(HIDDEN64 + f, e - 1, 52);
    }
  }

  lemma UnpackedDoubled64(p: nat, significand: nat, exponent: int)
    requires p > 0 && Unpacked64(p, significand, exponent) && significand < 0x10_0000_0000_0000
    ensures Unpacked64(p, 2 * significand, exponent - 1)
  {
    hide Pow2, Shl, Mag;
    Pow2Values();
    MagOrder(HIDDEN64, 0, p);
    MagZero(HIDDEN64);
    ExponentFloor(Mag(HIDDEN64, p), 52, significand, exponent + 1074);
    ShlDouble(significand, exponent + 1074);
  }

  /** The pattern of a double, as limbs, and its fields. */
  function PatternLimbs(value: Double): (s: seq<u32>)
    ensures |s| == 2 && Val(s, 2) == value.Pattern()
    ensures Word(s, 3) == value.word3 % 0x8000 && Word(s, 2) == value.word2
    ensures Word(s, 1) == value.word1 && Word(s, 0) == value.word0
  {
    hide And;
    assert Pow2(15) == 0x8000 by { Pow2Values(); }
    AndMask(value.word3, 0x7fff, 15);
    var low: int := value.word0 + value.word1 * 0x1_0000;
    var high: int := value.word2 + And(value.word3, 0x7fff) * 0x1_0000;
    TwoLimbs([low, high]);
    [low, high]
  }

  lemma PatternField(s: seq<u32>)
    requires |s| == 2
    ensures Word(s, 3) / 16 == Val(s, 2) / 0x10_0000_0000_0000
    ensures And(Word(s, 3), 0xf) * 0x1_0000_0000_0000 + Val(s, 2) % 0x1_0000_0000_0000 == Val(s, 2) % 0x10_0000_0000_0000
    ensures And(Word(s, 3), 0xf) < 0x10 && Or(And(Word(s, 3), 0xf), 0x10) == And(Word(s, 3), 0xf) + 0x10
  {
    hide And, Or, Val;
    TwoLimbs(s);
    Pow2Values();
    AndMask(Word(s, 3), 0xf, 4);
    OrFractionHigh(Word(s, 3) % 16, 0x10);
    var q, r := Word(s, 3) / 16, Word(s, 3) % 16;
    var low := Word(s, 2) * 0x1_0000_0000 + s[0];
    DivModUnique(Val(s, 2), 0x1_0000_0000_0000, Word(s, 3), low);
    DivModUnique(Val(s, 2), 0x10_0000_0000_0000, q, r * 0x1_0000_0000_0000 + low);
  }

  lemma StoredWord3(s: seq<u32>, t: seq<u32>, word: u16)
    requires |s| == 2 && t == s[1 := SetWord3(s[1], word)]
    ensures Val(t, 2) == word * 0x1_0000_0000_0000 + Val(s, 2) % 0x1_0000_0000_0000
    ensures Word(t, 3) == word && Word(t, 2) == Word(s, 2) && Word(t, 1) == Word(s, 1) && Word(t, 0) == Word(s, 0)
  {
    hide Val;
    TwoLimbs(s);
    TwoLimbs(t);
    var low: int, high: int := s[0], s[1];
    DivModUnique(Val(s, 2), 0x1_0000_0000_0000, high / 0x1_0000, high % 0x1_0000 * 0x1_0000_0000 + low);
    DivModUnique(SetWord3(s[1], word), 0x1_0000, word, high % 0x1_0000);
  }

  /** Leaves the normalised significand in value and returns the exponent. */
  method DoubleSignificand(value: array<u32>, field: u16, ghost p: nat) returns (exponent: int)
    requires value.Length == 2 && Val(value[..], 2) == p && 0 < p < 0x7ff0_0000_0000_0000
    requires field == Word(value[..], 3) / 16
    modifies value
    ensures Unpacked64(p, Val(value[..], 2), exponent) && exponent <= 1023
    ensures 0x10_0000_0000_0000 <= Val(value[..], 2) < 0x20_0000_0000_0000
  {
    hide *;
    ghost var start := value[..];
    PatternField(start);
    UnpackedStart64(p);
    FieldRange64(p);
    value[1] := SetWord3(value[1], And(Word(value[..], 3), 0xf));
    ghost var fraction := value[..];
    StoredWord3(start, fraction, And(Word(start, 3), 0xf));
    if field != 0 {
      value[1] := SetWord3(value[1], Or(Word(value[..], 3), 0x10));
      assert value[..] == fraction[1 := SetWord3(fraction[1], Or(Word(fraction, 3), 0x10))];
      StoredWord3(fraction, value[..], Or(Word(fraction, 3), 0x10));
      HighPart(Or(And(Word(start, 3), 0xf), 0x10), And(Word(start, 3), 0xf), p % 0x1_0000_0000_0000);
      return field - 1023;
    }
    exponent := -1022;
    BaseTwo();
    ghost var v := p;
    HiddenBit64(value[..]);
    while And(Word(value[..], 3), 0x0010) == 0
      invariant v == Val(value[..], 2) && 0 < v < 0x20_0000_0000_0000 && exponent <= -1022
      invariant Unpacked64(p, v, exponent)
      invariant And(Word(value[..], 3), 0x0010) == 0 <==> v < 0x10_0000_0000_0000
      decreases 0x20_0000_0000_0000 - v
    {
      UnpackedDoubled64(p, v, exponent);
      ShiftLeftOne(value, 2);
      ReduceSmall(2 * v, Base(2));
      v := 2 * v;
      exponent := exponent - 1;
      HiddenBit64(value[..]);
    }
  }

  lemma FieldRange64(p: nat)
    requires p < 0x7ff0_0000_0000_0000
    ensures p / 0x10_0000_0000_0000 <= 0x7fe
    ensures p < 0x10_0000_0000_0000 <==> p / 0x10_0000_0000_0000 == 0
    ensures p < 0x10_0000_0000_0000 ==> p % 0x10_0000_0000_0000 == p
  {
  }

  lemma HighPart(with: nat, high: nat, low: nat)
    requires with == high + 0x10 && high < 0x10 && low < 0x1_0000_0000_0000
    ensures with * 0x1_0000_0000_0000 + low == 0x10_0000_0000_0000 + (high * 0x1_0000_0000_0000 + low)
    ensures (high * 0x1_0000_0000_0000 + low) % 0x1_0000_0000_0000 == low
  {
  }

  /** The reduced numerator n * 2^e: zero, or the normalised remainder. */
  ghost predicate Reduced64(x: nat, y: nat, n: nat, e: int) {
    && y > 0
    && (n == 0 ==> x % y == 0)
    && (n > 0 ==> 0x10_0000_0000_0000 <= n < 0x20_0000_0000_0000 && -1074 <= e <= 1023 && Shl(x % y, 52) == Shl(n, e + 1074))
  }

  method UnsignedFmod(numerator: array<u32>, denominator: array<u32>, start: int, de: int, ghost p: nat, ghost q: nat)
    returns (e: int)
    requires numerator != denominator && numerator.Length == denominator.Length == 2 && 0 < q < p
    requires Unpacked64(p, Val(numerator[..], 2), start) && Unpacked64(q, Val(denominator[..], 2), de) && start <= 1023
    requires 0x10_0000_0000_0000 <= Val(numerator[..], 2) < 0x20_0000_0000_0000
    requires 0x10_0000_0000_0000 <= Val(denominator[..], 2) < 0x20_0000_0000_0000
    modifies numerator
    ensures HIDDEN64 > 0 && Reduced64(Mag(HIDDEN64, p), Mag(HIDDEN64, q), Val(numerator[..], 2), e)
  {
    hide *;
    Hidden64Value();
    ghost var x, y, d := Mag(HIDDEN64, p), Mag(HIDDEN64, q), Val(denominator[..], 2);
    ghost var n := Val(numerator[..], 2);
    ghost var other := denominator[..];
    e := start;
    StartReduction64(p, q, n, e, d, de);
    BaseTwo();
    while e > de
      invariant de <= e <= start && n == Val(numerator[..], 2) && n < 2 * d && denominator[..] == other
      invariant Reduces(Shl(x, 52), Shl(n, e + 1074), Shl(d, de + 1074))
    {
      n := SubtractIfNotLess(numerator, denominator, Shl(x, 52), n, e + 1074, d, de + 1074);
      var zero := IsZero(numerator, 2);
      if zero {
        FinishZero(x, y, 52, d, de + 1074, e + 1074);
        FinishedZero64(x, y, e);
        return;
      }
      ShlDouble(n, e + 1074);
      ShiftLeftOne(numerator, 2);
      ReduceSmall(2 * n, Base(2));
      n := 2 * n;
      e := e - 1;
    }
    n := SubtractIfNotLess(numerator, denominator, Shl(x, 52), n, e + 1074, d, de + 1074);
    var zero := IsZero(numerator, 2);
    if zero {
      FinishZero(x, y, 52, d, de + 1074, e + 1074);
      FinishedZero64(x, y, e);
      return;
    }
    FinishReduction(x, y, 52, n, d, e + 1074);
    ghost var rem := x % y;
    Pow2Values();
    HiddenBit64(numerator[..]);
    while And(Word(numerator[..], 3), 0x0010) == 0
      invariant n == Val(numerator[..], 2) && 0 < n < 0x20_0000_0000_0000 && 0 <= e + 1074 && e <= 1023
      invariant Shl(rem, 52) == Shl(n, e + 1074)
      invariant And(Word(numerator[..], 3), 0x0010) == 0 <==> n < 0x10_0000_0000_0000
      decreases 0x20_0000_0000_0000 - n
    {
      ExponentFloor(rem, 52, n, e + 1074);
      ShlDouble(n, e + 1074);
      ShiftLeftOne(numerator, 2);
      ReduceSmall(2 * n, Base(2));
      n := 2 * n;
      e := e - 1;
      HiddenBit64(numerator[..]);
    }
    FinishedReduction64(x, y, n, e);
  }

  lemma Hidden64Value()
    ensures HIDDEN64 == 0x10_0000_0000_0000
  {
  }

  lemma FinishedZero64(x: nat, y: nat, e: int)
    requires y > 0 && x % y == 0
    ensures Reduced64(x, y, 0, e)
  {
  }

  lemma FinishedReduction64(x: nat, y: nat, n: nat, e: int)
    requires y > 0 && 0x10_0000_0000_0000 <= n < 0x20_0000_0000_0000 && -1074 <= e <= 1023 && Shl(x % y, 52) == Shl(n, e + 1074)
    ensures Reduced64(x, y, n, e)
  {
  }

  method SubtractIfNotLess(numerator: array<u32>, denominator: array<u32>,
                           ghost x: nat, ghost n: nat, ghost e: nat, ghost d: nat, ghost de: nat) returns (ghost n': nat)
    requires numerator != denominator && numerator.Length == denominator.Length == 2
    requires n == Val(numerator[..], 2) && d == Val(denominator[..], 2) && n < 2 * d && de <= e
    requires Reduces(x, Shl(n, e), Shl(d, de))
    modifies numerator
    ensures n' == Val(numerator[..], 2) && n' < d && Reduces(x, Shl(n', e), Shl(d, de))
  {
    hide *;
    ghost var other := denominator[..];
    n' := n;
    var comparison := Compare(numerator, denominator, 2);
    if comparison >= 0 {
      ReduceStep(x, n, e, d, de);
      ValBound(numerator[..], 2);
      Subtract(numerator, denominator, 2);
      ReduceSmall(n - d, Base(2));
      n' := n - d;
    }
  }

  lemma StartReduction64(p: nat, q: nat, n: nat, e: int, d: nat, de: int)
    requires 0 < q < p && Unpacked64(p, n, e) && Unpacked64(q, d, de)
    requires 0x10_0000_0000_0000 <= n < 0x20_0000_0000_0000 && 0x10_0000_0000_0000 <= d < 0x20_0000_0000_0000
    ensures de <= e && e + 1074 >= 0 && de + 1074 >= 0
    ensures Mag(HIDDEN64, q) > 0 && Shl(Mag(HIDDEN64, q), 52) == Shl(d, de + 1074)
    ensures Reduces(Shl(Mag(HIDDEN64, p), 52), Shl(n, e + 1074), Shl(d, de + 1074))
  {
    hide Pow2, Shl, Mag, Reduces;
    MagOrder(HIDDEN64, q, p);
    MagOrder(HIDDEN64, 0, q);
    MagZero(HIDDEN64);
    ExponentOrder(HIDDEN64, Mag(HIDDEN64, p), Mag(HIDDEN64, q), 52, n, e + 1074, d, de + 1074);
    ReduceStart(Shl(n, e + 1074), Shl(d, de + 1074));
  }

  method Fmod(numerator: Double, denominator: Double) returns (r: Double)
    ensures IsRemainder64(numerator, denominator, r)
  {
    hide *;
    var left, right := PatternLimbs(numerator), PatternLimbs(denominator);
    var x, y := new u32[2], new u32[2];
    x[0], x[1], y[0], y[1] := left[0], left[1], right[0], right[1];
    assert x[..] == left && y[..] == right;
    var sign := And(numerator.word3, 0x8000);
    SignOf64(numerator);
    var xField, yField := Word(left, 3) / 16, Word(right, 3) / 16;
    PatternField(left);
    PatternField(right);
    var comparison := Compare(x, y, 2);
    PatternClasses(numerator, left);
    PatternClasses(denominator, right);
    NaNRemainder64(numerator, denominator);
    MagnitudeOf64(numerator);
    MagnitudeOf64(denominator);
    if (xField == 0x7ff && FractionSet(left)) || (yField == 0x7ff && FractionSet(right)) {
      return QuietNaN64(if xField != 0x7ff || !FractionSet(left) then denominator else numerator);
    }
    var zero := IsZero(y, 2);
    if xField == 0x7ff || zero {
      return QNaN64();
    }
    if yField == 0x7ff || comparison < 0 {
      SmallRemainder64(numerator, denominator);
      return numerator;
    }
    if comparison == 0 {
      SameRemainder(numerator.Magnitude());
      SignedZero64(numerator, denominator);
      return Double(0, 0, 0, sign);
    }
    ghost var p, q := numerator.Pattern(), denominator.Pattern();
    var xExponent := DoubleSignificand(x, xField, p);
    assert y[..] == right;
    var yExponent := DoubleSignificand(y, yField, q);
    xExponent := UnsignedFmod(x, y, xExponent, yExponent, p, q);
    var exact := IsZero(x, 2);
    if exact {
      ReducedZero(numerator.Magnitude(), denominator.Magnitude(), xExponent);
      SignedZero64(numerator, denominator);
      return Double(0, 0, 0, sign);
    }
    PackRemainder(x, xExponent, numerator.Magnitude(), denominator.Magnitude());
    SignedResult64(numerator, denominator, x[..], sign);
    r := Double(Word(x[..], 0), Word(x[..], 1), Word(x[..], 2), Or(sign, Word(x[..], 3)));
  }

  predicate FractionSet(s: seq<u32>)
    requires |s| == 2
  {
    And(Word(s, 3), 0x000f) != 0 || Word(s, 2) != 0 || Word(s, 1) != 0 || Word(s, 0) != 0
  }

  lemma PatternClasses(value: Double, s: seq<u32>)
    requires |s| == 2 && Val(s, 2) == value.Pattern() && Word(s, 3) == value.word3 % 0x8000
    requires Word(s, 2) == value.word2 && Word(s, 1) == value.word1 && Word(s, 0) == value.word0
    ensures Word(s, 3) / 16 == 0x7ff && FractionSet(s) <==> value.IsNaN()
    ensures Word(s, 3) / 16 == 0x7ff && !FractionSet(s) <==> value.IsInfinite()
    ensures Val(s, 2) == 0 <==> value.IsZero()
    ensures value.IsFinite() <==> Word(s, 3) / 16 < 0x7ff
    ensures value.IsFinite() <==> Val(s, 2) < 0x7ff0_0000_0000_0000
    ensures value.IsZero() ==> value.IsFinite()
    ensures value.IsFinite() ==> !value.IsNaN() && !value.IsInfinite()
    ensures Word(s, 3) / 16 <= 0x7ff
  {
    hide And, Val, Word, Double.Pattern;
    Pow2Values();
    AndMask(Word(s, 3), 0xf, 4);
    Classes64(value);
  }

  lemma NaNRemainder64(x: Double, y: Double)
    ensures x.IsNaN() ==> IsRemainder64(x, y, QuietNaN64(x))
    ensures !x.IsNaN() && y.IsNaN() ==> IsRemainder64(x, y, QuietNaN64(y))
    ensures !x.IsNaN() && !y.IsNaN() && (x.IsInfinite() || y.IsZero()) ==> IsRemainder64(x, y, QNaN64())
  {
    hide QuietNaN64, Double.IsNaN, Double.IsInfinite, Double.IsZero, QNaN64;
  }

  lemma SmallRemainder64(x: Double, y: Double)
    requires x.IsFinite() && !x.IsNaN() && !y.IsNaN() && !x.IsInfinite() && !y.IsZero() && (y.IsInfinite() || x.Pattern() < y.Pattern())
    ensures IsRemainder64(x, y, x)
  {
    hide Mag, Double.Pattern, Double.IsNaN, Double.IsInfinite, Double.IsZero;
    ZeroMagnitude64(y);
    MagOrder(HIDDEN64, x.Pattern(), y.Pattern());
    if x.Magnitude() < y.Magnitude() { DivModUnique(x.Magnitude(), y.Magnitude(), 0, x.Magnitude()); }
  }

  lemma MagnitudeOf64(value: Double)
    ensures HIDDEN64 > 0 && value.Magnitude() == Mag(HIDDEN64, value.Pattern())
    ensures value.Magnitude() == 0 <==> value.IsZero()
  {
    ZeroMagnitude64(value);
  }

  lemma ReducedZero(x: nat, y: nat, e: int)
    requires Reduced64(x, y, 0, e)
    ensures y > 0 && x % y == 0
  {
  }

  lemma SameRemainder(m: nat)
    ensures m > 0 ==> m % m == 0
  {
    if m > 0 { DivModUnique(m, m, 1, 0); }
  }

  lemma SignedZero64(x: Double, y: Double)
    requires x.IsFinite() && !x.IsNaN() && !y.IsNaN() && !x.IsInfinite() && !y.IsZero() && !y.IsInfinite()
    requires y.Magnitude() > 0 ==> x.Magnitude() % y.Magnitude() == 0
    ensures IsRemainder64(x, y, Double(0, 0, 0, if x.Negative() then 0x8000 else 0))
  {
    hide Mag, Double.Pattern, Double.IsNaN, Double.IsInfinite, Double.IsZero;
    ZeroMagnitude64(y);
    ZeroPattern64(if x.Negative() then 0x8000 else 0);
    MagZero(HIDDEN64);
  }

  lemma SignOf64(value: Double)
    ensures And(value.word3, 0x8000) == if value.Negative() then 0x8000 else 0
  {
    AndSignBit(value.word3);
  }

  lemma SignedResult64(x: Double, y: Double, s: seq<u32>, sign: u16)
    requires x.IsFinite() && !x.IsNaN() && !y.IsNaN() && !x.IsInfinite() && !y.IsZero() && !y.IsInfinite()
    requires |s| == 2 && y.Magnitude() > 0 && sign == if x.Negative() then 0x8000 else 0
    requires Val(s, 2) < 0x7ff0_0000_0000_0000 && Mag(HIDDEN64, Val(s, 2)) == x.Magnitude() % y.Magnitude()
    ensures Or(sign, Word(s, 3)) < 0x1_0000
    ensures IsRemainder64(x, y, Double(Word(s, 0), Word(s, 1), Word(s, 2), Or(sign, Word(s, 3))))
  {
    hide Mag, Or, Val;
    TwoLimbs(s);
    assert Word(s, 3) < 0x7ff0;
    OrSign(sign, Word(s, 3));
    var r := Double(Word(s, 0), Word(s, 1), Word(s, 2), Or(sign, Word(s, 3)));
    assert r.word3 % 0x8000 == Word(s, 3);
    assert r.Pattern() == Val(s, 2);
  }

  /** Inserts the exponent field, or shifts a subnormal result into place. */
  method PackRemainder(x: array<u32>, start: int, ghost xm: nat, ghost ym: nat)
    requires x.Length == 2 && Val(x[..], 2) > 0 && Reduced64(xm, ym, Val(x[..], 2), start)
    modifies x
    ensures ym > 0 && HIDDEN64 > 0 && Val(x[..], 2) < 0x7ff0_0000_0000_0000
    ensures Mag(HIDDEN64, Val(x[..], 2)) == xm % ym
  {
    hide *;
    Hidden64Value();
    ghost var n := Val(x[..], 2);
    ReducedMeaning(xm, ym, n, start);
    ghost var rem := xm % ym;
    var e := start;
    if e >= -1022 {
      ghost var before := x[..];
      PatternField(before);
      PackNormal64(n, e, rem, And(Word(before, 3), 0xf));
      x[1] := SetWord3(x[1], Or(U16(e + 1023) * 16, And(Word(x[..], 3), 0xf)));
      StoredWord3(before, x[..], Or(U16(e + 1023) * 16, And(Word(before, 3), 0xf)));
    } else {
      while e < -1022
        invariant n == Val(x[..], 2) && n < 0x20_0000_0000_0000 && 0 <= e + 1074 && e <= -1022
        invariant e == -1022 ==> n < 0x10_0000_0000_0000
        invariant Shl(rem, 52) == Shl(n, e + 1074)
      {
        ExactHalf(rem, 52, n, e + 1074);
        ShiftRightOne(x, 2);
        n := n / 2;
        e := e + 1;
      }
      ghost var before := x[..];
      PatternField(before);
      x[1] := SetWord3(x[1], And(Word(x[..], 3), 0xf));
      StoredWord3(before, x[..], And(Word(before, 3), 0xf));
      PackSubnormal64(n, rem);
    }
  }

  lemma ReducedMeaning(x: nat, y: nat, n: nat, e: int)
    requires n > 0 && Reduced64(x, y, n, e)
    ensures y > 0 && 0x10_0000_0000_0000 <= n < 0x20_0000_0000_0000 && -1074 <= e <= 1023 && Shl(x % y, 52) == Shl(n, e + 1074)
  {
  }

  lemma PackNormal64(n: nat, e: int, rem: nat, high: nat)
    requires 0x10_0000_0000_0000 <= n < 0x20_0000_0000_0000 && -1022 <= e <= 1023 && Shl(rem, 52) == Shl(n, e + 1074)
    requires high < 16 && high * 0x1_0000_0000_0000 + n % 0x1_0000_0000_0000 == n % 0x10_0000_0000_0000
    ensures 0 <= U16(e + 1023) * 16 && Or(U16(e + 1023) * 16, high) < 0x7ff0
    ensures var r := Or(U16(e + 1023) * 16, high) * 0x1_0000_0000_0000 + n % 0x1_0000_0000_0000;
            r < 0x7ff0_0000_0000_0000 && Mag(HIDDEN64, r) == rem
  {
    hide *;
    Pow2Values();
    FieldIs(e);
    OrAbove(e + 1023, high, 4, 16);
    var r := ((e + 1023) * 16 + high) * 0x1_0000_0000_0000 + n % 0x1_0000_0000_0000;
    WordsPattern(n, e, high, r);
    MagOf(HIDDEN64, e + 1022, n);
    ShlMeaning(n, e + 1022);
    ShlShl(n, e + 1022, 52);
    ShlCancel(Shl(n, e + 1022), rem, 52);
  }

  lemma FieldIs(e: int)
    requires -1022 <= e <= 1023
    ensures U16(e + 1023) == e + 1023
  {
  }

  lemma WordsPattern(n: nat, e: int, high: nat, r: nat)
    requires 0x10_0000_0000_0000 <= n < 0x20_0000_0000_0000 && -1022 <= e <= 1023
    requires high < 16 && high * 0x1_0000_0000_0000 + n % 0x1_0000_0000_0000 == n % 0x10_0000_0000_0000
    requires r == ((e + 1023) * 16 + high) * 0x1_0000_0000_0000 + n % 0x1_0000_0000_0000
    ensures HIDDEN64 == 0x10_0000_0000_0000 && r == Pattern(HIDDEN64, e + 1022, n) && r < 0x7ff0_0000_0000_0000
  {
    DivModUnique(n, 0x10_0000_0000_0000, 1, n - 0x10_0000_0000_0000);
  }

  lemma PackSubnormal64(n: nat, rem: nat)
    requires n < 0x10_0000_0000_0000 && Shl(rem, 52) == Shl(n, 52)
    ensures Mag(HIDDEN64, n) == rem && n % 0x10_0000_0000_0000 == n
  {
    hide Pow2, Shl, Mag;
    ShlCancel(rem, n, 52);
    PatternZero(HIDDEN64, n);
    MagOf(HIDDEN64, 0, n);
    ShlMeaning(n, 0);
    ShlZero(n);
  }
}
