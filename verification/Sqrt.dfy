/** sqrtf and sqrt (sqrt.c). */
module Sqrt {
  import opened Bits
  import opened Rounding
  import opened Packing
  import opened Binary32
  import opened Binary64
  import opened WideLimbs
  import opened RootRounding
  import opened SquareRoot

  /** Sections 5.4.1 and 6 of IEEE 754-2019: NaNs are quieted, zeros and +infinity are
  their own roots, other negatives give a NaN, and every positive finite value gives the
  float nearest to its real square root. */
  ghost predicate IsSquareRoot(value: Float, r: Float) {
    if value.IsNaN() then r == QuietNaN(value)
    else if value.IsZero() then r == value
    else if value.Negative() then r.IsQuietNaN()
    else if value.IsInfinite() then r == value
    else !r.Negative() && r.IsFinite() && NearestRoot(HIDDEN, r.Pattern(), Shl(value.Magnitude(), 149))
  }

  ghost predicate IsSquareRoot64(value: Double, r: Double) {
    if value.IsNaN() then r == QuietNaN64(value)
    else if value.IsZero() then r == value
    else if value.Negative() then r.IsQuietNaN()
    else if value.IsInfinite() then r == value
    else !r.Negative() && r.IsFinite() && NearestRoot(HIDDEN64, r.Pattern(), Shl(value.Magnitude(), 1074))
  }

  /** bits & 0x007fffff */
  function FractionBits(value: Float): (f: u32)
    ensures f == value.Pattern() % 0x80_0000
  {
    hide And;
    Pow2Values();
    AndMask(value.Bits(), 0x7f_ffff, 23);
    SignDoesNotMatter(value);
    And(value.Bits(), 0x7f_ffff)
  }

  lemma SignDoesNotMatter(value: Float)
    ensures value.Bits() % 0x80_0000 == value.Pattern() % 0x80_0000
  {
    var s := value.word1 / 0x8000;
    DivModUnique(value.Bits(), 0x80_0000, s * 256 + value.Pattern() / 0x80_0000, value.Pattern() % 0x80_0000);
  }

  method SqrtF(value: Float) returns (r: Float)
    ensures IsSquareRoot(value, r)
  {
    hide NearestRoot, Mag, Shl, Float.Pattern, FractionBits, Exponent;
    var exponent := Exponent(value);
    var fraction := FractionBits(value);
    ClassifyByFields(value);
    if exponent == 0xff {
      if fraction != 0 {
        return QuietNaN(value);
      } else if value.Negative() {
        return QNaN();
      }
      return value;
    }
    if exponent == 0 && fraction == 0 {
      return value;
    }
    if value.Negative() {
      return QNaN();
    }
    r := PositiveRoot(value, exponent, fraction);
  }

  /** The exact radicand: significand * 2^unbiased in terms of the units of the format. */
  ghost predicate Radicand(x: nat, significand: nat, unbiased: int, bias: nat) {
    unbiased + bias >= 0 && x == Shl(significand, unbiased + bias)
  }

  lemma RadicandDoubled(x: nat, significand: nat, unbiased: int, bias: nat)
    requires Radicand(x, significand, unbiased, bias) && unbiased + bias >= 1
    ensures Radicand(x, 2 * significand, unbiased - 1, bias)
  {
    hide Shl;
    ShlOne(1);
    Pow2Values();
    ShlMeaning(significand, 1);
    ShlShl(significand, 1, unbiased - 1 + bias);
  }

  lemma RadicandStart(value: Float, e: u16, f: u32)
    requires e == value.Pattern() / 0x80_0000 && f == value.Pattern() % 0x80_0000
    ensures Radicand(Shl(value.Magnitude(), 149), if e == 0 then f else f + 0x80_0000, if e == 0 then -126 else e - 127, 275)
  {
    hide Shl, Pow2;
    var s := if e == 0 then f else f + 0x80_0000;
    SignificandMagnitude(value, e);
    var k := if e == 0 then 0 else e - 1;
    ShlMeaning(s, k);
    ShlShl(s, k, 149);
  }

  /** The significand and unbiased exponent sqrtf starts from: the exponent is made even. */
  method NormalizeRadicand(value: Float, exponent: u16, fraction: u32) returns (significand: u32, unbiased: int)
    requires exponent < 255 && (exponent != 0 || fraction != 0)
    requires exponent == value.Pattern() / 0x80_0000 && fraction == value.Pattern() % 0x80_0000
    ensures Radicand(Shl(value.Magnitude(), 149), significand, unbiased, 275)
    ensures 0x80_0000 <= significand < 0x200_0000 && (significand >= 0x100_0000 ==> significand % 2 == 0)
    ensures -150 <= unbiased <= 127 && unbiased % 2 == 0
  {
    hide *;
    ghost var x := Shl(value.Magnitude(), 149);
    significand, unbiased := fraction, -126;
    RadicandStart(value, exponent, fraction);
    OrHiddenBit(fraction);
    Pow2Values();
    if exponent != 0 {
      significand := Or(0x80_0000, fraction);
      unbiased := exponent - 127;
    } else {
      while significand < 0x80_0000
        invariant 0 < significand < 0x100_0000 && -149 <= unbiased <= -126
        invariant Radicand(x, significand, unbiased, 275)
        invariant Pow2(-126 - unbiased) <= significand
        decreases 0x100_0000 - significand
      {
        BelowHidden(-126 - unbiased, significand);
        RadicandDoubled(x, significand, unbiased, 275);
        significand := significand * 2;
        unbiased := unbiased - 1;
      }
    }
    if unbiased % 2 != 0 {
      RadicandDoubled(x, significand, unbiased, 275);
      significand := significand * 2;
      unbiased := unbiased - 1;
    }
  }

  lemma OrHiddenBit(fraction: u32)
    requires fraction < 0x80_0000
    ensures Or(0x80_0000, fraction) == fraction + 0x80_0000
  {
    hide Or;
    Pow2Values();
    OrDisjoint(0x80_0000, fraction, 23);
  }

  /** At most 23 doublings reach the hidden bit. */
  lemma BelowHidden(k: nat, significand: nat)
    requires Pow2(k) <= significand < 0x80_0000
    ensures k < 23 && Pow2(k + 1) <= 2 * significand
  {
    hide Pow2;
    Pow2Values();
    if k >= 23 { Pow2Monotone(23, k); }
    Pow2Step(k);
  }

  /** sqrtf for positive finite values. */
  method PositiveRoot(value: Float, exponent: u16, fraction: u32) returns (r: Float)
    requires exponent < 255 && (exponent != 0 || fraction != 0)
    requires exponent == value.Pattern() / 0x80_0000 && fraction == value.Pattern() % 0x80_0000
    ensures !r.Negative() && r.IsFinite() && NearestRoot(HIDDEN, r.Pattern(), Shl(value.Magnitude(), 149))
  {
    hide *;
    var significand, unbiased := NormalizeRadicand(value, exponent, fraction);
    var input, root, remainder := new u32[2], new u32[2], new u32[2];
    input[0], input[1] := significand, 0;
    OneLimb(input[..], significand);
    ghost var sig := input[..];
    Pow2Values();
    ScaledSquareRoot(input, 24, 1, root, remainder);
    assert input[..] == sig;
    ghost var digits, rest := Val(root[..], 1), Val(remainder[..], 1);
    RoundedRoot(0x80_0000, 23, significand, digits, rest);
    BaseOne();
    var comparison := Compare(remainder, root, 1);
    if comparison > 0 {
      Increment(root, 1);
      ReduceSmall(digits + 1, Base(1));
    }
    ghost var rounded := root[..];
    unbiased := unbiased / 2;
    var exponent' := unbiased;
    if And(Word(root[..], 1), 0x0100) != 0 {
      ShiftRightOne(root, 1);
      exponent' := exponent' + 1;
    }
    NoCarry(rounded);
    r := Float(Word(root[..], 0), U16(Or(U16(exponent' + 127) * 0x80, And(Word(root[..], 1), 0x7f))));
    PackedRoot(rounded, unbiased);
    FinishRoot(Shl(value.Magnitude(), 149), significand, unbiased, Val(rounded, 1), r);
  }

  lemma BaseOne()
    ensures Base(1) == 0x1_0000_0000
  {
    Pow2Values();
  }

  lemma OneLimb(s: seq<u32>, v: u32)
    requires |s| == 2 && s[0] == v && s[1] == 0
    ensures Val(s, 2) == v
  {
    BaseStep(0);
    assert Val(s, 0) == 0 && Val(s, 1) == v;
  }

  lemma LimbWords(s: seq<u32>)
    requires |s| == 2 && 0x80_0000 <= Val(s, 1) < 0x100_0000
    ensures Word(s, 0) == Val(s, 1) % 0x1_0000 && Word(s, 1) == Val(s, 1) / 0x1_0000 && 0x80 <= Word(s, 1) < 0x100
  {
    BaseStep(0);
    assert Val(s, 0) == 0 && Val(s, 1) == s[0];
  }

  /** The rounded root has 24 bits, so the carry branch is dead. */
  lemma NoCarry(s: seq<u32>)
    requires |s| == 2 && 0x80_0000 <= Val(s, 1) < 0x100_0000
    ensures And(Word(s, 1), 0x0100) == 0
  {
    hide And;
    LimbWords(s);
    Pow2Values();
    AndBit(Word(s, 1), 8);
  }

  lemma PackedRoot(s: seq<u32>, unbiased: int)
    requires |s| == 2 && 0x80_0000 <= Val(s, 1) < 0x100_0000 && -75 <= unbiased <= 63
    ensures var r := Float(Word(s, 0), U16(Or(U16(unbiased + 127) * 0x80, And(Word(s, 1), 0x7f))));
            !r.Negative() && r.IsFinite() && r.Pattern() == Pattern(HIDDEN, unbiased + 126, Val(s, 1))
  {
    hide And, Or, Word, Val;
    LimbWords(s);
    And7f(Word(s, 1));
    var e, f, v := unbiased + 127, Word(s, 1) % 0x80, Val(s, 1);
    assert U16(e) == e;
    Pow2Values();
    OrDisjoint(e * 0x80, f, 7);
    assert U16(e * 0x80 + f) == e * 0x80 + f;
    assert f == v / 0x1_0000 - 0x80;
    assert Float(v % 0x1_0000, e * 0x80 + f).Pattern() == (e - 1) * 0x80_0000 + v;
  }

  lemma FinishRoot(x: nat, significand: nat, half: int, s: nat, r: Float)
    requires half >= -75 && Radicand(x, significand, 2 * half, 275)
    requires 0x80_0000 <= s < 0x100_0000 && NearestInteger(s, Shl(significand, 23))
    requires s == 0x80_0000 ==> Times(s, s) <= Shl(significand, 23)
    requires r.Pattern() == Pattern(HIDDEN, half + 126, s)
    ensures NearestRoot(HIDDEN, r.Pattern(), x)
  {
    hide Shl, Times, NearestInteger, NearestRoot, Float.Pattern, Pattern;
    ShlShl(significand, 23, 2 * (half + 126));
    RootByHalfSteps(HIDDEN, half + 126, s, Shl(significand, 23), x);
  }

  // ----- binary64 -----

  method SqrtD(value: Double) returns (r: Double)
    ensures IsSquareRoot64(value, r)
  {
    hide NearestRoot, Mag, Shl, Double.Pattern, Exponent64, FractionHigh, Fraction;
    var exponent := Exponent64(value);
    var fractionIsZero := FractionHigh(value) == 0 && value.word2 == 0 && value.word1 == 0 && value.word0 == 0;
    Fields64(value);
    FractionWords(value);
    if exponent == 0x7ff {
      if !fractionIsZero {
        return QuietNaN64(value);
      } else if value.Negative() {
        return QNaN64();
      }
      return value;
    }
    if fractionIsZero && exponent == 0 {
      return value;
    }
    if value.Negative() {
      return QNaN64();
    }
    r := PositiveRoot64(value, exponent);
  }

  lemma FractionWords(value: Double)
    ensures Fraction(value) == 0 <==> FractionHigh(value) == 0 && value.word2 == 0 && value.word1 == 0 && value.word0 == 0
  {
  }

  /** The fraction words as an array of two limbs, with the hidden bit of a normal number. */
  function FractionLimbs(value: Double, hidden: u16): (s: seq<u32>)
    requires hidden == 0 || hidden == 0x10
    ensures |s| == 2 && Val(s, 2) == Fraction(value) + if hidden == 0 then 0 else 0x10_0000_0000_0000
  {
    hide Or, FractionHigh;
    OrFractionHigh(FractionHigh(value), hidden);
    var low: int := value.word0 + value.word1 * 0x1_0000;
    var high: int := value.word2 + Or(FractionHigh(value), hidden) * 0x1_0000;
    TwoLimbs([low, high]);
    [low, high]
  }

  lemma OrFractionHigh(high: u16, hidden: u16)
    requires high < 0x10 && (hidden == 0 || hidden == 0x10)
    ensures Or(high, hidden) == high + hidden
  {
    Pow2Values();
    OrDisjoint(0x10, high, 4);
    OrCommutes(0x10, high);
    OrZero(high);
  }

  lemma TwoLimbs(s: seq<u32>)
    requires |s| == 2
    ensures Val(s, 2) == (s[0] as int) + (s[1] as int) * 0x1_0000_0000
  {
    BaseStep(0);
    assert Val(s, 0) == 0 && Val(s, 1) == s[0];
  }

  lemma BaseTwo()
    ensures Base(2) == 0x1_0000_0000_0000_0000
  {
    BaseStep(0);
    BaseStep(1);
  }

  lemma RadicandStart64(value: Double, e: u16)
    requires e == Exponent64(value)
    ensures Radicand(Shl(value.Magnitude(), 1074), if e == 0 then Fraction(value) else Fraction(value) + 0x10_0000_0000_0000,
                     if e == 0 then -1022 else e - 1023, 2096)
  {
    hide Shl, Pow2;
    FieldMagnitude(value);
    var s := if e == 0 then Fraction(value) else Fraction(value) + 0x10_0000_0000_0000;
    var k := if e == 0 then 0 else e - 1;
    ShlMeaning(s, k);
    ShlShl(s, k, 1074);
  }

  /** word[3] & 0x0010 is the hidden bit. */
  lemma HiddenBit64(s: seq<u32>)
    requires |s| == 2 && Val(s, 2) < 0x20_0000_0000_0000
    ensures And(Word(s, 3), 0x0010) == 0 <==> Val(s, 2) < 0x10_0000_0000_0000
  {
    hide And;
    TwoLimbs(s);
    Pow2Values();
    AndBit(Word(s, 3), 4);
  }

  method NormalizeRadicand64(value: Double, exponent: u16) returns (input: array<u32>, unbiased: int)
    requires exponent == Exponent64(value) && exponent < 0x7ff && (exponent != 0 || Fraction(value) != 0)
    ensures fresh(input) && input.Length == 2
    ensures var S := Val(input[..], 2);
            && Radicand(Shl(value.Magnitude(), 1074), S, unbiased, 2096)
            && 0x10_0000_0000_0000 <= S < 0x40_0000_0000_0000 && (S >= 0x20_0000_0000_0000 ==> S % 2 == 0)
    ensures -1074 <= unbiased <= 1023 && unbiased % 2 == 0
  {
    hide *;
    ghost var x := Shl(value.Magnitude(), 1074);
    var limbs := FractionLimbs(value, if exponent != 0 then 0x10 else 0);
    input := new u32[2];
    input[0], input[1] := limbs[0], limbs[1];
    assert input[..] == limbs;
    unbiased := if exponent != 0 then exponent - 1023 else -1022;
    RadicandStart64(value, exponent);
    Fields64(value);
    Pow2Values();
    BaseTwo();
    ghost var v := Val(input[..], 2);
    if exponent == 0 {
      HiddenBit64(input[..]);
      while And(Word(input[..], 3), 0x0010) == 0
        invariant v == Val(input[..], 2) && 0 < v < 0x20_0000_0000_0000 && -1074 <= unbiased <= -1022
        invariant Radicand(x, v, unbiased, 2096)
        invariant Pow2(-1022 - unbiased) <= v
        invariant And(Word(input[..], 3), 0x0010) == 0 <==> v < 0x10_0000_0000_0000
        decreases 0x20_0000_0000_0000 - v
      {
        BelowHidden64(-1022 - unbiased, v);
        RadicandDoubled(x, v, unbiased, 2096);
        ShiftLeftOne(input, 2);
        ReduceSmall(2 * v, Base(2));
        v := 2 * v;
        unbiased := unbiased - 1;
        HiddenBit64(input[..]);
      }
    }
    if unbiased % 2 != 0 {
      RadicandDoubled(x, v, unbiased, 2096);
      ShiftLeftOne(input, 2);
      ReduceSmall(2 * v, Base(2));
      unbiased := unbiased - 1;
    }
  }

  lemma BelowHidden64(k: nat, significand: nat)
    requires Pow2(k) <= significand < 0x10_0000_0000_0000
    ensures k < 52 && Pow2(k + 1) <= 2 * significand
  {
    hide Pow2;
    Pow2Values();
    if k >= 52 { Pow2Monotone(52, k); }
    Pow2Step(k);
  }

  method PositiveRoot64(value: Double, exponent: u16) returns (r: Double)
    requires exponent == Exponent64(value) && exponent < 0x7ff && (exponent != 0 || Fraction(value) != 0)
    ensures !r.Negative() && r.IsFinite() && NearestRoot(HIDDEN64, r.Pattern(), Shl(value.Magnitude(), 1074))
  {
    hide *;
    var input, unbiased := NormalizeRadicand64(value, exponent);
    ghost var S := Val(input[..], 2);
    ghost var sig := input[..];
    var root, remainder := new u32[2], new u32[2];
    assert input[..] == sig;
    Pow2Values();
    ScaledSquareRoot(input, 53, 2, root, remainder);
    assert input[..] == sig;
    ghost var digits, rest := Val(root[..], 2), Val(remainder[..], 2);
    RoundedRoot(0x10_0000_0000_0000, 52, S, digits, rest);
    BaseTwo();
    var comparison := Compare(remainder, root, 2);
    if comparison > 0 {
      Increment(root, 2);
      ReduceSmall(digits + 1, Base(2));
    }
    ghost var rounded := root[..];
    unbiased := unbiased / 2;
    var exponent' := unbiased;
    if And(Word(root[..], 3), 0x0020) != 0 {
      ShiftRightOne(root, 2);
      exponent' := exponent' + 1;
    }
    NoCarry64(rounded);
    r := Double(Word(root[..], 0), Word(root[..], 1), Word(root[..], 2),
                U16(Or(U16(exponent' + 1023) * 0x10, And(Word(root[..], 3), 0xf))));
    PackedRoot64(rounded, unbiased);
    FinishRoot64(Shl(value.Magnitude(), 1074), S, unbiased, Val(rounded, 2), r);
  }

  lemma NoCarry64(s: seq<u32>)
    requires |s| == 2 && 0x10_0000_0000_0000 <= Val(s, 2) < 0x20_0000_0000_0000
    ensures And(Word(s, 3), 0x0020) == 0 && 0x10 <= Word(s, 3) < 0x20
  {
    hide And;
    TwoLimbs(s);
    Pow2Values();
    AndBit(Word(s, 3), 5);
  }

  lemma PackedRoot64(s: seq<u32>, unbiased: int)
    requires |s| == 2 && 0x10_0000_0000_0000 <= Val(s, 2) < 0x20_0000_0000_0000 && -537 <= unbiased <= 511
    ensures var r := Double(Word(s, 0), Word(s, 1), Word(s, 2), U16(Or(U16(unbiased + 1023) * 0x10, And(Word(s, 3), 0xf))));
            !r.Negative() && r.IsFinite() && r.Pattern() == Pattern(HIDDEN64, unbiased + 1022, Val(s, 2))
  {
    hide And, Or, Val;
    NoCarry64(s);
    TwoLimbs(s);
    Pow2Values();
    AndMask(Word(s, 3), 0xf, 4);
    var e, f := unbiased + 1023, Word(s, 3) % 0x10;
    assert U16(e) == e;
    OrDisjoint(e * 0x10, f, 4);
    assert U16(e * 0x10 + f) == e * 0x10 + f;
    assert f == Word(s, 3) - 0x10;
  }

  lemma FinishRoot64(x: nat, significand: nat, half: int, s: nat, r: Double)
    requires half >= -537 && Radicand(x, significand, 2 * half, 2096)
    requires 0x10_0000_0000_0000 <= s < 0x20_0000_0000_0000 && NearestInteger(s, Shl(significand, 52))
    requires s == 0x10_0000_0000_0000 ==> Times(s, s) <= Shl(significand, 52)
    requires r.Pattern() == Pattern(HIDDEN64, half + 1022, s)
    ensures NearestRoot(HIDDEN64, r.Pattern(), x)
  {
    hide Shl, Times, NearestInteger, NearestRoot, Double.Pattern, Pattern;
    ShlShl(significand, 52, 2 * (half + 1022));
    RootByHalfSteps(HIDDEN64, half + 1022, s, Shl(significand, 52), x);
  }
}
