/** pack_float and normalize_significand (internal.h). */
module Packing {
  import opened Bits
  import opened Limbs
  import opened Rounding
  import opened Sticky
  import opened Binary32

  /** The exact value an extended significand stands for, num/den at biased exponent
  `exponent`, as a fraction of units of 2^-149. */
  function ScaledNum(exponent: int, num: nat): (n: nat) {
    var k := if exponent >= 1 then exponent - 1 else 0;
    Nonnegative(num, Pow2(k));
    num * Pow2(k)
  }

  function ScaledDen(exponent: int, den: nat): (d: nat)
    requires den > 0
    ensures d > 0
  {
    var k := if exponent >= 1 then 0 else 1 - exponent;
    MulAtLeast(den, Pow2(k));
    8 * (den * Pow2(k))
  }

  /** Shifts a nonzero significand up to the hidden bit, keeping significand * 2^exponent. */
  method NormalizeSignificand(words: Words, start: int) returns (value: Words, exponent: int)
    requires 0 < words.Val() < 0x100_0000
    ensures 0x80_0000 <= value.Val() < 0x100_0000
    ensures start - 23 <= exponent <= start
    ensures value.Val() == words.Val() * Pow2(start - exponent)
  {
    hide And, Pow2;
    value, exponent := words, start;
    HiddenBit(value);
    assert Pow2(0) == 1 by { Pow2Values(); }
    while And(value.high, 0x80) == 0
      invariant 0 < value.Val() < 0x100_0000 && exponent <= start
      invariant value.Val() == words.Val() * Pow2(start - exponent)
      invariant Pow2(start - exponent) <= value.Val()
      invariant And(value.high, 0x80) == 0 <==> value.Val() < 0x80_0000
      decreases 0x100_0000 - value.Val()
    {
      DoublingStep(words.Val(), start - exponent, value.Val());
      value := ShiftLeftOne(value);
      exponent := exponent - 1;
      HiddenBit(value);
    }
    if start - exponent > 23 {
      Pow2Values();
      Pow2Monotone(24, start - exponent);
    }
  }

  lemma DoublingStep(v: nat, k: nat, doubled: nat)
    requires v * Pow2(k) == doubled
    ensures Pow2(0) == 1 && Pow2(k + 1) == 2 * Pow2(k)
    ensures v * Pow2(k + 1) == 2 * doubled
  {
    MulAssoc(v, 2, Pow2(k));
  }

  lemma HiddenBit(value: Words)
    requires value.Val() < 0x100_0000
    ensures And(value.high, 0x80) == 0 <==> value.Val() < 0x80_0000
  {
    Pow2Values();
    AndBit(value.high, 7);
  }

  /** The bits 26 and 27 that pack_float and __addsf3 test. */
  lemma TopBits(value: Words)
    requires value.Val() < 0x1000_0000
    ensures And(value.high, 0x800) == 0 <==> value.Val() < 0x800_0000
    ensures value.Val() < 0x800_0000 ==> (And(value.high, 0x400) == 0 <==> value.Val() < 0x400_0000)
  {
    Pow2Values();
    AndBit(value.high, 11);
    AndBit(value.high, 10);
  }

  /** Packs a significand carrying three round/guard/sticky bits.  num/den is the exact
  value the significand stands for; the result is that value rounded once. */
  method PackFloat(sign: u16, exponent: int, extended: Words, ghost num: nat, ghost den: nat)
    returns (result: Float)
    requires sign == 0 || sign == 0x8000
    requires -0x7fff <= exponent < 0x7fff
    requires extended.Val() < 0x800_0000 && (exponent > 1 ==> extended.Val() >= 0x400_0000)
    requires den > 0 && Stands(extended.Val(), if exponent >= 1 then 4 else 2, num, den)
    ensures RoundedTo(result, sign == 0x8000, ScaledNum(exponent, num), ScaledDen(exponent, den))
  {
    hide And, Or, StickyShift, RoundOff, RoundedTo, NearestEven, Stands;
    var e, x := exponent, extended;
    ghost var d := den;
    if e <= 0 {
      x := ShiftRightSticky(x, 1 - e);
      d := den * Pow2(1 - e);
      MulAtLeast(den, Pow2(1 - e));
      StickyShiftBound(extended.Val(), 1 - e);
      StandsShifted(extended.Val(), 1 - e, num, den);
      StandsCoarser(x.Val(), num, d);
      e := 1;
    }
    RoundedAt(exponent, e - 1, x.Val(), num, den, d);
    result := RoundAndAssemble(sign, e, x);
    Witness(result, sign == 0x8000, (e - 1) * 0x80_0000 + RoundOff(x.Val()), ScaledNum(exponent, num), ScaledDen(exponent, den));
  }

  /** pack_float from the computation of round_bits on. */
  method RoundAndAssemble(sign: u16, exponent: nat, extended: Words) returns (result: Float)
    requires sign == 0 || sign == 0x8000
    requires 1 <= exponent < 0x7fff
    requires extended.Val() < 0x800_0000 && (exponent > 1 ==> extended.Val() >= 0x400_0000)
    ensures result.Negative() == (sign == 0x8000)
    ensures result.Pattern() == Min((exponent - 1) * 0x80_0000 + RoundOff(extended.Val()), INFINITY)
  {
    hide And, Or, RoundOff, Float.Pattern;
    var e := exponent;
    var roundBits := And(extended.low, 7);
    AndLowBits(extended);
    var increment := roundBits > 4 || (roundBits == 4 && And(extended.low, 8) != 0);
    var rounded := if increment then Add(extended, Words(8, 0)) else extended;
    RoundedValue(extended.Val(), increment, rounded.Val());
    TopBits(rounded);
    if And(rounded.high, 0x0800) != 0 {
      rounded := Words(0, 0x0400);
      e := e + 1;
    }
    assert (e - 1) * 0x80_0000 + rounded.Val() / 8 == (exponent - 1) * 0x80_0000 + RoundOff(extended.Val());
    if e >= 255 {
      result := Infinity(sign);
      return;
    }
    TopBits(rounded);
    if e == 1 && And(rounded.high, 0x0400) == 0 {
      e := 0;
    }
    result := Assemble(sign, e, rounded);
  }

  lemma RoundedAt(exponent: int, k: nat, E: nat, num: nat, den: nat, d: nat)
    requires den > 0 && d > 0 && Stands(E, 4, num, d)
    requires E < 0x800_0000 && (k > 0 ==> E >= 0x400_0000)
    requires if exponent <= 0 then k == 0 && d == den * Pow2(1 - exponent) else k == exponent - 1 && d == den
    ensures NearestEven(HIDDEN, k * 0x80_0000 + RoundOff(E), ScaledNum(exponent, num), ScaledDen(exponent, den))
  {
    RoundOffNearest(HIDDEN, k, E, num, d);
    PatternValue(k, RoundOff(E));
  }

  lemma PatternValue(k: nat, s: nat)
    ensures Pattern(HIDDEN, k, s) == k * 0x80_0000 + s
  {
  }

  lemma RoundedValue(E: nat, increment: bool, R: nat)
    requires E < 0x800_0000
    requires increment <==> E % 8 > 4 || (E % 8 == 4 && E / 8 % 2 == 1)
    requires R == (if increment then E + 8 else E)
    ensures R / 8 == RoundOff(E)
    ensures R >= 0x800_0000 ==> R / 8 == 0x100_0000
  {
  }

  lemma StickyShiftBound(v: nat, c: nat)
    requires v < 0x800_0000 && c >= 1
    ensures StickyShift(v, c) < 0x800_0000
  {
  }

  lemma LowThreeBits(x: Words)
    ensures x.Val() % 8 == x.low % 8 && x.Val() / 8 == x.high * 0x2000 + x.low / 8
    ensures x.Val() / 8 % 2 == x.low / 8 % 2
  {
    var q := x.low / 8;
    DivModUnique(x.Val(), 8, x.high * 0x2000 + q, x.low % 8);
    DivModUnique(x.high * 0x2000 + q, 2, x.high * 0x1000 + q / 2, q % 2);
  }

  lemma AndLowBits(x: Words)
    ensures And(x.low, 7) == x.Val() % 8
    ensures And(x.low, 8) != 0 <==> x.Val() / 8 % 2 == 1
  {
    hide And;
    Pow2Values();
    And7(x.low);
    AndBit(x.low, 3);
    LowThreeBits(x);
  }

  /** The last two assignments of pack_float. */
  function Assemble(sign: u16, exponent: nat, rounded: Words): (r: Float)
    requires sign == 0 || sign == 0x8000
    requires exponent < 255 && rounded.Val() < 0x800_0000
    requires exponent == 0 <==> rounded.Val() < 0x400_0000
    ensures r.Negative() == (sign == 0x8000)
    ensures r.Pattern() == rounded.Val() / 8 + if exponent == 0 then 0 else (exponent - 1) * 0x80_0000
  {
    hide *;
    Assembled(sign, exponent, rounded);
    Float(U16(Or(rounded.low / 8, rounded.high * 0x2000)),
          U16(Or(Or(sign, exponent * 0x80), And(rounded.high / 8, 0x7f))))
  }

  lemma Assembled(sign: u16, exponent: nat, rounded: Words)
    requires sign == 0 || sign == 0x8000
    requires exponent < 255 && rounded.Val() < 0x800_0000
    requires exponent == 0 <==> rounded.Val() < 0x400_0000
    ensures var r := Float(U16(Or(rounded.low / 8, rounded.high * 0x2000)),
                           U16(Or(Or(sign, exponent * 0x80), And(rounded.high / 8, 0x7f))));
            && r.Negative() == (sign == 0x8000)
            && r.Pattern() == rounded.Val() / 8 + if exponent == 0 then 0 else (exponent - 1) * 0x80_0000
  {
    hide *;
    And7f(rounded.high / 8);
    AssembleHigh(sign, exponent, And(rounded.high / 8, 0x7f));
    AssembleLow(rounded);
    AssembleValue(sign, exponent, rounded.Val() / 8);
    EighthRange(rounded);
  }

  lemma EighthRange(rounded: Words)
    requires rounded.Val() < 0x800_0000
    ensures rounded.Val() / 8 < 0x100_0000
    ensures rounded.Val() < 0x400_0000 <==> rounded.Val() / 8 < 0x80_0000
  {
  }

  lemma AssembleValue(sign: u16, exponent: nat, w: nat)
    requires sign == 0 || sign == 0x8000
    requires exponent < 255 && w < 0x100_0000 && (exponent == 0 <==> w < 0x80_0000)
    ensures var r := Float(w % 0x1_0000, U16(sign + exponent * 0x80 + w / 0x1_0000 % 0x80));
            && r.Negative() == (sign == 0x8000)
            && r.Pattern() == w + if exponent == 0 then 0 else (exponent - 1) * 0x80_0000
  {
    var f := w / 0x1_0000 % 0x80;
    DivModUnique(sign + (exponent * 0x80 + f), 0x1_0000, 0, sign + (exponent * 0x80 + f));
    DivModUnique(sign + (exponent * 0x80 + f), 0x8000, sign / 0x8000, exponent * 0x80 + f);
    assert w / 0x1_0000 == f + if exponent == 0 then 0 else 0x80;
  }

  lemma AssembleLow(rounded: Words)
    ensures U16(Or(rounded.low / 8, rounded.high * 0x2000)) == rounded.Val() / 8 % 0x1_0000
    ensures rounded.Val() / 8 / 0x1_0000 == rounded.high / 8
  {
    hide Or, Pow2;
    Pow2Values();
    OrAbove(rounded.high, rounded.low / 8, 13, 0x2000);
    LowThreeBits(rounded);
    DivModUnique(rounded.high * 0x2000 + rounded.low / 8, 0x1_0000, rounded.high / 8, rounded.high % 8 * 0x2000 + rounded.low / 8);
  }

  lemma AssembleHigh(sign: u16, exponent: nat, fraction: nat)
    requires sign == 0 || sign == 0x8000
    requires exponent < 255 && fraction < 0x80
    ensures Or(Or(sign, exponent * 0x80), fraction) == sign + exponent * 0x80 + fraction
  {
    hide *;
    Pow2Values();
    OrAbove(sign / 0x8000, exponent * 0x80, 15, 0x8000);
    OrAbove(sign / 0x8000 * 0x100 + exponent, fraction, 7, 0x80);
  }

  // ----- scaling by powers of two, with the products kept symbolic -----

  function Times(a: nat, b: nat): (r: nat) {
    Nonnegative(a, b);
    a * b
  }

  function Shl(a: nat, k: nat): nat {
    Times(a, Pow2(k))
  }

  lemma ShlShl(a: nat, m: nat, n: nat)
    ensures Shl(Shl(a, m), n) == Shl(a, m + n)
  {
    Pow2Add(m, n);
    MulAssoc(a, Pow2(m), Pow2(n));
  }

  lemma TimesMeaning(k: nat, l: nat)
    ensures Times(k, l) == k * l
  {
  }

  lemma ShlOne(k: nat)
    ensures Shl(1, k) == Pow2(k)
  {
  }

  lemma TimesShlOne(a: nat, k: nat)
    ensures Times(a, Shl(1, k)) == Shl(a, k)
  {
  }

  lemma ShlMeaning(a: nat, k: nat)
    ensures Shl(a, k) == a * Pow2(k)
  {
  }

  lemma TimesUnit(a: nat)
    ensures Times(a, 1) == a
  {
  }

  lemma ShlZero(a: nat)
    ensures Shl(a, 0) == a
  {
  }

  lemma ShlCancel(a: nat, b: nat, k: nat)
    requires Shl(a, k) == Shl(b, k)
    ensures a == b
  {
    ProductOrder(a, b, Pow2(k));
  }

  lemma ShlTimes(a: nat, b: nat, k: nat)
    ensures Times(Shl(a, k), b) == Shl(Times(a, b), k) == Times(a, Shl(b, k))
  {
    Swap(a, b, Pow2(k));
    MulAssoc(a, b, Pow2(k));
  }

  lemma Swap(r: int, d: int, p: int)
    ensures r * d * p == r * p * d
  {
  }

  /** What normalising does to the magnitude of a finite operand. */
  lemma NormalizedMagnitude(magnitude: nat, significand: nat, normal: nat, start: int, exponent: int)
    requires -126 <= start && exponent <= start
    requires magnitude == significand * Pow2(start + 126)
    requires normal == significand * Pow2(start - exponent)
    ensures Shl(magnitude, start - exponent) == Shl(normal, start + 126)
  {
    Swap(significand, Pow2(start + 126), Pow2(start - exponent));
  }

  /** The fraction of units that pack_float rounds, as shifts of the numerator and denominator. */
  lemma ScaledShifts(exponent: int, num: nat, den: nat)
    requires den > 0
    ensures ScaledNum(exponent, num) == Shl(num, if exponent >= 1 then exponent - 1 else 0)
    ensures ScaledDen(exponent, den) == Shl(den, 3 + if exponent >= 1 then 0 else 1 - exponent)
  {
    var down := if exponent >= 1 then 0 else 1 - exponent;
    Pow2Values();
    Pow2Add(3, down);
    MulAssoc(den, 8, Pow2(down));
    MulAssoc(8, den, Pow2(down));
  }

  lemma RoundedSameTimes(r: Float, negative: bool, num: nat, den: nat, num': nat, den': nat)
    requires den > 0 && den' > 0 && Times(num, den') == Times(num', den)
    requires RoundedTo(r, negative, num, den)
    ensures RoundedTo(r, negative, num', den')
  {
    RoundedSameRatio(r, negative, num, den, num', den');
  }
}
