/** __mulsf3: binary32 multiplication (mulsf3.c, and the 48-bit helpers of internal.h). */
module MulSf3 {
  import opened Bits
  import opened Limbs
  import opened Rounding
  import opened Sticky
  import opened Binary32
  import opened Packing

  /** u48_words: three little-endian 16-bit limbs. */
  datatype Wide = Wide(word0: u16, word1: u16, word2: u16) {
    function Val(): (v: nat)
      ensures v < 0x1_0000_0000_0000
    {
      word2 * 0x1_0000_0000 + word1 * 0x1_0000 + word0
    }
  }

  /** Section 6 of IEEE 754-2019 for special operands, and correct rounding of the exact
  product, in units of 2^-149, for finite ones. */
  ghost predicate IsProduct(a: Float, b: Float, r: Float) {
    var negative := a.Negative() != b.Negative();
    if a.IsNaN() then r == QuietNaN(a)
    else if b.IsNaN() then r == QuietNaN(b)
    else if a.IsInfinite() || b.IsInfinite() then
      if a.IsZero() || b.IsZero() then r.IsQuietNaN() else r.IsInfinite() && r.Negative() == negative
    else
      IsRoundedProduct(a.Magnitude(), b.Magnitude(), negative, r)
  }

  ghost predicate IsRoundedProduct(a: nat, b: nat, negative: bool, r: Float) {
    RoundedTo(r, negative, Times(a, b), Pow2(149))
  }

  function WideAdd(left: Wide, right: Wide): (r: Wide)
    ensures var sum := left.Val() + right.Val();
            r.Val() == if sum < 0x1_0000_0000_0000 then sum else sum - 0x1_0000_0000_0000
  {
    hide Or, U16;
    var word0 := U16(left.word0 + right.word0);
    var carry0 := if word0 < left.word0 then 1 else 0;
    var partial := U16(left.word1 + carry0);
    var carry1 := if partial < left.word1 then 1 else 0;
    var word1 := U16(partial + right.word1);
    var carry2 := if word1 < partial then 1 else 0;
    U16Wraps(left.word0 + right.word0);
    MiddleCarry(left.word1, right.word1, carry0);
    U16Wraps(left.word2 + right.word2 + Or(carry1, carry2));
    Wide(word0, word1, U16(left.word2 + right.word2 + Or(carry1, carry2)))
  }

  lemma U16Wraps(x: int)
    requires -0x1_0000 <= x < 0x2_0000
    ensures U16(x) == if x < 0 then x + 0x1_0000 else if x < 0x1_0000 then x else x - 0x1_0000
  {
    WrapOnce(x, 0x1_0000);
  }

  /** The two half-additions of the middle limb produce at most one carry. */
  lemma MiddleCarry(x: u16, y: u16, carry0: nat)
    requires carry0 <= 1
    ensures var partial := U16(x + carry0);
            var word1 := U16(partial + y);
            var carry := Or(if partial < x then 1 else 0, if word1 < partial then 1 else 0);
            carry <= 1 && word1 + carry * 0x1_0000 == x + carry0 + y
  {
    hide *;
    U16Wraps(x + carry0);
    U16Wraps(U16(x + carry0) + y);
    OrBits(if U16(x + carry0) < x then 1 else 0, if U16(U16(x + carry0) + y) < U16(x + carry0) then 1 else 0);
  }

  function WideShiftLeftOne(value: Wide): (r: Wide)
    ensures r.Val() == if value.Val() < 0x8000_0000_0000 then 2 * value.Val() else 2 * value.Val() - 0x1_0000_0000_0000
  {
    hide *;
    ShiftedLimb(value.word2, value.word1);
    ShiftedLimb(value.word1, value.word0);
    ShiftedLimb(value.word0, 0);
    ShiftedZero(value.word0);
    DoubledLimbs(value, U16(value.word0 * 2), U16(Or(value.word1 * 2, value.word0 / 0x8000)), U16(Or(value.word2 * 2, value.word1 / 0x8000)));
    Wide(U16(value.word0 * 2),
         U16(Or(value.word1 * 2, value.word0 / 0x8000)),
         U16(Or(value.word2 * 2, value.word1 / 0x8000)))
  }

  lemma ShiftedZero(low: u16)
    ensures U16(low * 2) == U16(Or(low * 2, 0 / 0x8000))
  {
    hide Or;
    OrZero(low as int * 2);
  }

  lemma DoubledLimbs(value: Wide, r0: u16, r1: u16, r2: u16)
    requires r0 == value.word0 * 2 - if value.word0 >= 0x8000 then 0x1_0000 else 0
    requires r1 == value.word1 * 2 + (if value.word0 >= 0x8000 then 1 else 0) - if value.word1 >= 0x8000 then 0x1_0000 else 0
    requires r2 == value.word2 * 2 + (if value.word1 >= 0x8000 then 1 else 0) - if value.word2 >= 0x8000 then 0x1_0000 else 0
    ensures Wide(r0, r1, r2).Val() == if value.Val() < 0x8000_0000_0000 then 2 * value.Val() else 2 * value.Val() - 0x1_0000_0000_0000
  {
  }

  /** One limb of a left shift takes the top bit of the limb below. */
  lemma ShiftedLimb(high: u16, low: u16)
    ensures U16(Or(high * 2, low / 0x8000)) == high * 2 + (if low >= 0x8000 then 1 else 0) - if high >= 0x8000 then 0x1_0000 else 0
  {
    hide Or;
    DivModUnique(low, 0x8000, if low >= 0x8000 then 1 else 0, if low >= 0x8000 then low - 0x8000 else low);
    Joined(high, low / 0x8000, 1, 2);
    WrapOnce(high * 2 + low / 0x8000, 0x1_0000);
  }

  /** Shift-and-add multiplication: the exact product, with no carry lost. */
  method MultiplySignificands(left: Words, right: Words) returns (product: Wide)
    requires left.Val() < 0x100_0000 && right.Val() < 0x100_0000
    ensures product.Val() == left.Val() * right.Val()
  {
    hide *;
    var multiplicand := Wide(left.low, left.high, 0);
    var multiplier := right;
    product := Wide(0, 0, 0);
    ghost var i: nat := 0;
    Pow2Values();
    ProductBound(left.Val(), right.Val());
    WideWords(left);
    while !multiplier.IsZero()
      invariant i <= 24 && multiplier.Val() < Pow2(24 - i)
      invariant multiplicand.Val() == left.Val() * Pow2(i)
      invariant product.Val() + multiplicand.Val() * multiplier.Val() == left.Val() * right.Val()
      decreases multiplier.Val()
    {
      ShiftAddRange(left.Val(), i, multiplicand.Val(), multiplier.Val());
      ShiftAddStep(multiplicand.Val(), multiplier.Val(), product.Val());
      LowBit(multiplier.low);
      LowBitOfVal(multiplier);
      if And(multiplier.low, 1) != 0 {
        product := WideAdd(product, multiplicand);
      }
      multiplicand := WideShiftLeftOne(multiplicand);
      multiplier := ShiftRightOne(multiplier);
      i := i + 1;
    }
    TimesZero(multiplicand.Val());
  }

  lemma WideWords(words: Words)
    ensures Wide(words.low, words.high, 0).Val() == words.Val() && Wide(0, 0, 0).Val() == 0
  {
  }

  lemma TimesZero(m: int)
    ensures m * 0 == 0
  {
  }

  lemma ProductBound(l: nat, r: nat)
    requires l < 0x100_0000 && r < 0x100_0000
    ensures l * r < 0x1_0000_0000_0000
  {
    ProductLe(l, 0xff_ffff, r);
  }

  /** The multiplicand still fits while multiplier bits remain. */
  lemma ShiftAddRange(l: nat, i: nat, m: nat, x: nat)
    requires l < 0x100_0000 && i <= 24 && 0 < x < Pow2(24 - i) && m == l * Pow2(i)
    ensures i < 24 && 2 * m == l * Pow2(i + 1) && m < 0x8000_0000_0000 && x / 2 < Pow2(24 - (i + 1))
  {
    hide *;
    Pow2Values();
    Pow2Step(i);
    if i < 24 { Pow2Step(23 - i); }
    MulAssoc(l, 2, Pow2(i));
    Pow2Monotone(if i < 23 then i else 23, 23);
    MulLess(l, Pow2(i));
  }

  /** One bit of the multiplier moves from the pending product into the sum. */
  lemma ShiftAddStep(m: nat, x: nat, p: nat)
    requires x > 0
    ensures m <= m * x
    ensures (p + if x % 2 == 1 then m else 0) + 2 * m * (x / 2) == p + m * x
  {
    if m > 0 { MulAtLeast(m, x); }
    var h := x / 2;
    MulAssoc(m, 2, h);
    if x % 2 == 1 {
      assert x == 2 * h + 1;
      NextMultiple(m, 2 * h);
    }
  }

  lemma MulLess(l: nat, u: nat)
    requires l < 0x100_0000 && u <= 0x80_0000
    ensures l * u < 0x8000_0000_0000
  {
    ProductLe(l, 0xff_ffff, u);
  }

  function ProductToExtended(product: Wide, shift: u16): (r: Words)
    requires shift == 20 || shift == 21
    requires product.Val() < if shift == 20 then 0x8000_0000_0000 else 0x1_0000_0000_0000
    ensures r.Val() == StickyShift(product.Val(), shift)
  {
    hide *;
    var mask := if shift == 20 then 0x000f else 0x001f;
    var lowShift := if shift == 20 then 16 else 32;
    var highShift := if shift == 20 then 0x1000 else 0x800;
    ShiftedProduct(product, shift, mask, lowShift, highShift);
    var sticky := if product.word0 != 0 || And(product.word1, mask) != 0 then 1 else 0;
    var low := U16(Or(product.word1 / lowShift, product.word2 * highShift));
    var high := product.word2 / lowShift;
    OrSticky(Words(low, high), sticky, product.Val(), shift);
    Words(Or(low, sticky), high)
  }

  lemma ShiftedProduct(product: Wide, shift: nat, mask: nat, lowShift: nat, highShift: nat)
    requires (shift == 20 && mask == 15 && lowShift == 16 && highShift == 0x1000)
          || (shift == 21 && mask == 31 && lowShift == 32 && highShift == 0x800)
    ensures product.word1 / lowShift >= 0 && product.word2 * highShift >= 0
    ensures var low, high := U16(Or(product.word1 / lowShift, product.word2 * highShift)), product.word2 / lowShift;
            && high < 0x1_0000
            && high * 0x1_0000 + low == Shr(product.Val(), shift)
            && (Loses(product.Val(), shift) <==> product.word0 != 0 || And(product.word1, mask) != 0)
  {
    hide And, Or, Pow2;
    Pow2Values();
    AndMask(product.word1, mask, shift - 16);
    OrAbove(product.word2, product.word1 / lowShift, 32 - shift, highShift);
    var w := product.word1 / lowShift + product.word2 * highShift;
    var rest := product.word1 % lowShift * 0x1_0000 + product.word0;
    DivModUnique(product.Val(), lowShift * 0x1_0000, w, rest);
    DivModUnique(w, 0x1_0000, product.word2 / lowShift, product.word2 % lowShift * highShift + product.word1 / lowShift);
  }

  method MulFloats(a: Float, b: Float) returns (r: Float)
    ensures IsProduct(a, b, r)
  {
    hide RoundedTo, Mag, Pow2, Or, And, Float.Pattern, IsRoundedProduct;
    var aExponent, bExponent := Exponent(a), Exponent(b);
    var sign := Xor(Sign(a), Sign(b));
    var aSignificand, bSignificand := Significand(a, aExponent), Significand(b, bExponent);
    XorSigns(a, b);
    ClassifyByFields(a);
    ClassifyByFields(b);
    if aExponent == 255 {
      if !FractionIsZero(a) {
        return QuietNaN(a);
      }
      if bExponent == 255 && !FractionIsZero(b) {
        return QuietNaN(b);
      }
      if bSignificand.IsZero() {
        return QNaN();
      }
      return Infinity(sign);
    }
    if bExponent == 255 {
      if !FractionIsZero(b) {
        return QuietNaN(b);
      }
      if aSignificand.IsZero() {
        return QNaN();
      }
      return Infinity(sign);
    }
    r := MulFinite(a, aExponent, b, bExponent, sign);
  }

  /** __mulsf3 once neither operand is infinite or a NaN. */
  method MulFinite(a: Float, aField: u16, b: Float, bField: u16, sign: u16) returns (r: Float)
    requires a.IsFinite() && b.IsFinite() && aField == Exponent(a) && bField == Exponent(b)
    requires sign == if a.Negative() != b.Negative() then 0x8000 else 0
    ensures IsRoundedProduct(a.Magnitude(), b.Magnitude(), a.Negative() != b.Negative(), r)
  {
    hide *;
    var aSignificand, bSignificand := Significand(a, aField), Significand(b, bField);
    FiniteFields(a, aField);
    FiniteFields(b, bField);
    if aSignificand.IsZero() || bSignificand.IsZero() {
      ZeroProduct(a.Magnitude(), b.Magnitude(), sign);
      return Zero(sign);
    }
    var aStart := if aField != 0 then aField - 127 else -126;
    var bStart := if bField != 0 then bField - 127 else -126;
    var exponent, bUnbiased;
    aSignificand, exponent := NormalizeSignificand(aSignificand, aStart);
    bSignificand, bUnbiased := NormalizeSignificand(bSignificand, bStart);
    ghost var aUnbiased := exponent;
    exponent := exponent + bUnbiased + 127;

    var product := MultiplySignificands(aSignificand, bSignificand);
    ghost var P := product.Val();
    NormalProduct(aSignificand.Val(), bSignificand.Val());
    ProductTop(product);
    var shift: u16 := 20;
    if And(product.word2, 0x8000) != 0 {
      shift := 21;
      exponent := exponent + 1;
    }
    var extended := ProductToExtended(product, shift);
    ProductStands(P, shift);
    r := PackFloat(sign, exponent, extended, P, Pow2(shift));
    NormalizedMagnitude(a.Magnitude(), Significand(a, aField).Val(), aSignificand.Val(), aStart, aUnbiased);
    NormalizedMagnitude(b.Magnitude(), Significand(b, bField).Val(), bSignificand.Val(), bStart, bUnbiased);
    RoundedProduct(r, sign == 0x8000, exponent, P, shift, a.Magnitude(), aSignificand.Val(), aStart - aUnbiased, aStart + 126,
                   b.Magnitude(), bSignificand.Val(), bStart - bUnbiased, bStart + 126);
  }

  lemma ZeroProduct(a: nat, b: nat, sign: u16)
    requires (a == 0 || b == 0) && (sign == 0 || sign == 0x8000)
    ensures IsRoundedProduct(a, b, sign == 0x8000, Zero(sign))
  {
    hide RoundedTo, Pow2;
    ZeroRounds(sign, Pow2(149));
    assert Times(a, b) == 0;
  }

  /** The product of two normalised significands has 47 or 48 bits. */
  lemma NormalProduct(l: nat, r: nat)
    requires 0x80_0000 <= l < 0x100_0000 && 0x80_0000 <= r < 0x100_0000
    ensures 0x4000_0000_0000 <= l * r < 0x1_0000_0000_0000
  {
    ProductLe(l, 0xff_ffff, r);
    ProductLe(0x80_0000, l, r);
  }

  lemma ProductTop(product: Wide)
    ensures And(product.word2, 0x8000) != 0 <==> product.Val() >= 0x8000_0000_0000
  {
    AndSignBit(product.word2);
  }

  lemma ProductStands(P: nat, shift: nat)
    requires (shift == 20 && 0x4000_0000_0000 <= P < 0x8000_0000_0000) || (shift == 21 && 0x8000_0000_0000 <= P < 0x1_0000_0000_0000)
    ensures 0x400_0000 <= StickyShift(P, shift) < 0x800_0000
    ensures Stands(StickyShift(P, shift), 2, P, Pow2(shift)) && Stands(StickyShift(P, shift), 4, P, Pow2(shift))
  {
    hide Stands;
    StickyProductRange(P, shift);
    StandsExact(P);
    StandsShifted(P, shift, P, 1);
    StandsCoarser(StickyShift(P, shift), P, Pow2(shift));
  }

  lemma StickyProductRange(P: nat, shift: nat)
    requires (shift == 20 && 0x4000_0000_0000 <= P < 0x8000_0000_0000) || (shift == 21 && 0x8000_0000_0000 <= P < 0x1_0000_0000_0000)
    ensures 0x400_0000 <= StickyShift(P, shift) < 0x800_0000
  {
    Pow2Values();
    var d := if shift == 20 then 0x10_0000 else 0x20_0000;
    var q := P / d;
    assert Shr(P, shift) == q;
  }

  /** pack_float's promise, restated: with a = k * 2^(pa-da) and b = l * 2^(pb-db), the
  product k*l of the normalised significands rounds to a*b. */
  lemma RoundedProduct(r: Float, negative: bool, exponent: int, P: nat, shift: nat,
                       a: nat, k: nat, da: nat, pa: nat, b: nat, l: nat, db: nat, pb: nat)
    requires P == k * l && Shl(a, da) == Shl(k, pa) && Shl(b, db) == Shl(l, pb)
    requires RoundedTo(r, negative, ScaledNum(exponent, P), ScaledDen(exponent, Pow2(shift)))
    requires exponent + 145 + da + db == pa + pb + shift
    ensures IsRoundedProduct(a, b, negative, r)
  {
    hide *;
    var up, down := if exponent >= 1 then exponent - 1 else 0, 3 + if exponent >= 1 then 0 else 1 - exponent;
    ScaledShifts(exponent, P, Pow2(shift));
    TimesMeaning(k, l);
    ShlOne(shift);
    ShlOne(149);
    ShlShl(1, shift, down);
    ProductShifts(a, k, da, pa, b, l, db, pb);
    CrossShifts(Times(a, b), P, da + db, pa + pb, up, shift + down, 149);
    RoundedSameTimes(r, negative, Shl(P, up), Shl(1, shift + down), Times(a, b), Shl(1, 149));
    ProductRounded(a, b, negative, r);
  }

  lemma ProductRounded(a: nat, b: nat, negative: bool, r: Float)
    requires RoundedTo(r, negative, Times(a, b), Pow2(149))
    ensures IsRoundedProduct(a, b, negative, r)
  {
  }

  lemma ProductShifts(a: nat, k: nat, da: nat, pa: nat, b: nat, l: nat, db: nat, pb: nat)
    requires Shl(a, da) == Shl(k, pa) && Shl(b, db) == Shl(l, pb)
    ensures Shl(Times(a, b), da + db) == Shl(Times(k, l), pa + pb)
  {
    hide Times, Shl;
    ShlTimes(a, b, da);
    ShlTimes(Shl(a, da), b, db);
    ShlShl(Times(a, b), da, db);
    ShlTimes(k, l, pa);
    ShlTimes(Shl(k, pa), l, pb);
    ShlShl(Times(k, l), pa, pb);
  }

  /** If M * 2^D == P * 2^Q, then P * 2^x over 2^y is M over 2^z. */
  lemma CrossShifts(M: nat, P: nat, D: nat, Q: nat, x: nat, y: nat, z: nat)
    requires Shl(M, D) == Shl(P, Q) && x + z + D == Q + y
    ensures Times(Shl(P, x), Shl(1, z)) == Times(M, Shl(1, y))
  {
    hide Times, Shl;
    TimesShlOne(Shl(P, x), z);
    TimesShlOne(M, y);
    ShlShl(P, x, z);
    ShlShl(P, x + z, D);
    ShlShl(M, y, D);
    ShlShl(M, D, y);
    ShlShl(P, Q, y);
    ShlCancel(Shl(P, x + z), Shl(M, y), D);
  }

}
