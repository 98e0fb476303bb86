/** Binary32 numbers as bit patterns: the field extractors and constructors of
internal.h, and the meaning of a pattern. */
module Binary32 {
  import opened Bits
  import opened Limbs
  import opened Rounding

  /** Weight of the exponent field: one more than the largest fraction. */
  const HIDDEN: nat := 0x80_0000
  /** Magnitude pattern of infinity.  Larger magnitude patterns are NaNs. */
  const INFINITY: nat := 0x7f80_0000

  /** float_shape: the two 16-bit halves of the bit pattern. */
  datatype Float = Float(word0: u16, word1: u16) {
    function Bits(): u32 { word1 * 0x1_0000 + word0 }

    predicate Negative() { word1 >= 0x8000 }

    /** Exponent and fraction fields, without the sign. */
    function Pattern(): (p: nat)
      ensures p < 0x8000_0000
    {
      word1 % 0x8000 * 0x1_0000 + word0
    }

    predicate IsNaN() { Pattern() > INFINITY }

    predicate IsQuietNaN() { IsNaN() && word1 / 0x40 % 2 == 1 }

    predicate IsInfinite() { Pattern() == INFINITY }

    predicate IsFinite() { Pattern() < INFINITY }

    predicate IsZero() { Pattern() == 0 }

    /** Magnitude in units of 2^-149. */
    function Magnitude(): nat { Mag(HIDDEN, Pattern()) }

    /** Signed value in units of 2^-149. */
    function Value(): int { if Negative() then -(Magnitude() as int) else Magnitude() }
  }

  // ----- the whole pattern -----

  function FromBits(bits: u32): (x: Float)
    ensures x.Bits() == bits
  {
    Float(bits % 0x1_0000, bits / 0x1_0000)
  }

  lemma BitsMeaning(x: Float)
    ensures x.Bits() == x.Pattern() + if x.Negative() then 0x8000_0000 else 0
    ensures FromBits(x.Bits()) == x
  {
    var w := x.word1;
    DivModUnique(w, 0x8000, if w >= 0x8000 then 1 else 0, if w >= 0x8000 then w - 0x8000 else w);
    DivModUnique(x.Bits(), 0x1_0000, w, x.word0);
  }

  lemma FromBitsPattern(bits: u32)
    ensures FromBits(bits).Pattern() == bits % 0x8000_0000
    ensures FromBits(bits).Negative() <==> bits >= 0x8000_0000
  {
    hide *;
    var x := FromBits(bits);
    BitsMeaning(x);
    DivModUnique(bits, 0x8000_0000, if x.Negative() then 1 else 0, x.Pattern());
  }

  lemma BitsFields(x: Float)
    ensures And(x.Bits(), 0x7fff_ffff) == x.Pattern()
    ensures And(x.Bits(), 0x8000_0000) == if x.Negative() then 0x8000_0000 else 0
    ensures FromBits(x.Bits()) == x
  {
    hide And, Float.Pattern, FromBits, Pow2;
    Pow2Of31();
    AndMask(x.Bits(), 0x7fff_ffff, 31);
    AndBit(x.Bits(), 31);
    FromBitsPattern(x.Bits());
    BitsMeaning(x);
  }

  lemma HiddenValue()
    ensures HIDDEN == 0x80_0000
  {
  }

  /** r is num/den (in units of 2^-149) rounded once: as if the exponent range were
  unbounded, to nearest, ties to even; what is then too large is infinite. */
  ghost predicate RoundedTo(r: Float, negative: bool, num: nat, den: nat) {
    && r.Negative() == negative
    && exists p: nat :: NearestEven(HIDDEN, p, num, den) && r.Pattern() == Min(p, INFINITY)
  }

  /** Rounding determines the result: there is one correctly rounded float. */
  lemma RoundedUnique(r: Float, r': Float, negative: bool, num: nat, den: nat)
    requires den > 0 && RoundedTo(r, negative, num, den) && RoundedTo(r', negative, num, den)
    ensures r == r'
  {
    hide NearestEven;
    var p: nat :| NearestEven(HIDDEN, p, num, den) && r.Pattern() == Min(p, INFINITY);
    var q: nat :| NearestEven(HIDDEN, q, num, den) && r'.Pattern() == Min(q, INFINITY);
    NearestUnique(HIDDEN, p, q, num, den);
  }

  lemma Witness(r: Float, negative: bool, p: nat, num: nat, den: nat)
    requires NearestEven(HIDDEN, p, num, den) && r.Negative() == negative && r.Pattern() == Min(p, INFINITY)
    ensures RoundedTo(r, negative, num, den)
  {
  }

  /** A representable value is its own rounding. */
  lemma RepresentableRounds(x: Float)
    requires x.IsFinite()
    ensures RoundedTo(x, x.Negative(), x.Magnitude(), 1)
  {
    NearestExact(HIDDEN, x.Pattern(), x.Magnitude(), 1);
  }

  lemma RoundedSameRatio(r: Float, negative: bool, num: nat, den: nat, num': nat, den': nat)
    requires den > 0 && den' > 0 && num * den' == num' * den
    requires RoundedTo(r, negative, num, den)
    ensures RoundedTo(r, negative, num', den')
  {
    hide NearestEven;
    var p: nat :| NearestEven(HIDDEN, p, num, den) && r.Pattern() == Min(p, INFINITY);
    NearestSameRatio(HIDDEN, p, num, den, num', den');
  }

  // ----- fields -----

  /** Where the fields sit in the upper half of the pattern. */
  lemma PatternHalves(word0: u16, word1: u16)
    ensures var p := word1 % 0x8000 * 0x1_0000 + word0;
            && p / 0x80_0000 == word1 / 128 % 256
            && p % 0x80_0000 == word1 % 128 * 0x1_0000 + word0
  {
  }

  function Exponent(value: Float): (e: u16)
    ensures e == value.Pattern() / 0x80_0000 && e <= 255
  {
    hide And;
    AndFf(value.word1 / 128);
    PatternHalves(value.word0, value.word1);
    And(value.word1 / 128, 0xff)
  }

  function Sign(value: Float): (s: u16)
    ensures s == if value.Negative() then 0x8000 else 0
  {
    hide And;
    AndSignBit(value.word1);
    And(value.word1, 0x8000)
  }

  function FractionIsZero(value: Float): (z: bool)
    ensures z <==> value.Pattern() % 0x80_0000 == 0
  {
    hide And, Or;
    And7f(value.word1);
    PatternHalves(value.word0, value.word1);
    OrIsZero(And(value.word1, 0x7f), value.word0);
    Or(And(value.word1, 0x7f), value.word0) == 0
  }

  function Significand(value: Float, exponent: u16): (r: Words)
    ensures r.Val() == value.Pattern() % 0x80_0000 + if exponent != 0 then 0x80_0000 else 0
  {
    hide And, Or;
    And7f(value.word1);
    PatternHalves(value.word0, value.word1);
    OrHidden(And(value.word1, 0x7f));
    Words(value.word0, if exponent != 0 then Or(And(value.word1, 0x7f), 0x80) else And(value.word1, 0x7f))
  }

  /** The significand and the exponent field give the magnitude. */
  lemma SignificandMagnitude(value: Float, e: u16)
    requires e == value.Pattern() / 0x80_0000
    ensures value.Magnitude() == Significand(value, e).Val() * Pow2(if e == 0 then 0 else e - 1)
  {
  }

  lemma ClassifyByFields(x: Float)
    ensures x.Pattern() / 0x80_0000 == 255 && x.Pattern() % 0x80_0000 != 0 <==> x.IsNaN()
    ensures x.Pattern() / 0x80_0000 == 255 && x.Pattern() % 0x80_0000 == 0 <==> x.IsInfinite()
    ensures x.Pattern() / 0x80_0000 == 0 && x.Pattern() % 0x80_0000 == 0 <==> x.IsZero()
  {
  }

  lemma ZeroMagnitude(x: Float)
    ensures x.Magnitude() == 0 <==> x.IsZero()
  {
    MagOrder(HIDDEN, 0, x.Pattern());
  }

  /** Ranges of the fields of a finite number. */
  lemma FiniteFields(x: Float, e: u16)
    requires x.IsFinite() && e == Exponent(x)
    ensures e < 255 && Significand(x, e).Val() < 0x100_0000
    ensures e > 0 ==> Significand(x, e).Val() >= 0x80_0000
    ensures Significand(x, e).Val() == 0 <==> x.IsZero()
    ensures x.IsZero() <==> x.Magnitude() == 0
    ensures x.Magnitude() == Significand(x, e).Val() * Pow2(if e == 0 then 0 else e - 1)
  {
    ClassifyByFields(x);
    ZeroMagnitude(x);
    SignificandMagnitude(x, e);
  }

  function Zero(sign: u16): Float { Float(0, sign) }

  lemma XorSigns(a: Float, b: Float)
    ensures Xor(Sign(a), Sign(b)) == if a.Negative() != b.Negative() then 0x8000 else 0
  {
    XorSelf(Sign(a));
  }

  lemma {:induction false} XorSelf(x: nat)
    ensures Xor(x, x) == 0
  {
    if x > 0 { XorSelf(x / 2); }
  }

  lemma SignedZero(sign: u16)
    requires sign == 0 || sign == 0x8000
    ensures Zero(sign).Pattern() == 0 && Zero(sign).IsZero() && Zero(sign).Negative() == (sign == 0x8000)
  {
  }

  /** Zero is the rounding of an exact zero. */
  lemma ZeroRounds(sign: u16, den: nat)
    requires den > 0 && (sign == 0 || sign == 0x8000)
    ensures RoundedTo(Zero(sign), sign == 0x8000, 0, den)
  {
    hide Mag, NearestEven, Float.Pattern;
    SignedZero(sign);
    MagZero(HIDDEN);
    NearestExact(HIDDEN, 0, 0, den);
    Witness(Zero(sign), sign == 0x8000, 0, 0, den);
  }

  function Infinity(sign: u16): (r: Float)
    requires sign == 0 || sign == 0x8000
    ensures r.IsInfinite() && Sign(r) == sign
  {
    hide Or;
    OrSign(sign, 0x7f80);
    Float(0, Or(sign, 0x7f80))
  }

  function QNaN(): (r: Float)
    ensures r.IsQuietNaN()
  {
    Float(0, 0x7fc0)
  }

  /** Sets the quiet bit and keeps every other bit. */
  function QuietNaN(value: Float): (r: Float)
    requires value.IsNaN()
    ensures r.IsQuietNaN()
    ensures r == if value.IsQuietNaN() then value else value.(word1 := value.word1 + 0x40)
  {
    hide Or;
    QuietBit(value.word1);
    value.(word1 := Or(value.word1, 0x40))
  }

  lemma QuietBit(w: u16)
    ensures Or(w, 0x40) == if w / 0x40 % 2 == 1 then w else w + 0x40
    ensures w / 0x40 % 2 == 0 ==> w + 0x40 < 0x1_0000 && (w + 0x40) / 0x40 % 2 == 1
    ensures w / 0x40 % 2 == 0 ==> (w + 0x40) % 0x8000 == w % 0x8000 + 0x40
  {
    hide *;
    Pow2Values();
    OrBit(w, 6);
    ShrIs(w, 6);
    if w / 0x40 % 2 == 0 { QuietBitRoom(w); }
  }

  lemma QuietBitRoom(w: u16)
    requires w / 0x40 % 2 == 0
    ensures w + 0x40 < 0x1_0000 && (w + 0x40) / 0x40 % 2 == 1 && (w + 0x40) % 0x8000 == w % 0x8000 + 0x40
  {
    hide *;
    var h, r := w / 0x80, w % 0x80;
    var up := if r < 0x40 then 0 else 1;
    DivModUnique(w, 0x40, 2 * h + up, r - 0x40 * up);
    DivModUnique(2 * h + up, 2, h, up);
    DivModUnique(w + 0x40, 0x40, 2 * h + 1, r);
    DivModUnique(2 * h + 1, 2, h, 1);
    var b, g := h / 0x100, h % 0x100;
    DivModUnique(w, 0x8000, b, 0x80 * g + r);
    DivModUnique(w + 0x40, 0x8000, b, 0x80 * g + r + 0x40);
  }
}
