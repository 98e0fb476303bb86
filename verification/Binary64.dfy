/** Binary64 numbers as four 16-bit words (riscc_double_shape of libm/internal.h). */
module Binary64 {
  import opened Bits
  import opened Rounding

  /** Weight of the exponent field. */
  const HIDDEN64: nat := 0x10_0000_0000_0000
  const INFINITY64: nat := 0x7ff0_0000_0000_0000

  datatype Double = Double(word0: u16, word1: u16, word2: u16, word3: u16) {
    predicate Negative() { word3 >= 0x8000 }

    /** Exponent and fraction fields, without the sign. */
    function Pattern(): nat {
      word3 % 0x8000 * 0x1_0000_0000_0000 + Low()
    }

    /** The three words below the one that holds the exponent. */
    function Low(): (n: nat)
      ensures n < 0x1_0000_0000_0000
    {
      word2 * 0x1_0000_0000 + word1 * 0x1_0000 + word0
    }

    predicate IsNaN() { word3 % 0x8000 > 0x7ff0 || (word3 % 0x8000 == 0x7ff0 && Low() > 0) }

    predicate IsQuietNaN() { IsNaN() && word3 / 8 % 2 == 1 }

    predicate IsInfinite() { word3 % 0x8000 == 0x7ff0 && Low() == 0 }

    predicate IsFinite() { word3 % 0x8000 < 0x7ff0 }

    predicate IsZero() { word3 % 0x8000 == 0 && Low() == 0 }

    /** Magnitude in units of 2^-1074. */
    function Magnitude(): nat { Mag(HIDDEN64, Pattern()) }
  }

  /** The classes are ranges of patterns, as for binary32. */
  lemma Classes64(value: Double)
    ensures value.IsNaN() <==> value.Pattern() > INFINITY64
    ensures value.IsInfinite() <==> value.Pattern() == INFINITY64
    ensures value.IsFinite() <==> value.Pattern() < INFINITY64
    ensures value.IsZero() <==> value.Pattern() == 0
  {
  }

  /** (word[3] >> 4) & 0x7ff */
  function Exponent64(value: Double): (e: u16)
    ensures e == value.word3 % 0x8000 / 16 && e <= 0x7ff
  {
    hide And, Pow2;
    Pow2Values();
    AndMask(value.word3 / 16, 0x7ff, 11);
    FieldWidth(value.word3);
    And(value.word3 / 16, 0x7ff)
  }

  lemma FieldWidth(w: u16)
    ensures w / 16 % 0x800 == w % 0x8000 / 16
  {
  }

  function FractionHigh(value: Double): (f: u16)
    ensures f == value.word3 % 16
  {
    hide And;
    Pow2Values();
    AndMask(value.word3, 0xf, 4);
    And(value.word3, 0xf)
  }

  /** Fraction bits. */
  function Fraction(value: Double): nat {
    value.word3 % 16 * 0x1_0000_0000_0000 + value.Low()
  }

  /** How the fields make up the pattern and classify it. */
  lemma Fields64(value: Double)
    ensures value.Pattern() == Exponent64(value) * 0x10_0000_0000_0000 + Fraction(value)
    ensures Fraction(value) < 0x10_0000_0000_0000
    ensures Exponent64(value) == 0x7ff && Fraction(value) != 0 <==> value.IsNaN()
    ensures Exponent64(value) == 0x7ff && Fraction(value) == 0 <==> value.IsInfinite()
    ensures Exponent64(value) == 0 && Fraction(value) == 0 <==> value.IsZero()
  {
    var e := value.word3 % 0x8000 / 16;
    DivModUnique(value.word3 % 0x8000, 16, e, value.word3 % 16);
  }

  /** The fraction with its hidden bit, and the exponent field, give the magnitude. */
  lemma FieldMagnitude(value: Double)
    ensures var e, f := Exponent64(value), Fraction(value);
            value.Magnitude() == (if e == 0 then f else 0x10_0000_0000_0000 + f) * Pow2(if e == 0 then 0 else e - 1)
  {
    hide Pow2, Mag, Exponent64;
    Fields64(value);
    var e, f := Exponent64(value), Fraction(value);
    if e == 0 {
      MagOf(HIDDEN64, 0, f);
      PatternZero(HIDDEN64, f);
    } else {
      MagOf(HIDDEN64, e - 1, HIDDEN64 + f);
    }
  }

  lemma ZeroMagnitude64(value: Double)
    ensures value.IsZero() <==> value.Magnitude() == 0
  {
    Classes64(value);
    MagOrder(HIDDEN64, 0, value.Pattern());
  }

  /** word[3] |= 0x0008 */
  function QuietNaN64(value: Double): (r: Double)
    requires value.IsNaN()
    ensures r.IsQuietNaN()
    ensures r == if value.IsQuietNaN() then value else value.(word3 := value.word3 + 8)
  {
    hide Or;
    QuietBit64(value.word3);
    value.(word3 := Or(value.word3, 8))
  }

  lemma QuietBit64(w: u16)
    ensures Or(w, 8) == if w / 8 % 2 == 1 then w else w + 8
    ensures w / 8 % 2 == 0 ==> w + 8 < 0x1_0000 && (w + 8) / 8 % 2 == 1
    ensures w / 8 % 2 == 0 ==> (w + 8) % 0x8000 == w % 0x8000 + 8
  {
    hide *;
    Pow2Values();
    OrBit(w, 3);
    ShrIs(w, 3);
    if w / 8 % 2 == 0 { QuietBitRoom(w); }
  }

  lemma QuietBitRoom(w: u16)
    requires w / 8 % 2 == 0
    ensures w + 8 < 0x1_0000 && (w + 8) / 8 % 2 == 1 && (w + 8) % 0x8000 == w % 0x8000 + 8
  {
    hide *;
    var h, r := w / 16, w % 16;
    var up := if r < 8 then 0 else 1;
    DivModUnique(w, 8, 2 * h + up, r - 8 * up);
    DivModUnique(2 * h + up, 2, h, up);
    DivModUnique(w + 8, 8, 2 * h + 1, r);
    DivModUnique(2 * h + 1, 2, h, 1);
    var b, g := h / 0x800, h % 0x800;
    DivModUnique(w, 0x8000, b, 16 * g + r);
    DivModUnique(w + 8, 0x8000, b, 16 * g + r + 8);
  }

  function QNaN64(): (r: Double)
    ensures r.IsQuietNaN()
  {
    hide Double.Low, Double.Pattern;
    DivModUnique(0x7ff8, 0x8000, 0, 0x7ff8);
    DivModUnique(0x7ff8, 8, 0xfff, 0);
    Double(0, 0, 0, 0x7ff8)
  }

  lemma ZeroPattern64(sign: u16)
    requires sign == 0 || sign == 0x8000
    ensures Double(0, 0, 0, sign).Pattern() == 0 && (Double(0, 0, 0, sign).Negative() <==> sign == 0x8000)
    ensures Double(0, 0, 0, sign).IsFinite()
  {
    hide Double.Pattern;
    HighHalf(Double(0, 0, 0, sign), 0);
  }

  lemma HighHalf(value: Double, high: nat)
    requires value.word0 == 0 && value.word1 == 0 && value.word2 == 0 && high == value.word3 % 0x8000
    ensures value.Pattern() == high as int * 0x1_0000_0000_0000
    ensures high == 0 ==> value.Pattern() == 0
  {
  }
}
