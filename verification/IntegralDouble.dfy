/** trunc, floor, ceil and round on doubles, spread over 16-bit words (bits.c). */
module IntegralDouble {
  import opened Bits
  import opened Rounding
  import opened Packing
  import opened Binary64
  import opened IntegralRounding

  // ----- what is promised -----

  ghost function Unit(): (u: nat)
    ensures u > 0
  {
    One(52, 1023)
  }

  /** The integer part. */
  ghost predicate IsTrunc(x: Double, r: Double) {
    if !x.IsFinite() then r == x
    else r.IsFinite() && r.Negative() == x.Negative() && IsIntegerPart(x.Magnitude(), r.Magnitude(), Unit())
  }

  /** The greatest integer not above x; the sign is that of x even where the result is zero. */
  ghost predicate IsFloor(x: Double, r: Double) {
    if !x.IsFinite() then r == x
    else r.IsFinite() && r.Negative() == x.Negative() && IsGreatestBelow(x.Negative(), x.Magnitude(), r.Magnitude(), Unit())
  }

  /** The least integer not below x. */
  ghost predicate IsCeil(x: Double, r: Double) {
    if !x.IsFinite() then r == x
    else r.IsFinite() && r.Negative() == x.Negative() && IsLeastAbove(x.Negative(), x.Magnitude(), r.Magnitude(), Unit())
  }

  /** The nearest integer, halfway cases away from zero. */
  ghost predicate IsRound(x: Double, r: Double) {
    if !x.IsFinite() then r == x
    else r.IsFinite() && r.Negative() == x.Negative() && IsNearestInteger(x.Magnitude(), r.Magnitude(), Unit())
  }

  // ----- words -----

  function ShapeOf(s: seq<u16>): Double
    requires |s| == 4
  {
    Double(s[0], s[1], s[2], s[3])
  }

  /** The exponent field of a pattern. */
  function FieldOf(p: nat): (e: nat)
    ensures e == p / Pow2(52)
  {
    Pow2Values();
    DivNonnegative(p, 0x10_0000_0000_0000);
    p / 0x10_0000_0000_0000
  }

  lemma ExponentField(x: Double)
    ensures Exponent64(x) == FieldOf(x.Pattern()) <= 0x7ff
    ensures x.IsFinite() <==> Exponent64(x) < 0x7ff
  {
    hide Exponent64, Double.Pattern;
    Fields64(x);
    DivModUnique(x.Pattern(), 0x10_0000_0000_0000, Exponent64(x), Fraction(x));
    Classes64(x);
  }

  function Weight(i: nat): nat
    requires i <= 3
  {
    if i == 0 then 1 else if i == 1 then 0x1_0000 else if i == 2 then 0x1_0000_0000 else 0x1_0000_0000_0000
  }

  function Num(s: seq<u16>): nat
    requires |s| == 4
  {
    s[0] as int + s[1] as int * 0x1_0000 + s[2] as int * 0x1_0000_0000 + s[3] as int * 0x1_0000_0000_0000
  }

  lemma NumPattern(s: seq<u16>)
    requires |s| == 4
    ensures Num(s) == ShapeOf(s).Pattern() + if ShapeOf(s).Negative() then 0x8000_0000_0000_0000 else 0
    ensures ShapeOf(s).Pattern() < 0x8000_0000_0000_0000
  {
    assert s[3] as int == s[3] % 0x8000 + if s[3] >= 0x8000 then 0x8000 else 0;
  }

  lemma WeightPower(i: nat)
    requires i <= 3
    ensures Weight(i) == Pow2(16 * i)
  {
    Pow2Values();
    Pow2Add(32, 16);
  }

  lemma NumUpdate(s: seq<u16>, i: nat, v: u16)
    requires |s| == 4 && i < 4
    ensures Num(s[i := v]) == Num(s) + (v - s[i]) * Weight(i)
  {
  }

  // ----- clearing low bits -----

  /** w & (0xffff << k) keeps the high bits; w & ~(0xffff << k) tests the low ones. */
  lemma HighBits(w: u16, k: nat)
    requires 1 <= k <= 16
    ensures var mask := if k == 16 then 0 else U16(0xffff * Pow2(k));
            And(w, mask) == w - w % Pow2(k) && And(w, 0xffff - mask) == w % Pow2(k)
  {
    hide And;
    Pow2Values();
    if k == 16 {
      AndZero(w);
      AndMask(w, 0xffff, 16);
    } else {
      var d, m := Pow2(k), Pow2(16 - k);
      Pow2Add(k, 16 - k);
      MaskValue(d, m);
      AndHighMask(w, d * (m - 1), m - 1, k);
      AndMask(Shr(w, k), m - 1, 16 - k);
      DivModSplit(w, d, m);
      DivModBasic(w, d);
      DivModUnique(w, 0x1_0000, 0, w);
      AndMask(w, d - 1, k);
    }
  }

  lemma MaskValue(d: nat, m: nat)
    requires d >= 1 && m >= 1 && d * m == 0x1_0000
    ensures U16(0xffff * d) == d * (m - 1) == 0x1_0000 - d && 0 <= d * (m - 1)
  {
    assert d * (m - 1) == 0x1_0000 - d;
    DivModUnique(0xffff * d, 0x1_0000, d - 1, 0x1_0000 - d);
  }

  /** Clearing k bits of one word and all the words below it. */
  ghost predicate Cleared(s: seq<u16>, t: seq<u16>, i: nat, k: nat) {
    && |s| == |t| == 4 && i <= 3 && 1 <= k <= 16 && (i == 3 ==> k <= 4)
    && (forall j :: 0 <= j < i ==> t[j] == 0)
    && t[i] == s[i] - s[i] % Pow2(k)
    && (forall j :: i < j < 4 ==> t[j] == s[j])
  }

  /** Some bit that is cleared was set. */
  ghost predicate Dropped(s: seq<u16>, i: nat, k: nat)
    requires |s| == 4 && i <= 3
  {
    s[i] % Pow2(k) != 0 || exists j :: 0 <= j < i && s[j] != 0
  }

  lemma ClearedWords(s: seq<u16>, t: seq<u16>, i: nat, k: nat)
    requires Cleared(s, t, i, k)
    ensures ShapeOf(t).Negative() == ShapeOf(s).Negative()
    ensures ShapeOf(t).Pattern() == ClearLow(ShapeOf(s).Pattern(), 16 * i + k)
    ensures ShapeOf(s).Pattern() % Pow2(16 * i + k) != 0 <==> Dropped(s, i, k)
  {
    hide *;
    ClearedParts(s, t, i, k);
    WeightPower(i);
    Pow2Add(16 * i, k);
    assert Pow2(16) == 0x1_0000 by { Pow2Values(); }
    Pow2Add(k, 16 - k);
    PatternParts(s, i);
    PatternParts(t, i);
    ClearArithmetic(Lower(s, i), Weight(i), Digit(s, i), Upper(s, i), Pow2(k), Pow2(16 - k), ShapeOf(s).Pattern());
    ClearIs(ShapeOf(s).Pattern(), 16 * i + k);
  }

  lemma ClearIs(p: nat, k: nat)
    ensures ClearLow(p, k) == p - p % Pow2(k)
  {
  }

  /** Word i, without the sign. */
  function Digit(s: seq<u16>, i: nat): nat
    requires |s| == 4 && i <= 3
  {
    if i == 3 then s[3] % 0x8000 else s[i]
  }

  lemma PatternParts(s: seq<u16>, i: nat)
    requires |s| == 4 && i <= 3
    ensures ShapeOf(s).Pattern() == Lower(s, i) + Weight(i) * (Digit(s, i) + 0x1_0000 * Upper(s, i))
    ensures Lower(s, i) < Weight(i)
    ensures Lower(s, i) == 0 <==> forall j :: 0 <= j < i ==> s[j] == 0
  {
  }

  lemma ClearedParts(s: seq<u16>, t: seq<u16>, i: nat, k: nat)
    requires Cleared(s, t, i, k)
    ensures |s| == |t| == 4 && i <= 3 && 1 <= k <= 16
    ensures ShapeOf(t).Negative() == ShapeOf(s).Negative()
    ensures Lower(t, i) == 0 && Upper(t, i) == Upper(s, i) && Digit(t, i) == Digit(s, i) - Digit(s, i) % Pow2(k)
    ensures Dropped(s, i, k) <==> Digit(s, i) % Pow2(k) != 0 || Lower(s, i) != 0
  {
    hide *;
    ClearedMeans(s, t, i, k);
    TopWord(s[3], k);
    DigitIs(s, i);
    DigitIs(t, i);
    SignIs(s);
    SignIs(t);
    SameUpper(s, t, i);
    PatternParts(t, i);
    DroppedIs(s, i, k);
  }

  lemma ClearedMeans(s: seq<u16>, t: seq<u16>, i: nat, k: nat)
    requires Cleared(s, t, i, k)
    ensures |s| == |t| == 4 && i <= 3 && 1 <= k <= 16 && (i == 3 ==> k <= 4)
    ensures (forall j :: 0 <= j < i ==> t[j] == 0) && t[i] == s[i] - s[i] % Pow2(k) && (forall j :: i < j < 4 ==> t[j] == s[j])
  {
    hide Pow2;
  }

  lemma DigitIs(s: seq<u16>, i: nat)
    requires |s| == 4 && i <= 3
    ensures Digit(s, i) == if i == 3 then s[3] % 0x8000 else s[i]
  {
  }

  lemma SignIs(s: seq<u16>)
    requires |s| == 4
    ensures ShapeOf(s).Negative() <==> s[3] >= 0x8000
  {
  }

  lemma SameUpper(s: seq<u16>, t: seq<u16>, i: nat)
    requires |s| == |t| == 4 && i <= 3 && forall j :: i < j < 4 ==> t[j] == s[j]
    ensures Upper(t, i) == Upper(s, i)
  {
  }

  lemma DroppedIs(s: seq<u16>, i: nat, k: nat)
    requires |s| == 4 && i <= 3 && 1 <= k <= 16 && (i == 3 ==> k <= 4)
    ensures Dropped(s, i, k) <==> Digit(s, i) % Pow2(k) != 0 || Lower(s, i) != 0
  {
    hide Pow2, Lower, Upper, Double.Pattern;
    PatternParts(s, i);
    TopWord(s[3], k);
  }

  /** The value of the words below word i, and of the words above it without the sign. */
  function Lower(s: seq<u16>, i: nat): nat
    requires |s| == 4 && i <= 3
  {
    (if i > 0 then s[0] as int else 0) + (if i > 1 then s[1] as int * 0x1_0000 else 0) + (if i > 2 then s[2] as int * 0x1_0000_0000 else 0)
  }

  function Upper(s: seq<u16>, i: nat): nat
    requires |s| == 4 && i <= 3
  {
    var top: int := s[3] % 0x8000;
    if i == 0 then s[1] as int + s[2] as int * 0x1_0000 + top * 0x1_0000_0000
    else if i == 1 then s[2] as int + top * 0x1_0000
    else if i == 2 then top
    else 0
  }

  lemma TopWord(w: u16, k: nat)
    requires 1 <= k <= 16
    ensures k <= 4 ==>
              && w % 0x8000 % Pow2(k) == w % Pow2(k) && (w - w % Pow2(k)) % 0x8000 == w % 0x8000 - w % Pow2(k)
              && (w - w % Pow2(k) >= 0x8000 <==> w >= 0x8000)
    ensures 0 <= w % Pow2(k) <= w
  {
    hide Pow2;
    ClearNonnegative(w, k);
    if k <= 4 {
      Pow2Values();
      MultipleBelow(w, Pow2(k), if k == 1 then 0x4000 else if k == 2 then 0x2000 else if k == 3 then 0x1000 else 0x800);
    }
  }

  lemma MultipleBelow(w: u16, d: nat, n: nat)
    requires d > 0 && d * n == 0x8000
    ensures w % 0x8000 % d == w % d && (w - w % d) % 0x8000 == w % 0x8000 - w % d && (w - w % d >= 0x8000 <==> w >= 0x8000)
  {
    var b, x := w / 0x8000, w % 0x8000;
    DivModBasic(x, d);
    Nonnegative(d, x / d);
    assert b == 0 || b == 1;
    assert d * (n * b + x / d) == d * n * b + d * (x / d);
    DivModUnique(w, d, n * b + x / d, x % d);
    DivModUnique(w - x % d, 0x8000, b, x - x % d);
  }

  lemma ClearArithmetic(lower: nat, W: nat, a: nat, U: nat, d: nat, m: nat, P: nat)
    requires P == lower + W * (a + 0x1_0000 * U) && lower < W && d > 0 && d * m == 0x1_0000
    ensures W * d > 0 && P % (W * d) == lower + W * (a % d) && 0 <= W * (a % d)
    ensures P - P % (W * d) == W * (a - a % d + 0x1_0000 * U)
    ensures P % (W * d) == 0 <==> lower == 0 && a % d == 0
  {
    MulAtLeast(W, d);
    DivModBasic(a, d);
    var q, r := a / d, a % d;
    Nonnegative(W, r);
    ProductLe(r + 1, d, W);
    Factored(W, d, m, q, r, U);
    assert W * (r + 1) == W * r + W;
    DivModUnique(P, W * d, q + m * U, lower + W * r);
    if r > 0 { MulAtLeast(W, r); }
  }

  lemma Factored(W: int, d: int, m: int, q: int, r: int, U: int)
    requires d * m == 0x1_0000
    ensures W * (d * q + r + 0x1_0000 * U) == (W * d) * (q + m * U) + W * r
    ensures W * (d * q + r + 0x1_0000 * U) - W * r == W * (d * q + 0x1_0000 * U)
  {
    assert 0x1_0000 * U == d * (m * U) by { MulAssoc(d, m, U); }
    assert d * q + d * (m * U) == d * (q + m * U);
    MulAssoc(W, d, q + m * U);
    assert W * (d * (q + m * U) + r) == W * (d * (q + m * U)) + W * r;
  }

  // ----- truncate_double and increment_double -----

  /** What truncating does to a shape, by the size of its exponent field. */
  ghost predicate Truncated(x: Double, r: Double, changed: bool) {
    var p, e := x.Pattern(), FieldOf(x.Pattern());
    && r.Negative() == x.Negative()
    && (e >= 1023 + 52 ==> r == x && !changed)
    && (e < 1023 ==> r.Pattern() == 0 && (changed <==> p != 0))
    && (1023 <= e < 1023 + 52 ==>
         && r.Pattern() == ClearLow(p, PointShift(52, 1023, e))
         && (changed <==> p % Pow2(PointShift(52, 1023, e)) != 0))
  }

  method TruncateDouble(word: array<u16>) returns (changed: bool)
    requires word.Length == 4
    modifies word
    ensures Truncated(old(ShapeOf(word[..])), ShapeOf(word[..]), changed)
  {
    hide *;
    ghost var s := word[..];
    var exponent := Exponent64(ShapeOf(word[..]));
    ExponentField(ShapeOf(s));
    var remaining := exponent as int - 1023;
    if exponent == 0x7ff {
      Whole(s);
      return false;
    }
    if remaining < 0 {
      SmallWords(s);
      changed := And(word[3], 0x7fff) != 0 || word[2] != 0 || word[1] != 0 || word[0] != 0;
      word[0], word[1], word[2], word[3] := 0, 0, 0, And(word[3], 0x8000);
      assert word[..] == [0, 0, 0, And(s[3], 0x8000)];
      return;
    }
    if remaining >= 52 {
      Whole(s);
      return false;
    }
    if remaining < 4 {
      changed := ClearNibble(word, remaining);
      FinishClear(s, word[..], 3, 4 - remaining, changed, exponent);
      return;
    }
    changed := ClearFraction(word, remaining - 4);
    FinishClear(s, word[..], 2 - (remaining - 4) / 16, 16 - (remaining - 4) % 16, changed, exponent);
  }

  lemma Whole(s: seq<u16>)
    requires |s| == 4 && Exponent64(ShapeOf(s)) >= 1075
    ensures Truncated(ShapeOf(s), ShapeOf(s), false)
  {
    hide Exponent64, Double.Pattern, FieldOf;
    ExponentField(ShapeOf(s));
  }

  lemma SmallWords(s: seq<u16>)
    requires |s| == 4 && Exponent64(ShapeOf(s)) < 1023
    ensures And(s[3], 0x8000) < 0x1_0000
    ensures Truncated(ShapeOf(s), ShapeOf([0, 0, 0, And(s[3], 0x8000)]), And(s[3], 0x7fff) != 0 || s[2] != 0 || s[1] != 0 || s[0] != 0)
  {
    hide *;
    var x, r := ShapeOf(s), ShapeOf([0, 0, 0, And(s[3], 0x8000)]);
    ExponentField(x);
    AndSignBit(s[3]);
    assert Pow2(15) == 0x8000 by { Pow2Values(); }
    AndMask(s[3], 0x7fff, 15);
    ZeroWords(s);
    ZeroPattern64(And(s[3], 0x8000));
    SmallTruncated(x, And(s[3], 0x8000), And(s[3], 0x7fff) != 0 || s[2] != 0 || s[1] != 0 || s[0] != 0);
    ShapeIs([0, 0, 0, And(s[3], 0x8000)]);
  }

  lemma ShapeIs(s: seq<u16>)
    requires |s| == 4
    ensures ShapeOf(s) == Double(s[0], s[1], s[2], s[3])
    ensures ShapeOf(s).Negative() <==> s[3] >= 0x8000
  {
  }

  lemma ZeroWords(s: seq<u16>)
    requires |s| == 4
    ensures ShapeOf(s).Pattern() == 0 <==> s[3] % 0x8000 == 0 && s[2] == 0 && s[1] == 0 && s[0] == 0
    ensures ShapeOf(s).Negative() <==> s[3] >= 0x8000
  {
    Classes64(ShapeOf(s));
  }

  lemma SmallTruncated(x: Double, sign: u16, changed: bool)
    requires FieldOf(x.Pattern()) < 1023 && (sign == 0 || sign == 0x8000) && (x.Negative() <==> sign == 0x8000)
    requires changed <==> x.Pattern() != 0
    ensures Truncated(x, Double(0, 0, 0, sign), changed)
  {
    hide Double.Pattern, FieldOf;
    ZeroPattern64(sign);
  }

  /** The low bits of the four fraction bits in word 3. */
  lemma Nibble(w: u16, k: nat)
    requires 1 <= k <= 4
    ensures 0 <= 0x000f * Pow2(k)
    ensures var mask := And(U16(0x000f * Pow2(k)), 0x000f);
            && (And(And(w, 0x000f), 0xffff - mask) != 0 <==> w % Pow2(k) != 0)
            && 0 <= w - w % Pow2(k) && Or(And(w, 0xfff0), And(w, mask)) == w - w % Pow2(k)
  {
    hide *;
    Pow2Values();
    var d, m := Pow2(k), Pow2(4 - k);
    NibbleMask(k, d, m);
    AndMask(U16(0x000f * d), 0x000f, 4);
    AndMask(w, 0x000f, 4);
    AndHighMask(w, 0xfff0, 0xfff, 4);
    AndMask(w / 16, 0xfff, 12);
    AndHighMask(w, 0x10 - d, m - 1, k);
    AndMask(Shr(w, k), m - 1, 4 - k);
    NibbleTest(w % 16, k);
    ShrIs(w, k);
    ShrIs(w, 4);
    NibbleParts(w, d, m);
    OrDisjoint(w / 16 * 16, d * (w / d % m), 4);
    ClearNonnegative(w, k);
  }

  lemma NibbleMask(k: nat, d: nat, m: nat)
    requires 1 <= k <= 4 && d == Pow2(k) && m == Pow2(4 - k)
    ensures U16(0x000f * d) % 16 == 0x10 - d == d * (m - 1) && 2 <= d <= 16 && d * m == 16
    ensures 0 <= 0x000f * d
  {
    hide Pow2;
    Pow2Values();
  }

  lemma NibbleParts(w: u16, d: nat, m: nat)
    requires d > 0 && m > 0 && d * m == 16
    ensures w % 16 % d == w % d && 0 <= d * (w / d % m) < 16 && w / 16 * 16 + d * (w / d % m) == w - w % d
    ensures 0 <= w / d % m && w / 16 % 0x1000 == w / 16 && (w / 16 * 16) % 16 == 0
  {
    DivModSplit(w, d, m);
    LowBitsOfProduct(w, d, m, 16);
    Nonnegative(d, w / d % m);
    DivModBasic(w, d);
  }

  lemma NibbleTest(f: nat, k: nat)
    requires f < 16 && 1 <= k <= 4
    ensures And(f, 0xffff - (0x10 - Pow2(k))) != 0 <==> f % Pow2(k) != 0
    ensures Pow2(k) <= 0x10
  {
    hide And, Pow2;
    Pow2Values();
    var d := Pow2(k);
    AndSplit(f, 0xfff, d - 1, 4);
    AndZero(0xfff);
    AndMask(f, d - 1, k);
  }

  lemma FinishClear(s: seq<u16>, t: seq<u16>, i: nat, k: nat, changed: bool, exponent: nat)
    requires Cleared(s, t, i, k) && (changed <==> Dropped(s, i, k))
    requires exponent == Exponent64(ShapeOf(s)) && 1023 <= exponent < 1075 && 16 * i + k == 52 - (exponent - 1023)
    ensures Truncated(ShapeOf(s), ShapeOf(t), changed)
  {
    hide Exponent64, Double.Pattern, FieldOf, Dropped, ClearLow, Pow2;
    ExponentField(ShapeOf(s));
    ClearedWords(s, t, i, k);
  }

  /** The binary point lies in word 3. */
  method ClearNibble(word: array<u16>, remaining: nat) returns (changed: bool)
    requires word.Length == 4 && remaining < 4
    modifies word
    ensures Cleared(old(word[..]), word[..], 3, 4 - remaining) && (changed <==> Dropped(old(word[..]), 3, 4 - remaining))
  {
    hide And, Or, Pow2;
    ghost var s := word[..];
    Nibble(word[3], 4 - remaining);
    var mask := And(U16(0x000f * Pow2(4 - remaining)), 0x000f);
    changed := And(And(word[3], 0x000f), 0xffff - mask) != 0 || word[2] != 0 || word[1] != 0 || word[0] != 0;
    word[3] := Or(And(word[3], 0xfff0), And(word[3], mask));
    word[0], word[1], word[2] := 0, 0, 0;
    assert Dropped(s, 3, 4 - remaining) <==> s[3] % Pow2(4 - remaining) != 0 || s[2] != 0 || s[1] != 0 || s[0] != 0;
  }

  /** The loop over the lower three words. */
  method ClearFraction(word: array<u16>, remaining0: nat) returns (changed: bool)
    requires word.Length == 4 && remaining0 < 48
    modifies word
    ensures Cleared(old(word[..]), word[..], 2 - remaining0 / 16, 16 - remaining0 % 16)
    ensures changed <==> Dropped(old(word[..]), 2 - remaining0 / 16, 16 - remaining0 % 16)
  {
    hide And, Pow2;
    ghost var s := word[..];
    var remaining := remaining0;
    changed := false;
    var index: int := 2;
    while index >= 0
      invariant word[..] == s && 0 <= index <= 2 && remaining0 == remaining + 16 * (2 - index) && 0 <= remaining < 16 * (index + 1)
    {
      if remaining >= 16 {
        remaining := remaining - 16;
        index := index - 1;
        continue;
      }
      var k := 16 - remaining;
      var mask := if remaining != 0 then U16(0xffff * Pow2(16 - remaining)) else 0;
      HighBits(word[index], k);
      changed := And(word[index], 0xffff - mask) != 0;
      word[index] := And(word[index], mask);
      ghost var i := index;
      while index > 0
        invariant 0 <= index <= i
        invariant word[i] == s[i] - s[i] % Pow2(k) && forall j :: 0 <= j < 4 && j != i && !(index <= j < i) ==> word[j] == s[j]
        invariant forall j :: index <= j < i ==> word[j] == 0
        invariant changed <==> s[i] % Pow2(k) != 0 || exists j :: index <= j < i && s[j] != 0
      {
        index := index - 1;
        changed := changed || word[index] != 0;
        word[index] := 0;
      }
      return;
    }
  }

  // ----- adding one unit of the integer part -----

  lemma NumRange(s: seq<u16>)
    requires |s| == 4
    ensures Num(s) < 0x1_0000_0000_0000_0000
  {
  }

  /** Adds 2^bit to the words taken as one number, modulo 2^64. */
  method IncrementDouble(word: array<u16>, bit: nat)
    requires word.Length == 4 && bit < 64
    modifies word
    ensures var total := old(Num(word[..])) + Pow2(bit);
            Num(word[..]) == if total < 0x1_0000_0000_0000_0000 then total else total - 0x1_0000_0000_0000_0000
  {
    hide Num, Pow2, Weight;
    ghost var s, total := word[..], Num(word[..]) + Pow2(bit);
    var index := bit / 16;
    BitOfWord(bit);
    var addend := Pow2(bit % 16);
    var previous := word[index];
    word[index] := U16(word[index] as int + addend);
    AddInWord(s, index, addend, word[..]);
    NumRange(word[..]);
    if word[index] >= previous {
      return;
    }
    index := index + 1;
    while index < 4
      invariant 1 <= index <= 4 && Num(word[..]) + WeightAt(index) == total
    {
      ghost var before := word[..];
      word[index] := U16(word[index] as int + 1);
      CarryInWord(before, index, word[..]);
      NumRange(word[..]);
      if word[index] != 0 {
        return;
      }
      index := index + 1;
    }
    NumRange(word[..]);
  }

  /** The weight of word i, also past the last. */
  function WeightAt(i: nat): nat
    requires i <= 4
  {
    if i == 4 then 0x1_0000_0000_0000_0000 else Weight(i)
  }

  lemma BitOfWord(bit: nat)
    requires bit < 64
    ensures bit / 16 < 4 && 1 <= Pow2(bit % 16) < 0x1_0000 && Pow2(bit) == Pow2(bit % 16) * Weight(bit / 16)
  {
    WeightPower(bit / 16);
    Pow2Add(bit % 16, 16 * (bit / 16));
    assert Pow2(15) == 0x8000 by { Pow2Values(); }
    Pow2Monotone(bit % 16, 15);
  }

  lemma AddInWord(s: seq<u16>, i: nat, addend: nat, t: seq<u16>)
    requires |s| == 4 && i < 4 && 1 <= addend < 0x1_0000 && t == s[i := U16(s[i] as int + addend)]
    ensures t[i] >= s[i] ==> Num(t) == Num(s) + addend * Weight(i)
    ensures t[i] < s[i] ==> Num(t) + WeightAt(i + 1) == Num(s) + addend * Weight(i)
  {
    NumUpdate(s, i, U16(s[i] as int + addend));
    var sum := s[i] as int + addend;
    if sum < 0x1_0000 {
      assert U16(sum) == sum;
    } else {
      assert U16(sum) == sum - 0x1_0000;
    }
  }

  lemma CarryInWord(s: seq<u16>, i: nat, t: seq<u16>)
    requires |s| == 4 && i < 4 && t == s[i := U16(s[i] as int + 1)]
    ensures t[i] != 0 ==> Num(t) == Num(s) + WeightAt(i)
    ensures t[i] == 0 ==> Num(t) + WeightAt(i + 1) == Num(s) + WeightAt(i)
  {
    AddInWord(s, i, 1, t);
    var sum := s[i] as int + 1;
    if sum < 0x1_0000 { assert U16(sum) == sum; } else { assert U16(sum) == 0; }
  }

  // ----- the functions -----

  /** A number below 1.0 in magnitude, rounded to zero or to one. */
  function SmallResult(negative: bool, up: bool): Double {
    Double(0, 0, 0, (if negative then 0x8000 else 0) + (if up then 0x3ff0 else 0))
  }

  method Trunc(value: Double) returns (r: Double)
    ensures IsTrunc(value, r)
  {
    hide *;
    var shape := new u16[4];
    shape[0], shape[1], shape[2], shape[3] := value.word0, value.word1, value.word2, value.word3;
    AsWords(value, shape[..]);
    var changed := TruncateDouble(shape);
    ghost var t := shape[..];
    r := Double(shape[0], shape[1], shape[2], shape[3]);
    AsWords(r, t);
    TruncMeaning(value, r, changed);
  }

  lemma AsWords(x: Double, s: seq<u16>)
    requires |s| == 4 && s[0] == x.word0 && s[1] == x.word1 && s[2] == x.word2 && s[3] == x.word3
    ensures ShapeOf(s) == x
  {
  }

  /** The magnitude of what truncation leaves, and when something was lost. */
  lemma TruncMagnitude(x: Double, r: Double, changed: bool)
    requires Truncated(x, r, changed) && x.IsFinite()
    ensures r.IsFinite() && r.Negative() == x.Negative() && r.Magnitude() == Times(Quot(x.Magnitude(), Unit()), Unit())
    ensures changed <==> x.Magnitude() % Unit() != 0
    ensures !changed ==> r.Magnitude() == x.Magnitude()
  {
    hide *;
    var p, e := x.Pattern(), x.Pattern() / Pow2(52);
    TruncatedMeaning(x, r, changed);
    PatternMagnitude(x);
    PatternMagnitude(r);
    UnitIs();
    Classes64(x);
    Classes64(r);
    QuotTimes(x.Magnitude(), Unit());
    if e >= 1075 {
      NoFraction(52, 1023, p);
    } else if e < 1023 {
      BelowOne(52, 1023, p);
      SmallQuotient(x.Magnitude(), Unit());
      PatternIsZero(52, p);
      PatternIsZero(52, r.Pattern());
    } else {
      FractionCleared(52, 1023, p);
      QuotIs(x.Magnitude(), Unit());
    }
    SmallerPattern(p, r.Pattern(), if 1023 <= e < 1075 then PointShift(52, 1023, e) else 0);
  }

  lemma UnitIs()
    ensures Unit() == One(52, 1023)
  {
  }

  lemma PatternMagnitude(x: Double)
    ensures Pow2(52) > 0 && x.Magnitude() == Mag(Pow2(52), x.Pattern())
  {
    hide Mag, Double.Pattern;
    Pow2Values();
  }

  lemma TruncatedMeaning(x: Double, r: Double, changed: bool)
    requires Truncated(x, r, changed)
    ensures var p, e := x.Pattern(), x.Pattern() / Pow2(52);
            && r.Negative() == x.Negative()
            && (e >= 1075 ==> r == x && !changed)
            && (e < 1023 ==> r.Pattern() == 0 && (changed <==> p != 0))
            && (1023 <= e < 1075 ==> r.Pattern() == ClearLow(p, PointShift(52, 1023, e)) && (changed <==> p % Pow2(PointShift(52, 1023, e)) != 0))
  {
    hide Double.Pattern, ClearLow, PointShift, Pow2;
  }

  lemma TruncMeaning(x: Double, r: Double, changed: bool)
    requires Truncated(x, r, changed)
    ensures IsTrunc(x, r) && (!x.IsFinite() ==> !changed)
  {
    hide Truncated, Double.Pattern, Double.Magnitude, Quot, Times, Unit;
    if x.IsFinite() {
      TruncMagnitude(x, r, changed);
    } else {
      Infinite(x, r, changed);
    }
  }

  lemma Infinite(x: Double, r: Double, changed: bool)
    requires Truncated(x, r, changed) && !x.IsFinite()
    ensures r == x && !changed
  {
    hide Exponent64, Double.Pattern, ClearLow;
    ExponentField(x);
  }

  // ----- the sign decides which way -----

  lemma FloorFrom(x: Double, r: Double)
    requires x.IsFinite() && r.IsFinite() && r.Negative() == x.Negative()
    requires var m, u := x.Magnitude(), Unit();
             r.Magnitude() == if m % u == 0 then m else if x.Negative() then Times(Quot(m, u) + 1, u) else Times(Quot(m, u), u)
    ensures IsFloor(x, r)
  {
    hide Double.Pattern, Double.Magnitude, Unit, Mag;
    GreatestBelow(x.Negative(), x.Magnitude(), r.Magnitude(), Unit());
  }

  lemma CeilFrom(x: Double, r: Double)
    requires x.IsFinite() && r.IsFinite() && r.Negative() == x.Negative()
    requires var m, u := x.Magnitude(), Unit();
             r.Magnitude() == if m % u == 0 then m else if x.Negative() then Times(Quot(m, u), u) else Times(Quot(m, u) + 1, u)
    ensures IsCeil(x, r)
  {
    hide Double.Pattern, Double.Magnitude, Unit, Mag;
    LeastAbove(x.Negative(), x.Magnitude(), r.Magnitude(), Unit());
  }

  // ----- the carry into the integer part and the exponent -----

  /** The words after the increment: the next integer, in magnitude. */
  lemma NextInteger(x: Double, t: seq<u16>, t': seq<u16>, changed: bool)
    requires |t| == |t'| == 4 && x.IsFinite() && Truncated(x, ShapeOf(t), changed) && 1023 <= Exponent64(x) < 1075
    requires Num(t') == Num(t) + Pow2(52 - (Exponent64(x) - 1023))
    ensures ShapeOf(t').IsFinite() && ShapeOf(t').Negative() == x.Negative()
    ensures ShapeOf(t').Magnitude() == Times(Quot(x.Magnitude(), Unit()) + 1, Unit())
  {
    hide *;
    var p, e := x.Pattern(), x.Pattern() / Pow2(52);
    TruncatedMeaning(x, ShapeOf(t), changed);
    ExponentField(x);
    FieldIs(p);
    PointShiftIs(e);
    FractionCleared(52, 1023, p);
    PatternMagnitude(x);
    UnitIs();
    QuotIs(x.Magnitude(), Unit());
    NumPattern(t);
    NumPattern(t');
    var k := PointShift(52, 1023, e);
    IncrementedRange(p, k, e);
    SameSign(t, t', ShapeOf(t).Pattern(), Pow2(k));
    PatternMagnitude(ShapeOf(t'));
    Classes64(ShapeOf(t'));
    Infinity64Value();
  }

  lemma Infinity64Value()
    ensures INFINITY64 == 0x7ff0_0000_0000_0000
  {
  }

  lemma FieldIs(p: nat)
    ensures FieldOf(p) == p / Pow2(52)
  {
  }

  lemma PointShiftIs(e: nat)
    requires 1023 <= e < 1075
    ensures PointShift(52, 1023, e) == 52 - (e - 1023)
  {
  }

  lemma IncrementedRange(p: nat, k: nat, e: nat)
    requires e == p / Pow2(52) && e < 1075 && k <= 52
    ensures ClearLow(p, k) + Pow2(k) < 0x7ff0_0000_0000_0000
  {
    hide Pow2;
    Pow2Values();
    Pow2Monotone(k, 52);
    ClearNonnegative(p, k);
    DivModBasic(p, Pow2(52));
  }

  lemma SameSign(t: seq<u16>, t': seq<u16>, p: nat, d: nat)
    requires |t| == |t'| == 4 && p == ShapeOf(t).Pattern() && Num(t') == Num(t) + d && p + d < 0x8000_0000_0000_0000
    ensures ShapeOf(t').Negative() == ShapeOf(t).Negative() && ShapeOf(t').Pattern() == p + d
  {
    hide Double.Pattern, Num, Double.Negative;
    NumPattern(t);
    NumPattern(t');
  }

  lemma OneIsSmall(x: Double, up: bool)
    ensures var r := SmallResult(x.Negative(), up);
            r.IsFinite() && r.Negative() == x.Negative() && r.Magnitude() == if up then Unit() else 0
  {
    hide *;
    SmallPattern(x.Negative(), up);
    var r := SmallResult(x.Negative(), up);
    PatternMagnitude(r);
    OnePattern(52, 1023);
    UnitIs();
    Pow2Values();
    PatternIsZero(52, 0);
  }

  lemma SmallPattern(negative: bool, up: bool)
    ensures var r := SmallResult(negative, up);
            r.Negative() == negative && r.IsFinite() && r.Pattern() == if up then 0x10_0000_0000_0000 * 1023 else 0
  {
    hide Double.Pattern, Double.Low;
    var r := SmallResult(negative, up);
    TopWords();
    HighHalf(r, if up then 0x3ff0 else 0);
  }

  lemma TopWords()
    ensures 0 % 0x8000 == 0 && 0x8000 % 0x8000 == 0 && 0x3ff0 % 0x8000 == 0x3ff0 && 0xbff0 % 0x8000 == 0x3ff0
  {
  }

  lemma BelowUnit(x: Double)
    requires Exponent64(x) < 1023
    ensures x.IsFinite() && x.Magnitude() < Unit() && Quot(x.Magnitude(), Unit()) == 0 && x.Magnitude() % Unit() == x.Magnitude()
    ensures Times(0, Unit()) == 0 && Times(1, Unit()) == Unit()
    ensures 2 * x.Magnitude() >= Unit() <==> Exponent64(x) == 1022
  {
    hide *;
    ExponentField(x);
    FieldIs(x.Pattern());
    PatternMagnitude(x);
    UnitIs();
    BelowOne(52, 1023, x.Pattern());
    SmallQuotient(x.Magnitude(), Unit());
    TimesMeaning(1, Unit());
  }

  method Floor(value: Double) returns (r: Double)
    ensures IsFloor(value, r)
  {
    hide *;
    var shape := new u16[4];
    shape[0], shape[1], shape[2], shape[3] := value.word0, value.word1, value.word2, value.word3;
    AsWords(value, shape[..]);
    var exponent := Exponent64(value);
    var changed := TruncateDouble(shape);
    ghost var t := shape[..];
    Outcome(value, t, changed);
    if !changed {
      if value.IsFinite() { FloorFrom(value, value); }
      return value;
    }
    if And(shape[3], 0x8000) == 0 {
      r := Double(shape[0], shape[1], shape[2], shape[3]);
      AsWords(r, t);
      FloorFrom(value, r);
      return;
    }
    if exponent < 1023 {
      r := Double(0, 0, 0, 0xbff0);
      BelowUnit(value);
      OneIsSmall(value, true);
      SmallIs(true);
      FloorFrom(value, r);
      return;
    }
    Next(value, t, changed, exponent);
    IncrementDouble(shape, 52 - (exponent - 1023));
    NextInteger(value, t, shape[..], changed);
    r := Double(shape[0], shape[1], shape[2], shape[3]);
    AsWords(r, shape[..]);
    FloorFrom(value, r);
  }

  method Ceil(value: Double) returns (r: Double)
    ensures IsCeil(value, r)
  {
    hide *;
    var shape := new u16[4];
    shape[0], shape[1], shape[2], shape[3] := value.word0, value.word1, value.word2, value.word3;
    AsWords(value, shape[..]);
    var exponent := Exponent64(value);
    var changed := TruncateDouble(shape);
    ghost var t := shape[..];
    Outcome(value, t, changed);
    if !changed {
      if value.IsFinite() { CeilFrom(value, value); }
      return value;
    }
    if And(shape[3], 0x8000) != 0 {
      r := Double(shape[0], shape[1], shape[2], shape[3]);
      AsWords(r, t);
      CeilFrom(value, r);
      return;
    }
    if exponent < 1023 {
      r := Double(0, 0, 0, 0x3ff0);
      BelowUnit(value);
      OneIsSmall(value, true);
      SmallIs(false);
      CeilFrom(value, r);
      return;
    }
    Next(value, t, changed, exponent);
    IncrementDouble(shape, 52 - (exponent - 1023));
    NextInteger(value, t, shape[..], changed);
    r := Double(shape[0], shape[1], shape[2], shape[3]);
    AsWords(r, shape[..]);
    CeilFrom(value, r);
  }

  /** What is known when truncation is done. */
  lemma Outcome(x: Double, t: seq<u16>, changed: bool)
    requires |t| == 4 && Truncated(x, ShapeOf(t), changed)
    ensures !x.IsFinite() ==> !changed && IsFloor(x, x) && IsCeil(x, x) && IsRound(x, x) && Exponent64(x) == 0x7ff
    ensures x.IsFinite() ==>
              && Exponent64(x) < 0x7ff && (Exponent64(x) >= 1075 ==> !changed)
              && ShapeOf(t).IsFinite() && ShapeOf(t).Negative() == x.Negative()
              && ShapeOf(t).Magnitude() == Times(Quot(x.Magnitude(), Unit()), Unit())
              && (changed <==> x.Magnitude() % Unit() != 0)
              && (!changed ==> ShapeOf(t).Magnitude() == x.Magnitude())
    ensures And(t[3], 0x8000) != 0 <==> x.Negative()
  {
    hide *;
    ExponentField(x);
    FieldIs(x.Pattern());
    TruncatedMeaning(x, ShapeOf(t), changed);
    ShapeIs(t);
    AndSignBit(t[3]);
    if x.IsFinite() {
      TruncMagnitude(x, ShapeOf(t), changed);
    } else {
      Infinite(x, ShapeOf(t), changed);
      Itself(x);
    }
  }

  lemma Itself(x: Double)
    requires !x.IsFinite()
    ensures IsFloor(x, x) && IsCeil(x, x) && IsRound(x, x) && IsTrunc(x, x)
  {
  }

  lemma SmallIs(negative: bool)
    ensures SmallResult(negative, true) == Double(0, 0, 0, if negative then 0xbff0 else 0x3ff0)
    ensures SmallResult(negative, false) == Double(0, 0, 0, if negative then 0x8000 else 0)
  {
  }

  /** There is room for the increment. */
  lemma Next(x: Double, t: seq<u16>, changed: bool, exponent: nat)
    requires |t| == 4 && x.IsFinite() && Truncated(x, ShapeOf(t), changed) && exponent == Exponent64(x) && 1023 <= exponent < 1075
    ensures 52 - (exponent - 1023) < 64 && Num(t) + Pow2(52 - (exponent - 1023)) < 0x1_0000_0000_0000_0000
  {
    hide *;
    ExponentField(x);
    FieldIs(x.Pattern());
    TruncatedMeaning(x, ShapeOf(t), changed);
    PointShiftIs(exponent);
    NumPattern(t);
    IncrementedRange(x.Pattern(), PointShift(52, 1023, exponent), exponent);
  }

  // ----- round -----

  lemma RoundFrom(x: Double, r: Double, up: bool)
    requires x.IsFinite() && r.IsFinite() && r.Negative() == x.Negative()
    requires up <==> 2 * (x.Magnitude() % Unit()) >= Unit()
    requires r.Magnitude() == Times(Quot(x.Magnitude(), Unit()) + if up then 1 else 0, Unit())
    ensures IsRound(x, r)
  {
    hide Double.Pattern, Double.Magnitude, Unit, Mag;
    NearestInteger(x.Magnitude(), r.Magnitude(), Unit(), up);
  }

  /** One bit of a word is one bit of the pattern. */
  lemma WordBit(s: seq<u16>, bit: nat)
    requires |s| == 4 && bit < 52
    ensures bit / 16 < 4 && (And(s[bit / 16], Pow2(bit % 16)) != 0 <==> ShapeOf(s).Pattern() / Pow2(bit) % 2 == 1)
  {
    hide *;
    var i, j := bit / 16, bit % 16;
    WordIndex(bit);
    WeightPower(i);
    PatternParts(s, i);
    Pow2Add(16 * i, j);
    PlacesOfWord(j);
    AndBit(s[i], j);
    ShrIs(s[i], j);
    TopDigit(s, i, j);
    BitOfParts(Lower(s, i), Weight(i), Digit(s, i), Upper(s, i), Pow2(j), Pow2(15 - j), ShapeOf(s).Pattern());
    BitProduct(Pow2(j), s[i] / Pow2(j) % 2);
  }

  lemma PlacesOfWord(j: nat)
    requires j <= 15
    ensures 2 * (Pow2(j) * Pow2(15 - j)) == 0x1_0000
  {
    hide Pow2;
    Pow2Values();
    Pow2Add(j, 15 - j);
  }

  lemma WordIndex(bit: nat)
    requires bit < 52
    ensures bit / 16 <= 3 && bit == 16 * (bit / 16) + bit % 16 && (bit / 16 == 3 ==> bit % 16 <= 3) && bit % 16 <= 15
    ensures Pow2(1) == 2
  {
    Pow2Values();
  }

  lemma TopDigit(s: seq<u16>, i: nat, j: nat)
    requires |s| == 4 && i <= 3 && j <= 15 && (i == 3 ==> j <= 3)
    ensures Digit(s, i) / Pow2(j) % 2 == s[i] / Pow2(j) % 2
  {
    hide Pow2;
    if i == 3 {
      Pow2Values();
      HighBitAway(s[3], Pow2(j), if j == 0 then 0x4000 else if j == 1 then 0x2000 else if j == 2 then 0x1000 else 0x800);
    }
  }

  /** The sign bit does not show in the low bits. */
  lemma HighBitAway(w: u16, d: nat, n: nat)
    requires d > 0 && d * (2 * n) == 0x8000
    ensures w % 0x8000 / d % 2 == w / d % 2
  {
    var b, x := w / 0x8000, w % 0x8000;
    DivModBasic(x, d);
    assert b == 0 || b == 1;
    assert d * (2 * (n * b) + x / d) == d * (2 * n) * b + d * (x / d);
    DivModUnique(w, d, 2 * (n * b) + x / d, x % d);
  }

  lemma BitProduct(d: nat, b: int)
    requires d > 0 && (b == 0 || b == 1)
    ensures d * b != 0 <==> b == 1
  {
  }

  lemma BitOfParts(lower: nat, W: nat, a: nat, U: nat, d: nat, m: nat, P: nat)
    requires P == lower + W * (a + 0x1_0000 * U) && lower < W && d > 0 && 2 * (d * m) == 0x1_0000
    ensures W * d > 0 && P / (W * d) % 2 == a / d % 2 && (a / d % 2 == 0 || a / d % 2 == 1)
  {
    MulAtLeast(W, d);
    DivModBasic(a, d);
    var q, r := a / d, a % d;
    Nonnegative(W, r);
    ProductLe(r + 1, d, W);
    assert W * (r + 1) == W * r + W;
    assert d * (2 * m) == 0x1_0000;
    Factored(W, d, 2 * m, q, r, U);
    DivModUnique(P, W * d, q + 2 * m * U, lower + W * r);
    MulAssoc(2, m, U);
  }

  method Round(value: Double) returns (r: Double)
    ensures IsRound(value, r)
  {
    hide *;
    var shape := new u16[4];
    shape[0], shape[1], shape[2], shape[3] := value.word0, value.word1, value.word2, value.word3;
    ghost var s := shape[..];
    AsWords(value, s);
    ShapeIs(s);
    AndSignBit(shape[3]);
    var sign := And(shape[3], 0x8000);
    var exponent := Exponent64(value);
    Integers(value);
    if exponent == 0x7ff || exponent >= 1075 {
      return value;
    }
    SmallIs(value.Negative());
    if exponent < 1022 {
      BelowUnit(value);
      OneIsSmall(value, false);
      RoundFrom(value, SmallResult(value.Negative(), false), false);
      return Double(0, 0, 0, sign);
    }
    if exponent == 1022 {
      BelowUnit(value);
      OneIsSmall(value, true);
      RoundFrom(value, SmallResult(value.Negative(), true), true);
      OneWithSign(sign);
      return Double(0, 0, 0, Or(sign, 0x3ff0));
    }
    var roundBit := 51 - (exponent - 1023);
    WordBit(s, roundBit);
    var roundUp := And(shape[roundBit / 16], Pow2(roundBit % 16)) != 0;
    RoundBit(value, roundBit, exponent);
    var changed := TruncateDouble(shape);
    ghost var t := shape[..];
    Outcome(value, t, changed);
    if roundUp {
      Next(value, t, changed, exponent);
      IncrementDouble(shape, 52 - (exponent - 1023));
      NextInteger(value, t, shape[..], changed);
    }
    r := Double(shape[0], shape[1], shape[2], shape[3]);
    AsWords(r, shape[..]);
    RoundFrom(value, r, roundUp);
  }

  lemma OneWithSign(sign: u16)
    requires sign == 0 || sign == 0x8000
    ensures Or(sign, 0x3ff0) == sign + 0x3ff0
  {
    assert sign % 0x8000 == 0;
    OrSign(sign, 0x3ff0);
  }

  /** Numbers of 2^52 and more are integers, and round to themselves. */
  lemma Integers(x: Double)
    ensures Exponent64(x) >= 1075 ==> IsRound(x, x)
    ensures Exponent64(x) < 1075 ==> x.IsFinite()
  {
    hide *;
    ExponentField(x);
    if x.IsFinite() && Exponent64(x) >= 1075 {
      FieldIs(x.Pattern());
      UnitIs();
      PatternMagnitude(x);
      NoFraction(52, 1023, x.Pattern());
      QuotTimes(x.Magnitude(), Unit());
      RoundFrom(x, x, false);
    } else if !x.IsFinite() {
      Itself(x);
    }
  }

  lemma RoundBit(x: Double, bit: nat, exponent: nat)
    requires exponent == Exponent64(x) && 1023 <= exponent < 1075 && bit == 51 - (exponent - 1023)
    ensures x.Pattern() / Pow2(bit) % 2 == 1 <==> 2 * (x.Magnitude() % Unit()) >= Unit()
  {
    hide *;
    ExponentField(x);
    FieldIs(x.Pattern());
    PointShiftIs(exponent);
    UnitIs();
    PatternMagnitude(x);
    HalfBit(52, 1023, x.Pattern());
  }
}
