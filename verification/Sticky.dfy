/** Guard, round and sticky bits.

A significand carried with three extra bits stands for an exact value num/den without
always being equal to it.  `Stands` says precisely how much is known, and the lemmas show
that this is enough to round correctly, that shifting right into a sticky bit keeps it,
and that one left shift after a subtraction costs only one bit of it. */
module Sticky {
  import opened Bits
  import opened Rounding

  /** E is exact when m divides it; otherwise num/den lies strictly between the
  two multiples of m around E. */
  ghost predicate Stands(E: nat, m: nat, num: nat, den: nat)
    requires m > 0
  {
    if E % m == 0 then num == E * den
    else (E - E % m) * den < num && num < (E - E % m + m) * den
  }

  /** v / 2^c with the lost bits ORed into the lowest one. */
  function StickyShift(v: nat, c: nat): nat {
    if Loses(v, c) && Shr(v, c) % 2 == 0 then Shr(v, c) + 1 else Shr(v, c)
  }

  /** Every integer stands for itself when the multiple is one of two adjacent ones. */
  lemma StandsExact(E: nat)
    ensures Stands(E, 2, E, 1)
  {
  }

  lemma StandsCoarser(E: nat, num: nat, den: nat)
    requires den > 0 && Stands(E, 2, num, den)
    ensures Stands(E, 4, num, den)
  {
    assert E % 4 == 1 ==> E - E % 2 == E - E % 4;
    var b := E - E % 4;
    assert (b + 2) * den == b * den + 2 * den && (b + 4) * den == b * den + 4 * den;
    if E % 4 == 2 { assert E == b + 2; }
    if E % 4 == 3 { assert E - E % 2 == b + 2; }
  }

  lemma StandsDoubled(E: nat, num: nat, den: nat)
    requires Stands(E, 2, num, den)
    ensures Stands(2 * E, 4, 2 * num, den)
  {
    if E % 2 == 1 {
      assert (2 * E) % 4 == 2;
      DoubleProduct(E - 1, den);
      DoubleProduct(E + 1, den);
      assert 2 * E - 2 == 2 * (E - 1) && 2 * E + 2 == 2 * (E + 1);
    }
  }

  /** Shifting right with sticky keeps what E stands for. */
  lemma StandsShifted(E: nat, c: nat, num: nat, den: nat)
    requires den > 0 && Stands(E, 2, num, den)
    ensures Stands(StickyShift(E, c), 2, num, den * Pow2(c))
  {
    hide *;
    if c > 0 {
      StickyQuotient(E, c);
      ShiftedStands(E, Pow2(c), Pow2(c - 1), E / Pow2(c), E % Pow2(c), StickyShift(E, c), num, den);
    } else {
      StickyNone(E, den);
    }
  }

  lemma StickyNone(E: nat, den: nat)
    ensures StickyShift(E, 0) == E && den * Pow2(0) == den
  {
    DivModUnique(E, 1, E, 0);
  }

  lemma StickyQuotient(E: nat, c: nat)
    requires c > 0
    ensures var f, q, r := Pow2(c), E / Pow2(c), E % Pow2(c);
            && f == 2 * Pow2(c - 1) && E == f * q + r && 0 <= r < f && q >= 0
            && StickyShift(E, c) == if r != 0 && q % 2 == 0 then q + 1 else q
  {
    hide Pow2;
    Pow2Step(c - 1);
    DivModBasic(E, Pow2(c));
    DivNonnegative(E, Pow2(c));
  }

  lemma ShiftedStands(E: nat, f: nat, half: nat, q: nat, r: nat, S: nat, num: nat, den: nat)
    requires den > 0 && half > 0 && f == 2 * half && E == f * q + r && r < f && Stands(E, 2, num, den)
    requires S == if r != 0 && q % 2 == 0 then q + 1 else q
    ensures den * f >= 0 && Stands(S, 2, num, den * f)
  {
    Nonnegative(den, f);
    EvenProduct(f, half, q);
    if S % 2 == 0 {
      Rearrange(q, f, den);
    } else {
      NextMultiple(f, q);
      assert f * (q + 2) == f * (q + 1) + f && f * (q - 1) == f * q - f;
      EvenProduct(f, half, S - 1);
      EvenProduct(f, half, S + 1);
      Rearrange(S - 1, f, den);
      Rearrange(S + 1, f, den);
      StrictlyBetween(E, f * (S - 1), f * (S + 1), num, den);
    }
  }

  /** What E stands for compares with an even number as E does. */
  lemma StrictlyBetween(E: nat, low: nat, high: nat, num: nat, den: nat)
    requires den > 0 && Stands(E, 2, num, den)
    requires low % 2 == 0 && high % 2 == 0 && low < E < high
    ensures low * den < num < high * den
  {
    ProductLe(low, E - E % 2, den);
    ProductOrder(low, E, den);
    ProductOrder(E, high, den);
    ProductLe(E + E % 2, high, den);
  }

  lemma EvenProduct(f: int, half: int, q: int)
    requires f == 2 * half
    ensures (f * q) % 2 == 0
  {
    DoubleProduct(half, q);
  }

  lemma Rearrange(q: int, f: int, den: int)
    ensures q * (den * f) == (f * q) * den
  {
  }

  // ----- rounding to the nearest multiple of eight -----

  /** Rounds three guard bits off: to nearest, ties to even. */
  function RoundOff(E: nat): nat {
    if E % 8 > 4 || (E % 8 == 4 && E / 8 % 2 == 1) then E / 8 + 1 else E / 8
  }

  lemma RoundOffWithinHalf(E: nat, num: nat, den: nat)
    requires den > 0 && Stands(E, 4, num, den)
    ensures WithinHalfStep(RoundOff(E), num, 8 * den)
    ensures E % 8 < 4 ==> E / 8 * (8 * den) <= num
  {
    var q, r := E / 8, E % 8;
    var b := E - E % 4;
    NextMultiple(8 * den, q);
    NextFour(b, den);
    Eight(q, den);
    if r < 4 {
      assert b == 8 * q;
    } else {
      assert b == 8 * q + 4;
      NextFour(8 * q, den);
    }
  }

  lemma NextFour(b: int, den: int)
    ensures (b + 4) * den == b * den + 4 * den
  {
  }

  lemma Eight(q: int, den: int)
    ensures 8 * q * den == q * (8 * den)
  {
  }

  lemma ScaleHalfStep(s: nat, num: nat, g: nat, f: nat)
    requires f > 0 && WithinHalfStep(s, num, g)
    ensures num * f >= 0 && f * g >= 0 && WithinHalfStep(s, num * f, f * g)
  {
    Nonnegative(num, f);
    Nonnegative(f, g);
    var lhs, up, down := 2 * num, 2 * (s * g) + g, 2 * (s * g) - g;
    ProductOrder(lhs, up, f);
    ProductOrder(lhs, down, f);
    MulAssoc(s, g, f);
    assert up * f == 2 * (s * (f * g)) + f * g;
    assert down * f == 2 * (s * (f * g)) - f * g;
    assert lhs * f == 2 * (num * f);
  }

  /** The rounding step: a significand with three extra bits, at step exponent k, rounds
  to the pattern nearest to the exact value it stands for. */
  lemma RoundOffNearest(h: nat, k: nat, E: nat, num: nat, den: nat)
    requires h > 0 && h % 2 == 0 && den > 0 && Stands(E, 4, num, den)
    requires E < 16 * h && (k > 0 ==> E >= 8 * h)
    ensures Nearest(h, k, RoundOff(E), num, den)
  {
    var s := RoundOff(E);
    RoundOffWithinHalf(E, num, den);
    ScaleHalfStep(s, num, 8 * den, Pow2(k));
    if s == h && k > 0 {
      assert E / 8 == s;
      RoundOffAtPower(E, num, den);
      ProductLe(s * (8 * den), num, Pow2(k));
      Commute(s, 8 * den, Pow2(k));
    }
    Nonnegative(num, Pow2(k));
    NearestByHalfSteps(h, k, s, num * Pow2(k), 8 * den);
  }

  ghost predicate Nearest(h: nat, k: nat, s: nat, num: nat, den: nat)
    requires h > 0
  {
    Nonnegative(num, Pow2(k));
    NearestEven(h, Pattern(h, k, s), num * Pow2(k), 8 * den)
  }

  lemma Commute(s: int, g: int, f: int)
    ensures s * g * f == s * (f * g)
  {
  }

  lemma RoundOffAtPower(E: nat, num: nat, den: nat)
    requires den > 0 && Stands(E, 4, num, den)
    ensures E / 8 * (8 * den) <= num
  {
    Eight(E / 8, den);
    ProductLe(8 * (E / 8), E - E % 4, den);
  }
}
