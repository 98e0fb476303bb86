/** Values split into little-endian 16-bit limbs (internal.h), and their meaning as
natural numbers. */
module Limbs {
  import opened Bits
  import opened Sticky

  datatype Words = Words(low: u16, high: u16) {
    function Val(): (v: u32) {
      high * 0x1_0000 + low
    }

    predicate IsZero()
      ensures IsZero() <==> Val() == 0
    {
      OrIsZero(low, high);
      Or(low, high) == 0
    }
  }

  function Compare(left: Words, right: Words): (r: int)
    ensures r < 0 <==> left.Val() < right.Val()
    ensures r == 0 <==> left.Val() == right.Val()
  {
    if left.high != right.high then
      if left.high < right.high then -1 else 1
    else if left.low != right.low then
      if left.low < right.low then -1 else 1
    else 0
  }

  /** Reducing a sum or difference that leaves the range by at most one modulus. */
  lemma WrapOnce(x: int, m: int)
    requires m > 0 && -m <= x < 2 * m
    ensures x % m == if x < 0 then x + m else if x < m then x else x - m
  {
    DivModUnique(x, m, if x < 0 then -1 else if x < m then 0 else 1, if x < 0 then x + m else if x < m then x else x - m);
  }

  function Add(left: Words, right: Words): (r: Words)
    ensures var sum := left.Val() + right.Val();
            r.Val() == if sum < 0x1_0000_0000 then sum else sum - 0x1_0000_0000
  {
    var low := U16(left.low + right.low);
    var carry := if low < left.low then 1 else 0;
    WrapOnce(left.low + right.low, 0x1_0000);
    WrapOnce(left.high + right.high + carry, 0x1_0000);
    Words(low, U16(left.high + right.high + carry))
  }

  function Subtract(left: Words, right: Words): (r: Words)
    ensures var difference := left.Val() - right.Val();
            r.Val() == if difference >= 0 then difference else difference + 0x1_0000_0000
  {
    var borrow := if left.low < right.low then 1 else 0;
    WrapOnce(left.low - right.low, 0x1_0000);
    WrapOnce(left.high - right.high - borrow, 0x1_0000);
    Words(U16(left.low - right.low), U16(left.high - right.high - borrow))
  }

  /** OR joins a limb with the bits that move in below it. */
  lemma Joined(high: nat, low: nat, k: nat, h: nat)
    requires (k == 1 && h == 2) || (k == 3 && h == 8) || (k == 15 && h == 0x8000)
    requires low < h
    ensures Or(high * h, low) == high * h + low && Or(low, high * h) == high * h + low
  {
    hide *;
    Pow2Values();
    OrAbove(high, low, k, h);
  }

  function ShiftLeftOne(value: Words): (r: Words)
    ensures r.Val() == if value.Val() < 0x8000_0000 then 2 * value.Val() else 2 * value.Val() - 0x1_0000_0000
  {
    hide Or;
    Joined(value.high, value.low / 0x8000, 1, 2);
    DoubleLimbs(value.low, value.high);
    Words(U16(value.low * 2), U16(Or(value.high * 2, value.low / 0x8000)))
  }

  lemma DoubleLimbs(low: u16, high: u16)
    ensures U16(high * 2 + low / 0x8000) * 0x1_0000 + U16(low * 2) 
         == 2 * (high * 0x1_0000 + low) - if high < 0x8000 then 0 else 0x1_0000_0000
  {
    var c := low / 0x8000;
    assert U16(low * 2) == low * 2 - c * 0x1_0000;
    var d := high / 0x8000;
    assert U16(high * 2 + c) == high * 2 + c - d * 0x1_0000;
  }

  function ShiftRightOne(value: Words): (r: Words)
    ensures r.Val() == value.Val() / 2
  {
    hide Or;
    Joined(value.high, value.low / 2, 15, 0x8000);
    HalveLimbs(value.low, value.high);
    Words(U16(Or(value.low / 2, value.high * 0x8000)), value.high / 2)
  }

  lemma HalveLimbs(low: u16, high: u16)
    ensures high / 2 * 0x1_0000 + U16(low / 2 + high * 0x8000) == (high * 0x1_0000 + low) / 2
  {
    var c := high % 2;
    DivModUnique(low / 2 + high * 0x8000, 0x1_0000, high / 2, low / 2 + c * 0x8000);
  }

  lemma EightLimbs(low: u16, high: u16)
    ensures U16(high * 8 + low / 8192) * 0x1_0000 + U16(low as int * 8) == 8 * (high * 0x1_0000 + low) - high / 0x2000 * 0x1_0000_0000
  {
    DivModUnique(low as int * 8, 0x1_0000, low / 8192, low % 8192 * 8);
    DivModUnique(high * 8 + low / 8192, 0x1_0000, high / 0x2000, high % 0x2000 * 8 + low / 8192);
  }

  lemma EightWraps(v: nat, q: int)
    requires 0 <= 8 * v - q * 0x1_0000_0000 < 0x1_0000_0000
    ensures 8 * v % 0x1_0000_0000 == 8 * v - q * 0x1_0000_0000 && (v < 0x2000_0000 ==> q == 0)
  {
    DivModUnique(8 * v, 0x1_0000_0000, q, 8 * v - q * 0x1_0000_0000);
  }

  function ExtendSignificand(value: Words): (r: Words)
    ensures r.Val() == 8 * value.Val() % 0x1_0000_0000
    ensures value.Val() < 0x2000_0000 ==> r.Val() == 8 * value.Val()
  {
    hide Or, U16;
    Joined(value.high, value.low / 8192, 3, 8);
    EightLimbs(value.low, value.high);
    EightWraps(value.Val(), value.high / 0x2000);
    Words(U16(value.low * 8), U16(Or(value.high * 8, value.low / 8192)))
  }

  /** value.low |= 1 */
  function SetLowBit(value: Words): (r: Words)
    ensures r.Val() == if value.Val() % 2 == 1 then value.Val() else value.Val() + 1
  {
    hide Or;
    OrOne(value.low);
    LowBitOfVal(value);
    value.(low := Or(value.low, 1))
  }

  method ShiftRightSticky(words: Words, shift: u16) returns (value: Words)
    ensures value.Val() == StickyShift(words.Val(), shift)
  {
    hide And, Or, Shr, Loses, StickyShift;
    value := words;
    var count := shift;
    var sticky: u16 := 0;
    if count >= 32 {
      StickyPastEnd(words.Val(), count);
      return Words(if value.IsZero() then 0 else 1, 0);
    }
    if count >= 16 {
      sticky := if value.low != 0 then 1 else 0;
      value := Words(value.high, 0);
      count := count - 16;
    }
    StickyStart(words.low, words.high);
    while count > 0
      invariant 0 <= count <= shift
      invariant sticky == 0 || sticky == 1
      invariant value.Val() == Shr(words.Val(), shift - count)
      invariant sticky == 1 <==> Loses(words.Val(), shift - count)
    {
      LowBit(value.low);
      OrBits(sticky, value.low % 2);
      ShiftStep(words.Val(), shift - count);
      LowBitOfVal(value);
      sticky := Or(sticky, And(value.low, 1));
      value := ShiftRightOne(value);
      count := count - 1;
    }
    OrSticky(value, sticky, words.Val(), shift);
    value := value.(low := Or(value.low, sticky));
  }

  lemma StickyStart(low: u16, high: u16)
    ensures var v := high * 0x1_0000 + low;
            && Shr(v, 0) == v && !Loses(v, 0)
            && Shr(v, 16) == high && (Loses(v, 16) <==> low != 0)
  {
    Pow2Values();
    DivModUnique(high * 0x1_0000 + low, 0x1_0000, high, low);
  }

  lemma LowBitOfVal(value: Words)
    ensures value.Val() % 2 == value.low % 2
  {
  }

  lemma OrSticky(value: Words, sticky: u16, v: nat, c: nat)
    requires sticky == 0 || sticky == 1
    requires value.Val() == Shr(v, c) && (sticky == 1 <==> Loses(v, c))
    ensures Or(value.low, sticky) < 0x1_0000
    ensures value.high * 0x1_0000 + Or(value.low, sticky) == StickyShift(v, c)
  {
    hide Or, Shr, Loses;
    OrOne(value.low);
    OrZero(value.low);
    LowBitOfVal(value);
  }

  lemma LowBit(a: nat)
    ensures And(a, 1) == a % 2
  {
    AndLowMask(a, 1);
  }

  lemma OrBits(a: nat, b: nat)
    requires a <= 1 && b <= 1
    ensures Or(a, b) == if a == 0 && b == 0 then 0 else 1
  {
  }

  lemma StickyPastEnd(v: nat, c: nat)
    requires v < 0x1_0000_0000 && c >= 32
    ensures StickyShift(v, c) == if v == 0 then 0 else 1
  {
    Pow2Values();
    Pow2Monotone(32, c);
    DivModUnique(v, Pow2(c), 0, v);
  }
}
