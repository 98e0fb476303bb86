/** Powers of two and the bitwise operators of C on natural numbers.

The firmware keeps wide values in 16-bit limbs and combines them with shifts, masks
and ORs.  The operators are defined here bit by bit, and the lemmas say when they
coincide with the arithmetic the correctness arguments need. */
module Bits {

  type u16 = x: int | 0 <= x < 0x1_0000
  type u32 = x: int | 0 <= x < 0x1_0000_0000

  function Pow2(n: nat): (p: nat)
    ensures p > 0
  {
    if n == 0 then 1 else 2 * Pow2(n - 1)
  }

  function And(a: nat, b: nat): (r: nat)
    ensures r <= a && r <= b
  {
    if a == 0 || b == 0 then 0
    else (if a % 2 == 1 && b % 2 == 1 then 1 else 0) + 2 * And(a / 2, b / 2)
  }

  function Or(a: nat, b: nat): (r: nat)
    ensures a <= r && b <= r <= a + b
  {
    if a == 0 then b else if b == 0 then a
    else (if a % 2 == 1 || b % 2 == 1 then 1 else 0) + 2 * Or(a / 2, b / 2)
  }

  function Xor(a: nat, b: nat): nat
  {
    if a == 0 then b else if b == 0 then a
    else (if a % 2 != b % 2 then 1 else 0) + 2 * Xor(a / 2, b / 2)
  }

  lemma {:induction false} Pow2Add(m: nat, n: nat)
    ensures Pow2(m + n) == Pow2(m) * Pow2(n)
  {
    if m > 0 {
      Pow2Add(m - 1, n);
      assert Pow2(m + n) == 2 * Pow2(m - 1 + n);
      assert Pow2(m) * Pow2(n) == 2 * (Pow2(m - 1) * Pow2(n));
    }
  }

  lemma Pow2Step(n: nat)
    ensures Pow2(n + 1) == 2 * Pow2(n)
  {
  }

  lemma {:induction false} Pow2Monotone(m: nat, n: nat)
    requires m <= n
    ensures Pow2(m) <= Pow2(n)
  {
    if m < n { Pow2Monotone(m, n - 1); }
  }

  /** The powers used as literals in the source. */
  lemma Pow2Values()
    ensures Pow2(0) == 1 && Pow2(1) == 2 && Pow2(2) == 4 && Pow2(3) == 8 && Pow2(4) == 16 && Pow2(5) == 32 && Pow2(6) == 64 && Pow2(7) == 128
    ensures Pow2(8) == 256 && Pow2(11) == 2048 && Pow2(13) == 8192 && Pow2(15) == 0x8000 && Pow2(16) == 0x1_0000
    ensures Pow2(10) == 1024 && Pow2(12) == 4096 && Pow2(20) == 0x10_0000 && Pow2(21) == 0x20_0000 && Pow2(22) == 0x40_0000
    ensures Pow2(23) == 0x80_0000 && Pow2(24) == 0x100_0000 && Pow2(25) == 0x200_0000 && Pow2(26) == 0x400_0000 && Pow2(27) == 0x800_0000
    ensures Pow2(32) == 0x1_0000_0000 && Pow2(52) == 0x10_0000_0000_0000 && Pow2(54) == 0x40_0000_0000_0000
  {
    assert Pow2(8) == 256;
    assert Pow2(16) == 0x1_0000;
    assert Pow2(20) == 0x10_0000;
    assert Pow2(24) == 0x100_0000;
    assert Pow2(32) == 0x1_0000_0000;
    assert Pow2(40) == 0x100_0000_0000;
    assert Pow2(48) == 0x1_0000_0000_0000;
  }

  lemma Pow2Of31()
    ensures Pow2(31) == 0x8000_0000
  {
    Pow2Values();
    Pow2Step(31);
  }

  lemma {:induction false} OrZero(a: nat)
    ensures Or(a, 0) == a && Or(0, a) == a
  {
  }

  /** OR of values that share no bit position is addition. */
  lemma {:induction false} OrDisjoint(a: nat, b: nat, k: nat)
    requires a % Pow2(k) == 0 && b < Pow2(k)
    ensures Or(a, b) == a + b
  {
    if k > 0 && a > 0 && b > 0 {
      DivModDouble(a, Pow2(k - 1));
      OrDisjoint(a / 2, b / 2, k - 1);
    }
  }

  /** The same, with the high part as a multiple. */
  lemma OrAbove(q: nat, b: nat, k: nat, h: nat)
    requires h == Pow2(k) && b < h
    ensures Or(q * h, b) == q * h + b && Or(b, q * h) == q * h + b
  {
    hide *;
    MultipleMod(q, h);
    OrDisjoint(q * h, b, k);
    OrCommutes(q * h, b);
  }

  lemma MultipleMod(q: nat, d: nat)
    requires d > 0
    ensures (d * q) % d == 0 && (d * q) / d == q
    ensures (q * d) % d == 0 && (q * d) / d == q
  {
    DivModUnique(d * q, d, q, 0);
    DivModUnique(q * d, d, q, 0);
  }

  lemma DivModBasic(x: int, d: int)
    requires d > 0
    ensures x == d * (x / d) + x % d && 0 <= x % d < d
  {
  }

  lemma MulAtLeast(d: int, k: int)
    requires d > 0 && k >= 1
    ensures d * k >= d
  {
  }

  /** Quotient and remainder are determined by the division equation. */
  lemma DivModUnique(x: int, d: int, q: int, r: int)
    requires d > 0 && 0 <= r < d && x == d * q + r
    ensures x / d == q && x % d == r
  {
    DivModBasic(x, d);
    var k := q - x / d;
    assert d * k == d * q - d * (x / d);
    if k >= 1 {
      MulAtLeast(d, k);
    } else if k <= -1 {
      MulAtLeast(d, -k);
    }
  }

  /** Peeling one bit off a division by an even number. */
  lemma DivModDouble(a: nat, h: nat)
    requires h > 0
    ensures a / (2 * h) == a / 2 / h
    ensures a % (2 * h) == 2 * ((a / 2) % h) + a % 2
  {
    DivModBasic(a / 2, h);
    var q, r := a / 2 / h, (a / 2) % h;
    assert (2 * h) * q == 2 * (h * q);
    DivModUnique(a, 2 * h, q, 2 * r + a % 2);
  }

  /** Masking with the low k bits is the remainder modulo 2^k. */
  lemma {:induction false} AndLowMask(a: nat, k: nat)
    ensures And(a, Pow2(k) - 1) == a % Pow2(k)
  {
    if k > 0 {
      AndLowMask(a / 2, k - 1);
      DivModDouble(a, Pow2(k - 1));
    }
  }

  function Shr(a: nat, k: nat): nat {
    DivNonnegative(a, Pow2(k));
    a / Pow2(k)
  }

  lemma ShrIs(a: nat, k: nat)
    ensures Shr(a, k) == a / Pow2(k)
  {
  }

  lemma DivNonnegative(a: nat, d: nat)
    requires d > 0
    ensures a / d >= 0
  {
  }

  /** Shifting a right by k drops a nonzero bit. */
  predicate Loses(a: nat, k: nat) {
    a % Pow2(k) != 0
  }

  lemma ShiftStep(a: nat, k: nat)
    ensures Shr(a, 0) == a && !Loses(a, 0)
    ensures Shr(a, k + 1) == Shr(a, k) / 2
    ensures Loses(a, k + 1) <==> Loses(a, k) || Shr(a, k) % 2 == 1
  {
    DivModSplit(a, Pow2(k), 2);
  }

  /** Masking with a pattern whose low k bits are zero acts on the high part only. */
  lemma {:induction false} AndHighMask(a: nat, mask: nat, m: nat, k: nat)
    requires mask == Pow2(k) * m
    ensures And(a, mask) == Pow2(k) * And(Shr(a, k), m)
  {
    if k > 0 {
      var h := Pow2(k - 1);
      var half := h * m;
      DoubleProduct(h, m);
      assert Shr(a, k) == Shr(a / 2, k - 1) by { DivModDouble(a, h); }
      AndHighMask(a / 2, half, m, k - 1);
      var t := And(Shr(a, k), m);
      DoubleProduct(h, t);
      AndEven(a, half);
    }
  }

  lemma DoubleProduct(h: int, m: int)
    ensures (2 * h) * m == 2 * (h * m)
  {
  }

  lemma AndEven(a: nat, half: nat)
    ensures And(a, 2 * half) == 2 * And(a / 2, half)
  {
    assert (2 * half) / 2 == half && (2 * half) % 2 == 0;
  }

  /** Dividing in two steps. */
  lemma DivModSplit(a: nat, c: nat, d: nat)
    requires c > 0 && d > 0
    ensures c * d > 0 && a / (c * d) == a / c / d
    ensures a % (c * d) == c * (a / c % d) + a % c
  {
    DivModBasic(a, c);
    DivModBasic(a / c, d);
    var q, r, s := a / c / d, a / c % d, a % c;
    SplitEquation(a, c, d, q, r, s);
    DivModUnique(a, c * d, q, c * r + s);
  }

  lemma SplitEquation(a: nat, c: nat, d: nat, q: nat, r: nat, s: nat)
    requires a == c * (d * q + r) + s && s < c && r < d
    ensures c * d > 0 && 0 <= c * r + s < c * d
    ensures a == (c * d) * q + (c * r + s)
  {
    assert c * (d * q + r) == (c * d) * q + c * r;
    assert c * r <= c * (d - 1) == c * d - c;
  }

  /** A mask of two fields selects both. */
  lemma {:induction false} AndSplit(a: nat, high: nat, low: nat, k: nat)
    requires low < Pow2(k)
    ensures And(a, Pow2(k) * high + low) == Pow2(k) * And(Shr(a, k), high) + And(a % Pow2(k), low)
  {
    hide And;
    if k == 0 {
      AndZero(0);
    } else {
      var h := Pow2(k - 1);
      DivModDouble(a, h);
      DoubleProduct(h, high);
      DoubleProduct(h, And(Shr(a, k), high));
      AndSplit(a / 2, high, low / 2, k - 1);
      AndStep(a, Pow2(k) * high + low);
      AndStep(a % Pow2(k), low);
    }
  }

  lemma AndZero(a: nat)
    ensures And(a, 0) == 0 && And(0, a) == 0
  {
  }

  lemma AndStep(a: nat, b: nat)
    ensures And(a, b) == (if a % 2 == 1 && b % 2 == 1 then 1 else 0) + 2 * And(a / 2, b / 2)
  {
  }

  /** Testing one bit. */
  lemma AndBit(a: nat, k: nat)
    ensures And(a, Pow2(k)) == Pow2(k) * (Shr(a, k) % 2)
  {
    AndHighMask(a, Pow2(k), 1, k);
    assert And(Shr(a, k), 1) == Shr(a, k) % 2;
  }

  /** Setting one bit. */
  lemma {:induction false} OrBit(a: nat, k: nat)
    ensures Or(a, Pow2(k)) == if Shr(a, k) % 2 == 1 then a else a + Pow2(k)
  {
    if k == 0 {
      OrOne(a);
    } else {
      DivModDouble(a, Pow2(k - 1));
      OrBit(a / 2, k - 1);
      if a == 0 { DivModUnique(0, Pow2(k), 0, 0); }
    }
  }

  lemma OrIsZero(a: nat, b: nat)
    ensures Or(a, b) == 0 <==> a == 0 && b == 0
  {
  }

  lemma OrCommutes(a: nat, b: nat)
    ensures Or(a, b) == Or(b, a)
  {
  }

  lemma OrOne(a: nat)
    ensures Or(a, 1) == if a % 2 == 1 then a else a + 1
  {
    if a > 0 { OrZero(a / 2); }
  }

  /** The low bits of an exclusive or vanish exactly when the low bits agree. */
  lemma {:induction false} XorLowBits(a: nat, b: nat, k: nat)
    ensures And(Xor(a, b), Pow2(k) - 1) == 0 <==> a % Pow2(k) == b % Pow2(k)
  {
    hide And;
    AndLowMask(Xor(a, b), k);
    XorRemainder(a, b, k);
  }

  lemma {:induction false} XorRemainder(a: nat, b: nat, k: nat)
    ensures Xor(a, b) % Pow2(k) == 0 <==> a % Pow2(k) == b % Pow2(k)
  {
    if k > 0 {
      var h := Pow2(k - 1);
      XorHalves(a, b);
      XorRemainder(a / 2, b / 2, k - 1);
      DivModDouble(a, h);
      DivModDouble(b, h);
      DivModDouble(Xor(a, b), h);
    }
  }

  lemma XorHalves(a: nat, b: nat)
    ensures Xor(a, b) / 2 == Xor(a / 2, b / 2) && Xor(a, b) % 2 == if a % 2 != b % 2 then 1 else 0
  {
    XorZeroLeft(a / 2);
    XorZeroLeft(b / 2);
  }

  lemma XorZeroLeft(a: nat)
    ensures Xor(0, a) == a && Xor(a, 0) == a
  {
  }

  // ----- the masks used as literals in the source -----

  lemma AndMask(a: nat, mask: nat, k: nat)
    requires mask == Pow2(k) - 1
    ensures And(a, mask) == a % Pow2(k)
  {
    AndLowMask(a, k);
  }

  lemma And7(a: nat)
    ensures And(a, 7) == a % 8
  {
    Pow2Values();
    AndMask(a, 7, 3);
  }

  lemma And7f(a: nat)
    ensures And(a, 0x7f) == a % 128
  {
    Pow2Values();
    AndMask(a, 0x7f, 7);
  }

  lemma AndFf(a: nat)
    ensures And(a, 0xff) == a % 256
  {
    Pow2Values();
    AndMask(a, 0xff, 8);
  }

  lemma AndFe(a: nat)
    requires a < 0x100
    ensures And(a, 0xfe) == a - a % 2
  {
    hide And, Pow2;
    Pow2Values();
    AndHighMask(a, 0xfe, 0x7f, 1);
    And7f(a / 2);
  }

  lemma AndSignBit(a: u16)
    ensures And(a, 0x8000) == if a >= 0x8000 then 0x8000 else 0
  {
    Pow2Values();
    AndBit(a, 15);
  }

  lemma OrSign(sign: u16, b: nat)
    requires sign % 0x8000 == 0 && b < 0x8000
    ensures Or(sign, b) == sign + b
  {
    Pow2Values();
    OrDisjoint(sign, b, 15);
  }

  lemma OrHidden(b: nat)
    requires b < 0x80
    ensures Or(b, 0x80) == b + 0x80
  {
    Pow2Values();
    OrDisjoint(0x80, b, 7);
    OrCommutes(0x80, b);
  }

  function Min(a: nat, b: nat): nat { if a < b then a else b }

  /** The value a C cast to a 16-bit unsigned type keeps. */
  function U16(x: int): u16 {
    x % 0x1_0000
  }
}
