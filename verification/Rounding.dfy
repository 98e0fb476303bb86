/** What "correctly rounded" means for a binary format (sections 4.3.1 and 7.4 of IEEE 754-2019).

A magnitude pattern is the exponent field followed by the fraction field, read as one
natural number.  `h` is the weight of the exponent field: 2^23 for binary32, 2^52 for
binary64.  Magnitudes are measured in units of the smallest subnormal, so every pattern
denotes a natural number and every exact result is a fraction num/den of such units. */
module Rounding {
  import opened Bits

  /** The magnitude of a pattern, with an exponent field of unbounded width. */
  function Mag(h: nat, p: nat): nat
    requires h > 0
  {
    if p < h then p else (h + p % h) * Pow2(p / h - 1)
  }

  function Abs(x: int): nat {
    if x < 0 then -x else x
  }

  function Dist(h: nat, p: nat, num: nat, den: nat): nat
    requires h > 0
  {
    Abs(Mag(h, p) * den - num)
  }

  /** Pattern q is not a better choice for num/den than pattern p. */
  ghost predicate NoBetter(h: nat, p: nat, q: nat, num: nat, den: nat)
    requires h > 0
  {
    && Dist(h, p, num, den) <= Dist(h, q, num, den)
    && (Dist(h, p, num, den) == Dist(h, q, num, den) && p != q ==> p % 2 == 0)
  }

  /** Of all patterns, p is nearest to num/den, and it is even when there is a tie. */
  ghost predicate NearestEven(h: nat, p: nat, num: nat, den: nat)
    requires h > 0
  {
    forall q: nat :: NoBetter(h, p, q, num, den)
  }

  // ----- the order of magnitudes -----

  /** A pattern split as k*h + s: the usual form has h <= s < 2h, a subnormal has
  k == 0 and s < h, and s == 2h is what a carry out of rounding leaves. */
  function Pattern(h: nat, k: nat, s: nat): nat {
    Nonnegative(k, h);
    k * h + s
  }

  lemma Nonnegative(a: nat, b: nat)
    ensures a * b >= 0
  {
  }

  lemma NotPositive(a: nat, b: int)
    requires b <= 0
    ensures a * b <= 0
  {
  }

  lemma NextMultiple(h: nat, k: nat)
    ensures h * (k + 1) == k * h + h
  {
  }

  lemma PatternFields(h: nat, p: nat, e: nat, f: nat)
    requires 0 <= f < h && e >= 1 && p == h * e + f
    ensures Mag(h, p) == (h + f) * Pow2(e - 1)
  {
    DivModUnique(p, h, e, f);
    MulAtLeast(h, e);
  }

  lemma MagOf(h: nat, k: nat, s: nat)
    requires h > 0 && s <= 2 * h && (k == 0 || s >= h)
    ensures Mag(h, Pattern(h, k, s)) == s * Pow2(k)
  {
    if h <= s < 2 * h {
      NextMultiple(h, k);
      PatternFields(h, Pattern(h, k, s), k + 1, s - h);
    } else if s == 2 * h {
      MagOfCarry(h, k);
    }
  }

  lemma MagOfCarry(h: nat, k: nat)
    requires h > 0
    ensures Mag(h, Pattern(h, k, 2 * h)) == 2 * h * Pow2(k)
  {
    NextMultiple(h, k);
    NextMultiple(h, k + 1);
    assert Pattern(h, k, 2 * h) == h * (k + 2) + 0;
    PatternFields(h, Pattern(h, k, 2 * h), k + 2, 0);
    DoubleProduct(h, Pow2(k));
    MulAssoc(h, 2, Pow2(k));
  }

  lemma MagSplit(h: nat, p: nat) returns (k: nat, s: nat)
    requires h > 0
    ensures s < 2 * h && (k == 0 || s >= h)
    ensures p == Pattern(h, k, s) && Mag(h, p) == s * Pow2(k)
  {
    if p < h {
      k, s := 0, p;
    } else {
      DivModBasic(p, h);
      DivAtLeastOne(p, h);
      k, s := p / h - 1, h + p % h;
      NextMultiple(h, k);
    }
  }

  lemma DivAtLeastOne(p: nat, h: nat)
    requires 0 < h <= p
    ensures p / h >= 1
  {
    DivModBasic(p, h);
    if p / h <= 0 { NotPositive(h, p / h); }
  }

  lemma MagZero(h: nat)
    requires h > 0
    ensures Mag(h, 0) == 0
  {
  }

  lemma MagFirstNormal(h: nat)
    requires h > 0
    ensures Mag(h, h) == h
  {
    hide Mag;
    MagOf(h, 0, h);
  }

  lemma MagStep(h: nat, p: nat)
    requires h > 0
    ensures Mag(h, p) < Mag(h, p + 1)
  {
    hide Mag, Pow2;
    var k, s := MagSplit(h, p);
    MagOf(h, k, s + 1);
    NextMultiple(Pow2(k), s);
  }

  lemma {:induction false} MagMonotone(h: nat, p: nat, q: nat)
    requires h > 0 && p < q
    ensures Mag(h, p) < Mag(h, q)
  {
    MagStep(h, q - 1);
    if p < q - 1 { MagMonotone(h, p, q - 1); }
  }

  /** The order of patterns is the order of magnitudes. */
  lemma MagOrder(h: nat, p: nat, q: nat)
    requires h > 0
    ensures p < q <==> Mag(h, p) < Mag(h, q)
    ensures p == q <==> Mag(h, p) == Mag(h, q)
  {
    if p < q { MagMonotone(h, p, q); } else if q < p { MagMonotone(h, q, p); }
  }

  // ----- facts about NearestEven -----

  lemma ProductOrder(a: int, b: int, d: int)
    requires d > 0
    ensures a < b <==> a * d < b * d
    ensures a == b <==> a * d == b * d
  {
    if a < b { MulAtLeast(d, b - a); assert d * (b - a) == b * d - a * d; }
    if b < a { MulAtLeast(d, a - b); assert d * (a - b) == a * d - b * d; }
  }

  /** At most one pattern is nearest with ties to even. */
  lemma NearestUnique(h: nat, p: nat, q: nat, num: nat, den: nat)
    requires h > 0 && den > 0
    requires NearestEven(h, p, num, den) && NearestEven(h, q, num, den)
    ensures p == q
  {
    if p < q {
      NearestNotBelow(h, p, q, num, den);
    } else if q < p {
      NearestNotBelow(h, q, p, num, den);
    }
  }

  lemma NearestNotBelow(h: nat, p: nat, q: nat, num: nat, den: nat)
    requires h > 0 && den > 0 && p <= q
    requires NearestEven(h, p, num, den) && NearestEven(h, q, num, den)
    ensures p == q
  {
    assert NoBetter(h, p, q, num, den) && NoBetter(h, q, p, num, den);
    if p + 1 < q {
      // a pattern strictly between two equidistant ones would be nearer
      var m := p + 1;
      assert NoBetter(h, p, m, num, den);
      MagMonotone(h, p, m);
      MagMonotone(h, m, q);
      ProductOrder(Mag(h, p), Mag(h, m), den);
      ProductOrder(Mag(h, m), Mag(h, q), den);
    }
  }

  /** A value that is representable rounds to itself. */
  lemma NearestExact(h: nat, p: nat, num: nat, den: nat)
    requires h > 0 && den > 0 && num == Mag(h, p) * den
    ensures NearestEven(h, p, num, den)
  {
    forall q: nat ensures NoBetter(h, p, q, num, den) {
      MagOrder(h, p, q);
      ProductOrder(Mag(h, p), Mag(h, q), den);
    }
  }

  /** Only the ratio num/den matters. */
  lemma NearestSameRatio(h: nat, p: nat, num: nat, den: nat, num': nat, den': nat)
    requires h > 0 && den > 0 && den' > 0 && num * den' == num' * den
    requires NearestEven(h, p, num, den)
    ensures NearestEven(h, p, num', den')
  {
    forall q: nat ensures NoBetter(h, p, q, num', den') {
      assert NoBetter(h, p, q, num, den);
      DistScale(h, p, num, den, num', den');
      DistScale(h, q, num, den, num', den');
      var a, b, a', b' := Dist(h, p, num, den), Dist(h, q, num, den), Dist(h, p, num', den'), Dist(h, q, num', den');
      ProductOrder(b, a, den');
      ProductOrder(b', a', den);
    }
  }

  lemma DistScale(h: nat, p: nat, num: nat, den: nat, num': nat, den': nat)
    requires h > 0 && num * den' == num' * den
    ensures Dist(h, p, num, den) * den' == Dist(h, p, num', den') * den
  {
    var m := Mag(h, p);
    var x, y := m * den - num, m * den' - num';
    assert x * den' == m * den * den' - num * den';
    assert y * den == m * den' * den - num' * den;
    assert m * den * den' == m * den' * den;
    assert (-x) * den' == -(x * den') && (-y) * den == -(y * den);
    SameSign(x, den', y, den);
  }

  lemma SameSign(x: int, d: nat, y: int, e: nat)
    requires x * d == y * e && (-x) * d == (-y) * e
    ensures Abs(x) * d == Abs(y) * e
  {
    if x < 0 && y > 0 {
      assert x * d <= 0 && y * e >= 0;
    }
    if x > 0 && y < 0 {
      assert x * d >= 0 && y * e <= 0;
    }
  }

  /** Rounding does not pass a representable bound. */
  lemma NearestNotAbove(h: nat, p: nat, q: nat, num: nat, den: nat)
    requires h > 0 && den > 0 && NearestEven(h, p, num, den) && num <= Mag(h, q) * den
    ensures p <= q
  {
    assert NoBetter(h, p, q, num, den);
    if p > q {
      MagMonotone(h, q, p);
      ProductOrder(Mag(h, q), Mag(h, p), den);
    }
  }

  /** At most half of the smallest positive magnitude rounds to zero. */
  lemma NearestZero(h: nat, num: nat, den: nat)
    requires h > 0 && den > 0 && 2 * num <= den
    ensures NearestEven(h, 0, num, den)
  {
    forall q: nat ensures NoBetter(h, 0, q, num, den) {
      MagZero(h);
      if q > 0 {
        MagMonotone(h, 0, q);
        ProductLe(1, Mag(h, q), den);
      }
    }
  }

  /** Twice a representable magnitude is representable when exponents are unbounded. */
  lemma MagDouble(h: nat, p: nat) returns (q: nat)
    requires h > 0
    ensures Mag(h, q) == 2 * Mag(h, p) && p <= q
  {
    hide *;
    var k, s := MagSplit(h, p);
    if s < h {
      q := Pattern(h, 0, 2 * s);
      PatternZero(h, s);
      PatternZero(h, 2 * s);
      MagOf(h, 0, 2 * s);
    } else {
      q := Pattern(h, k + 1, s);
      PatternUp(h, k, s);
      MagOf(h, k + 1, s);
    }
    DoubledPower(s, k);
  }

  lemma PatternZero(h: nat, s: nat)
    ensures Pattern(h, 0, s) == s
  {
  }

  lemma PatternUp(h: nat, k: nat, s: nat)
    ensures Pattern(h, k + 1, s) == Pattern(h, k, s) + h
  {
    NextMultiple(h, k);
  }

  lemma DoubledPower(s: nat, k: nat)
    ensures s * Pow2(k + 1) == 2 * (s * Pow2(k)) && 2 * s * Pow2(k) == 2 * (s * Pow2(k))
  {
    MulAssoc(s, 2, Pow2(k));
  }

  lemma {:induction false} MagShiftUp(h: nat, p: nat, j: nat) returns (q: nat)
    requires h > 0
    ensures Mag(h, q) == Mag(h, p) * Pow2(j) && p <= q
  {
    hide Mag;
    if j == 0 {
      q := p;
    } else {
      var q' := MagShiftUp(h, p, j - 1);
      q := MagDouble(h, q');
      MulAssoc(Mag(h, p), 2, Pow2(j - 1));
    }
  }

  /** The neighbours decide: it is enough to be within half a step of num/den on both
  sides, and below a power of two, where the step halves, not to exceed num/den. */
  lemma NearestByHalfSteps(h: nat, k: nat, s: nat, num: nat, den: nat)
    requires h > 0 && h % 2 == 0 && s <= 2 * h && (k == 0 || s >= h) && den > 0
    requires WithinHalfStep(s, num, Pow2(k) * den)
    requires s == h && k > 0 ==> s * (Pow2(k) * den) <= num
    ensures NearestEven(h, Pattern(h, k, s), num, den)
  {
    var p, g := Pattern(h, k, s), Pow2(k) * den;
    forall q: nat ensures NoBetter(h, p, q, num, den) {
      EvenMultiple(h, k, s);
      if q > p {
        UpperDistance(h, k, s, q, den);
        Nearer(Mag(h, p) * den, Mag(h, q) * den, num, g, s);
      } else if q < p {
        LowerDistance(h, k, s, q, den);
        if s == h && k > 0 {
        } else {
          Nearer(Mag(h, p) * den, Mag(h, q) * den, num, g, s);
        }
      }
    }
  }

  /** num is within half of g of s*g, and s is even if it is exactly half. */
  ghost predicate WithinHalfStep(s: nat, num: nat, g: nat) {
    && 2 * num <= 2 * (s * g) + g && (2 * num == 2 * (s * g) + g ==> s % 2 == 0)
    && 2 * (s * g) - g <= 2 * num && (2 * num == 2 * (s * g) - g ==> s % 2 == 0)
  }

  lemma Nearer(m: int, other: int, num: int, g: nat, s: nat)
    requires 2 * num <= 2 * m + g && (2 * num == 2 * m + g ==> s % 2 == 0)
    requires 2 * m - g <= 2 * num && (2 * num == 2 * m - g ==> s % 2 == 0)
    requires other >= m + g || other <= m - g
    ensures Abs(m - num) <= Abs(other - num)
    ensures Abs(m - num) == Abs(other - num) ==> s % 2 == 0 || g == 0
  {
  }

  lemma UpperDistance(h: nat, k: nat, s: nat, q: nat, den: nat)
    requires h > 0 && s <= 2 * h && (k == 0 || s >= h)
    requires q > Pattern(h, k, s)
    ensures Mag(h, Pattern(h, k, s)) * den == s * (Pow2(k) * den)
    ensures Mag(h, q) * den >= s * (Pow2(k) * den) + Pow2(k) * den
  {
    var p := Pattern(h, k, s);
    MagOf(h, k, s);
    MulAssoc(s, Pow2(k), den);
    NextMag(h, k, s);
    if q > p + 1 { MagMonotone(h, p + 1, q); }
    ScaledStep(s, Pow2(k), (s + 1) * Pow2(k), den);
    ProductLe((s + 1) * Pow2(k), Mag(h, q), den);
  }

  lemma ScaledStep(s: int, u: nat, next: int, den: nat)
    requires next == (s + 1) * u
    ensures next * den == s * (u * den) + u * den
  {
    MulAssoc(s + 1, u, den);
    var g := u * den;
    assert (s + 1) * g == s * g + g;
  }

  lemma LowerDistance(h: nat, k: nat, s: nat, q: nat, den: nat)
    requires h > 0 && s <= 2 * h && (k == 0 || s >= h) && den > 0
    requires q < Pattern(h, k, s)
    ensures Mag(h, Pattern(h, k, s)) * den == s * (Pow2(k) * den)
    ensures Mag(h, q) * den < s * (Pow2(k) * den)
    ensures !(s == h && k > 0) ==> Mag(h, q) * den <= s * (Pow2(k) * den) - Pow2(k) * den
  {
    var p := Pattern(h, k, s);
    MagOf(h, k, s);
    MulAssoc(s, Pow2(k), den);
    MagMonotone(h, q, p);
    ProductOrder(Mag(h, q), Mag(h, p), den);
    if !(s == h && k > 0) {
      MagOf(h, k, s - 1);
      if q < p - 1 { MagMonotone(h, q, p - 1); }
      ScaledStep(s - 1, Pow2(k), s * Pow2(k), den);
      MulAssoc(s - 1, Pow2(k), den);
      ProductLe(Mag(h, q), (s - 1) * Pow2(k), den);
    }
  }

  lemma MulAssoc(a: int, b: int, c: int)
    ensures a * b * c == a * (b * c)
  {
  }

  lemma EvenMultiple(h: nat, k: nat, s: nat)
    requires h % 2 == 0
    ensures Pattern(h, k, s) % 2 == s % 2
  {
    var i := h / 2;
    assert k * h == 2 * (k * i);
  }

  lemma ProductLe(a: int, b: int, d: nat)
    requires a <= b
    ensures a * d <= b * d
  {
    if a < b && d > 0 { ProductOrder(a, b, d); }
  }

  lemma NextMag(h: nat, k: nat, s: nat)
    requires h > 0 && s <= 2 * h && (k == 0 || s >= h)
    ensures Mag(h, Pattern(h, k, s) + 1) >= (s + 1) * Pow2(k)
  {
    if s < 2 * h {
      MagOf(h, k, s + 1);
    } else {
      MagOf(h, k + 1, h + 1);
      NextMultiple(h, k);
      MulAssoc(h + 1, 2, Pow2(k));
      ProductLe(s + 1, (h + 1) * 2, Pow2(k));
    }
  }
}
