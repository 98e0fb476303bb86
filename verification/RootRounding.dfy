/** What a correctly rounded square root is (section 5.4.1 of IEEE 754-2019), in integers. */
module RootRounding {
  import opened Bits
  import opened Rounding
  import opened Packing

  /** Pattern q is not a better choice for the square root of x than pattern p: x lies on
  p's side of the square of their midpoint, and p is even if it lies on that square. */
  predicate RootNoBetter(h: nat, p: nat, q: nat, x: nat)
    requires h > 0
  {
    var sum := Mag(h, p) + Mag(h, q);
    && (p < q ==> 4 * x <= Times(sum, sum))
    && (q < p ==> Times(sum, sum) <= 4 * x)
    && (p != q && Times(sum, sum) == 4 * x ==> p % 2 == 0)
  }

  /** Of all patterns, p is nearest to the square root of x, ties to even. */
  ghost predicate NearestRoot(h: nat, p: nat, x: nat)
    requires h > 0
  {
    forall q: nat :: RootNoBetter(h, p, q, x)
  }

  /** The definition agrees with distances to the real square root. */
  lemma NearestRootReal(h: nat, p: nat, q: nat, x: nat, y: real)
    requires h > 0 && NearestRoot(h, p, x) && y >= 0.0 && y * y == x as real
    ensures RealDistance(Mag(h, p), y) <= RealDistance(Mag(h, q), y)
  {
    hide Mag, Times;
    assert RootNoBetter(h, p, q, x);
    MagOrder(h, p, q);
    TimesMeaning(Mag(h, p) + Mag(h, q), Mag(h, p) + Mag(h, q));
    if p != q { RealMidpoint(Mag(h, p), Mag(h, q), x, y); }
  }

  /** x below (above) the square of the midpoint of a and b puts its root below (above) the midpoint. */
  lemma RealMidpoint(a: nat, b: nat, x: nat, y: real)
    requires y >= 0.0 && y * y == x as real
    requires (a < b ==> 4 * x <= (a + b) * (a + b)) && (b < a ==> (a + b) * (a + b) <= 4 * x) && a != b
    ensures RealDistance(a, y) <= RealDistance(b, y)
  {
    var u, v := 2.0 * y, (a + b) as real;
    assert u * u == (4 * x) as real;
    RealSquare(a + b);
    if a < b {
      RealSquareOrder(u, v);
    } else {
      RealSquareOrder(v, u);
    }
  }

  lemma RealSquare(c: nat)
    ensures (c as real) * (c as real) == (c * c) as real
  {
  }

  function RealDistance(m: nat, y: real): real {
    if m as real < y then y - m as real else m as real - y
  }

  lemma RealSquareOrder(u: real, v: real)
    requires u >= 0.0 && v >= 0.0 && u * u <= v * v
    ensures u <= v
  {
    assert (u - v) * (u + v) == u * u - v * v;
    if u > v { RealPositive(u - v, u + v); }
  }

  lemma RealPositive(u: real, v: real)
    requires u > 0.0 && v > 0.0
    ensures u * v > 0.0
  {
  }

  /** The root is unique, so "the" rounded square root is well defined. */
  lemma NearestRootUnique(h: nat, p: nat, q: nat, x: nat)
    requires h > 0 && p <= q && NearestRoot(h, p, x) && NearestRoot(h, q, x)
    ensures p == q
  {
    hide Mag;
    assert RootNoBetter(h, p, q, x) && RootNoBetter(h, q, p, x);
    if p + 1 < q {
      assert RootNoBetter(h, p, p + 1, x) && RootNoBetter(h, q, p + 1, x);
      MagMonotone(h, p, p + 1);
      MagMonotone(h, p + 1, q);
      SquareOrder(Mag(h, p) + Mag(h, p + 1), Mag(h, p) + Mag(h, q));
    }
  }

  lemma SquareOrder(a: nat, b: nat)
    requires a < b
    ensures Times(a, a) < Times(b, b)
  {
    ProductLe(a, b, a);
    ProductOrder(a, b, b);
  }

  lemma SquareLe(a: nat, b: nat)
    requires a <= b
    ensures Times(a, a) <= Times(b, b)
  {
    if a < b { SquareOrder(a, b); }
  }

  /** s is the nearest integer to the square root of n, with no tie. */
  predicate NearestInteger(s: nat, n: nat) {
    s >= 1 && Times(2 * s - 1, 2 * s - 1) < 4 * n < Times(2 * s + 1, 2 * s + 1)
  }

  /** The neighbours decide, as for quotients: x == n * 4^k and s nearest to the root of n. */
  lemma RootByHalfSteps(h: nat, k: nat, s: nat, n: nat, x: nat)
    requires h > 0 && s <= 2 * h && (k == 0 || s >= h) && NearestInteger(s, n) && x == Shl(n, 2 * k)
    requires s == h && k > 0 ==> Times(s, s) <= n
    ensures NearestRoot(h, Pattern(h, k, s), x)
  {
    var p := Pattern(h, k, s);
    forall q: nat ensures RootNoBetter(h, p, q, x) {
      if q > p {
        RootAbove(h, k, s, q, n, x);
      } else if q < p {
        RootBelow(h, k, s, q, n, x);
      }
    }
  }

  /** (c * 2^k)^2 against 4 * n * 4^k is c^2 against 4 * n. */
  lemma ScaledSquare(c: nat, k: nat, n: nat)
    ensures Times(Shl(c, k), Shl(c, k)) < 4 * Shl(n, 2 * k) <==> Times(c, c) < 4 * n
    ensures Times(Shl(c, k), Shl(c, k)) > 4 * Shl(n, 2 * k) <==> Times(c, c) > 4 * n
  {
    ShlTimes(c, Shl(c, k), k);
    ShlTimes(c, c, k);
    ShlShl(Times(c, c), k, k);
    MulAssoc(4, n, Pow2(2 * k));
    ProductOrder(Times(c, c), 4 * n, Pow2(2 * k));
    ProductOrder(4 * n, Times(c, c), Pow2(2 * k));
  }

  lemma ShlAdd(a: nat, b: nat, k: nat)
    ensures Shl(a, k) + Shl(b, k) == Shl(a + b, k)
  {
  }

  lemma RootAbove(h: nat, k: nat, s: nat, q: nat, n: nat, x: nat)
    requires h > 0 && s <= 2 * h && (k == 0 || s >= h) && NearestInteger(s, n) && x == Shl(n, 2 * k)
    requires q > Pattern(h, k, s)
    ensures RootNoBetter(h, Pattern(h, k, s), q, x)
  {
    hide Mag, Pow2, Times, Shl;
    var p := Pattern(h, k, s);
    MagOf(h, k, s);
    NextMag(h, k, s);
    ShlMeaning(s, k);
    ShlMeaning(s + 1, k);
    if q > p + 1 { MagMonotone(h, p + 1, q); }
    ShlAdd(s, s + 1, k);
    SquareLe(Shl(2 * s + 1, k), Mag(h, p) + Mag(h, q));
    ScaledSquare(2 * s + 1, k, n);
  }

  lemma RootBelow(h: nat, k: nat, s: nat, q: nat, n: nat, x: nat)
    requires h > 0 && s <= 2 * h && (k == 0 || s >= h) && NearestInteger(s, n) && x == Shl(n, 2 * k)
    requires s == h && k > 0 ==> Times(s, s) <= n
    requires q < Pattern(h, k, s)
    ensures RootNoBetter(h, Pattern(h, k, s), q, x)
  {
    hide Mag, Pow2, Times, Shl;
    var p := Pattern(h, k, s);
    MagOf(h, k, s);
    ShlMeaning(s, k);
    MagMonotone(h, q, p);
    if s == h && k > 0 {
      ShlAdd(s, s, k);
      SquareOrder(Mag(h, p) + Mag(h, q), Shl(2 * s, k));
      DoubleSquare(s);
      ScaledSquare(2 * s, k, n);
    } else {
      MagOf(h, k, s - 1);
      ShlMeaning(s - 1, k);
      if q < p - 1 { MagMonotone(h, q, p - 1); }
      ShlAdd(s, s - 1, k);
      SquareLe(Mag(h, p) + Mag(h, q), Shl(2 * s - 1, k));
      ScaledSquare(2 * s - 1, k, n);
    }
  }

  lemma DoubleSquare(s: nat)
    ensures Times(2 * s, 2 * s) == 4 * Times(s, s)
  {
  }
}
