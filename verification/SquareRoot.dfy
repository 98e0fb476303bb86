/** scaled_square_root: digit-by-digit integer square root on limbs (sqrt.c). */
module SquareRoot {
  import opened Bits
  import opened Rounding
  import opened Packing
  import opened WideLimbs
  import opened RootRounding

  /** word[k] of the union: limbs seen as 16-bit halves. */
  function Word(limbs: seq<u32>, k: nat): u16
    requires k < 2 * |limbs|
  {
    if k % 2 == 0 then limbs[k / 2] % 0x1_0000 else limbs[k / 2] / 0x1_0000
  }

  function SignificandBit(limbs: seq<u32>, position: int): u16
    requires position < 32 * |limbs|
  {
    if position < 0 then 0 else And(Shr(Word(limbs, position / 16), position % 16), 1)
  }

  // ----- bits of a limb array -----

  lemma {:induction false} ValHead(s: seq<u32>, n: nat)
    requires 1 <= n <= |s|
    ensures Val(s, n) == s[0] + Times(0x1_0000_0000, Val(s[1..], n - 1))
  {
    BaseStep(0);
    if n > 1 {
      ValHead(s, n - 1);
      BaseStep(n - 2);
      HeadDigit(s[n - 1], Val(s[1..], n - 2), Base(n - 2));
    }
  }

  lemma HeadDigit(d: nat, v: nat, B: nat)
    ensures Times(0x1_0000_0000, v + Times(d, B)) == Times(0x1_0000_0000, v) + Times(d, Times(0x1_0000_0000, B))
  {
    assert d * (0x1_0000_0000 * B) == 0x1_0000_0000 * (d * B);
  }

  lemma ShrHead(x: u32, y: nat, k: nat)
    ensures Shr(x + Times(0x1_0000_0000, y), 32 + k) == Shr(y, k)
  {
    Pow2Values();
    Pow2Add(32, k);
    DivModSplit(x + Times(0x1_0000_0000, y), 0x1_0000_0000, Pow2(k));
    DivModUnique(x + Times(0x1_0000_0000, y), 0x1_0000_0000, y, x);
  }

  /** Bits below position n do not depend on what is added from there up. */
  lemma LowPart(x: nat, low: nat, y: nat, n: nat, m: nat)
    requires m < n && x == low + Times(Pow2(n), y)
    ensures Shr(x, m) % 2 == Shr(low, m) % 2
  {
    hide Pow2;
    var f, g := Pow2(m), Pow2(n - m - 1);
    Pow2Add(m, n - m);
    Pow2Step(n - m - 1);
    EvenFactor(Pow2(n), f, g, y);
    LowBitOfSum(low, f, g * y, x);
  }

  lemma EvenFactor(p: nat, f: nat, g: nat, y: nat)
    requires p == f * (2 * g)
    ensures p * y == f * (2 * (g * y))
  {
    MulAssoc(f, 2 * g, y);
    MulAssoc(2, g, y);
  }

  /** Adding an even multiple of f keeps the bit at weight f. */
  lemma LowBitOfSum(x: nat, f: nat, w: nat, sum: nat)
    requires f > 0 && sum == x + f * (2 * w)
    ensures sum / f % 2 == x / f % 2
  {
    DivModBasic(x, f);
    var q := x / f;
    assert f * (q + 2 * w) == f * q + f * (2 * w);
    DivModUnique(sum, f, q + 2 * w, x % f);
  }

  lemma {:induction false} BitOfVal(s: seq<u32>, i: nat, m: nat)
    requires i < |s| && m < 32
    ensures Shr(Val(s, |s|), 32 * i + m) % 2 == Shr(s[i], m) % 2
  {
    ValHead(s, |s|);
    if i == 0 {
      Pow2Values();
      LowPart(Val(s, |s|), s[0], Val(s[1..], |s| - 1), 32, m);
    } else {
      ShrHead(s[0], Val(s[1..], |s| - 1), 32 * (i - 1) + m);
      BitOfVal(s[1..], i - 1, m);
    }
  }

  lemma BitOfHalf(x: u32, m: nat)
    requires m < 16
    ensures Shr(x % 0x1_0000, m) % 2 == Shr(x, m) % 2
    ensures Shr(x / 0x1_0000, m) == Shr(x, 16 + m)
  {
    hide Pow2;
    Pow2Values();
    Pow2Add(16, m);
    DivModSplit(x, 0x1_0000, Pow2(m));
    LowPart(x, x % 0x1_0000, x / 0x1_0000, 16, m);
  }

  lemma SignificandBitMeaning(s: seq<u32>, position: int)
    requires position < 32 * |s|
    ensures SignificandBit(s, position) == if position < 0 then 0 else Shr(Val(s, |s|), position) % 2
  {
    if position >= 0 {
      hide And, Shr, Val;
      var i, h, m := position / 32, position / 16, position % 16;
      HalfIndex(position);
      BitOfVal(s, i, position % 32);
      BitOfHalf(s[i], m);
      AndOne(Shr(Word(s, h), m));
      assert 32 * i + position % 32 == position;
    }
  }

  lemma HalfIndex(position: nat)
    ensures position / 16 / 2 == position / 32
    ensures position / 16 % 2 == 0 ==> position % 32 == position % 16
    ensures position / 16 % 2 == 1 ==> position % 32 == 16 + position % 16
  {
  }

  lemma AndOne(a: nat)
    ensures And(a, 1) == a % 2
  {
    AndLowMask(a, 1);
  }

  lemma ShlBit(S: nat, z: nat, j: nat)
    ensures Shr(Shl(S, z), j) % 2 == if j < z then 0 else Shr(S, j - z) % 2
  {
    hide Pow2;
    if j < z {
      LowPart(Shl(S, z), 0, S, z, j);
      DivModUnique(0, Pow2(j), 0, 0);
    } else {
      Pow2Add(z, j - z);
      DivModSplit(Shl(S, z), Pow2(z), Pow2(j - z));
      DivModUnique(Shl(S, z), Pow2(z), S, 0);
    }
  }

  // ----- the digit recurrence -----

  /** r is the integer square root of n and rem what is left over. */
  predicate IsRoot(r: nat, rem: nat, n: nat) {
    Times(r, r) + rem == n && rem <= 2 * r
  }

  lemma RootStep(r: nat, rem: nat, n: nat, pair: nat)
    requires IsRoot(r, rem, n) && pair <= 3
    ensures 4 * rem + pair >= 4 * r + 1 ==> IsRoot(2 * r + 1, 4 * rem + pair - (4 * r + 1), 4 * n + pair)
    ensures 4 * rem + pair < 4 * r + 1 ==> IsRoot(2 * r, 4 * rem + pair, 4 * n + pair)
  {
    assert (2 * r + 1) * (2 * r + 1) == 4 * (r * r) + 4 * r + 1;
    assert (2 * r) * (2 * r) == 4 * (r * r);
  }

  /** A root below 2^k for a number below 4^k. */
  lemma RootBound(r: nat, rem: nat, n: nat, k: nat)
    requires IsRoot(r, rem, n) && n < Times(Pow2(k), Pow2(k))
    ensures r < Pow2(k)
  {
    if r >= Pow2(k) {
      ProductLe(Pow2(k), r, Pow2(k));
      ProductLe(Pow2(k), r, r);
    }
  }

  /** root and remainder belong to the digits of n above the lowest `pairs` base-four ones. */
  ghost predicate DigitState(n: nat, pairs: nat, root: nat, remainder: nat) {
    IsRoot(root, remainder, Shr(n, 2 * pairs))
  }

  lemma ScaledBound(S: nat, precision: nat)
    requires precision >= 1 && S < Pow2(precision + 1)
    ensures Shl(S, precision - 1) < Pow2(2 * precision)
  {
    Pow2Add(precision + 1, precision - 1);
    ProductOrder(S, Pow2(precision + 1), Pow2(precision - 1));
  }

  lemma StartDigits(n: nat, precision: nat, root: seq<u32>, remainder: seq<u32>, words: nat)
    requires words <= |root| && words <= |remainder| && n < Pow2(2 * precision)
    requires (forall i :: 0 <= i < |root| ==> root[i] == 0) && (forall i :: 0 <= i < |remainder| ==> remainder[i] == 0)
    ensures DigitState(n, precision, Val(root, words), Val(remainder, words))
  {
    ValZero(root, words);
    ValZero(remainder, words);
    DivModUnique(n, Pow2(2 * precision), 0, n);
  }

  /** The two bits fetched are the next base-four digit of the scaled significand. */
  lemma NextPair(s: seq<u32>, z: nat, pair: nat)
    requires 2 * pair + 1 - z < 32 * |s|
    ensures var low, high := SignificandBit(s, 2 * pair - z), SignificandBit(s, 2 * pair + 1 - z);
            && low <= 1 && high <= 1 && Or(low, high * 2) == low + high * 2
            && Shr(Shl(Val(s, |s|), z), 2 * pair) == 4 * Shr(Shl(Val(s, |s|), z), 2 * (pair + 1)) + Or(low, high * 2)
  {
    hide Shr, Shl, SignificandBit;
    var n := Shl(Val(s, |s|), z);
    SignificandBitMeaning(s, 2 * pair - z);
    SignificandBitMeaning(s, 2 * pair + 1 - z);
    ShlBit(Val(s, |s|), z, 2 * pair);
    ShlBit(Val(s, |s|), z, 2 * pair + 1);
    ShiftStep(n, 2 * pair);
    ShiftStep(n, 2 * pair + 1);
    OrPair(SignificandBit(s, 2 * pair - z), SignificandBit(s, 2 * pair + 1 - z));
  }

  lemma OrPair(low: nat, high: nat)
    requires low <= 1 && high <= 1
    ensures Or(low, high * 2) == low + high * 2
  {
    OrDisjoint(high * 2, low, 1);
    OrCommutes(high * 2, low);
  }

  /** No intermediate of the digit step overflows the limbs. */
  lemma DigitRange(n: nat, precision: nat, pair: nat, root: nat, remainder: nat, words: nat)
    requires pair < precision && n < Pow2(2 * precision) && precision + 3 <= 32 * words
    requires DigitState(n, pair + 1, root, remainder)
    ensures 4 * remainder + 3 < Base(words) && 4 * root + 1 < Base(words)
  {
    hide Pow2;
    var k := precision - pair - 1;
    Pow2Add(2 * k, 2 * (pair + 1));
    ShrBelow(n, 2 * (pair + 1), Pow2(2 * k));
    Pow2Add(k, k);
    RootBound(root, remainder, Shr(n, 2 * (pair + 1)), k);
    Pow2Monotone(k, precision);
    Pow2Add(3, precision);
    Pow2Values();
    Pow2Monotone(precision + 3, 32 * words);
  }

  lemma ShrBelow(n: nat, k: nat, m: nat)
    requires n < m * Pow2(k)
    ensures Shr(n, k) < m
  {
    DivModBasic(n, Pow2(k));
    if Shr(n, k) >= m { ProductLe(m, Shr(n, k), Pow2(k)); }
  }

  /** ORing d into low bits that are clear adds it. */
  lemma SetLowBits(s: seq<u32>, words: nat, v: nat, d: nat, k: nat)
    requires 1 <= words <= |s| && d < Pow2(k) && k <= 2 && Val(s, words) == Pow2(k) * v
    ensures Or(s[0], d) < 0x1_0000_0000 && Val(s[0 := Or(s[0], d)], words) == Val(s, words) + d
  {
    hide Or, Val, Base, Times, Pow2;
    Pow2Values();
    ValHead(s, words);
    LowLimbMultiple(s[0], Val(s[1..], words - 1), v, k);
    OrDisjoint(s[0], d, k);
    BaseStep(0);
    var t := s[0 := Or(s[0], d)];
    ValUpdate(s, t, 0, words);
    TimesUnit(t[0]);
    TimesUnit(s[0]);
  }

  lemma LowLimbMultiple(low: u32, rest: nat, v: nat, k: nat)
    requires k <= 2 && low + Times(0x1_0000_0000, rest) == Pow2(k) * v
    ensures low % Pow2(k) == 0 && low <= 0x1_0000_0000 - Pow2(k)
  {
    hide Pow2;
    Pow2Values();
    if k == 1 {
      DivModUnique(low, 2, v - 0x8000_0000 * rest, 0);
    } else if k == 2 {
      DivModUnique(low, 4, v - 0x4000_0000 * rest, 0);
    }
  }

  lemma SetLowTwo(s: seq<u32>, words: nat, v: nat, d: nat)
    requires 1 <= words <= |s| && d <= 3 && Val(s, words) == 4 * v
    ensures Or(s[0], d) < 0x1_0000_0000 && Val(s[0 := Or(s[0], d)], words) == 4 * v + d
  {
    Pow2Values();
    SetLowBits(s, words, v, d, 2);
  }

  lemma SetLowOne(s: seq<u32>, words: nat, v: nat)
    requires 1 <= words <= |s| && Val(s, words) == 2 * v
    ensures Or(s[0], 1) < 0x1_0000_0000 && Val(s[0 := Or(s[0], 1)], words) == 2 * v + 1
  {
    Pow2Values();
    SetLowBits(s, words, v, 1, 1);
  }

  lemma ReduceSmall(x: nat, m: nat)
    requires x < m
    ensures Reduce(x, m) == x
  {
    DivModUnique(x, m, 0, x);
  }

  /** One base-four digit of the root. */
  lemma NextDigit(n: nat, pair: nat, root: nat, remainder: nat, digit: nat)
    requires DigitState(n, pair + 1, root, remainder) && digit <= 3
    requires Shr(n, 2 * pair) == 4 * Shr(n, 2 * (pair + 1)) + digit
    ensures 4 * remainder + digit >= 4 * root + 1 ==> DigitState(n, pair, 2 * root + 1, 4 * remainder + digit - (4 * root + 1))
    ensures 4 * remainder + digit < 4 * root + 1 ==> DigitState(n, pair, 2 * root, 4 * remainder + digit)
  {
    hide Shr, IsRoot;
    RootStep(root, remainder, Shr(n, 2 * (pair + 1)), digit);
  }

  lemma DigitsDone(n: nat, root: nat, remainder: nat)
    requires DigitState(n, 0, root, remainder)
    ensures IsRoot(root, remainder, n)
  {
    ShiftStep(n, 0);
  }

  /** The body of the digit loop once the next pair of bits is fetched. */
  method RootDigit(root: array<u32>, remainder: array<u32>, words: nat, inputPair: nat)
    requires root != remainder && 1 <= words <= root.Length && words <= remainder.Length && inputPair <= 3
    requires 4 * Val(remainder[..], words) + 3 < Base(words) && 4 * Val(root[..], words) + 1 < Base(words)
    modifies root, remainder
    ensures var r, rem := old(Val(root[..], words)), 4 * old(Val(remainder[..], words)) + inputPair;
            if rem >= 4 * r + 1 then Val(root[..], words) == 2 * r + 1 && Val(remainder[..], words) == rem - (4 * r + 1)
            else Val(root[..], words) == 2 * r && Val(remainder[..], words) == rem
  {
    hide *;
    ghost var r, rem := Val(root[..], words), Val(remainder[..], words);
    ShiftLeftTwo(remainder, words);
    ReduceSmall(4 * rem, Base(words));
    SetLowTwo(remainder[..], words, rem, inputPair);
    ghost var before := remainder[..];
    remainder[0] := Or(remainder[0], inputPair);
    ghost var next := before[0 := Or(before[0], inputPair)];
    assert remainder[..] == next;
    ShiftLeftOne(root, words);
    ReduceSmall(2 * r, Base(words));
    ghost var doubled := root[..];

    var trial := new u32[root.Length];
    forall i | 0 <= i < root.Length { trial[i] := root[i]; }
    assert trial[..] == doubled;
    ShiftLeftOne(trial, words);
    ReduceSmall(2 * (2 * r), Base(words));
    SetLowOne(trial[..], words, 2 * r);
    before := trial[..];
    trial[0] := Or(trial[0], 1);
    assert trial[..] == before[0 := Or(before[0], 1)];
    assert remainder[..] == next && root[..] == doubled;
    var comparison := Compare(remainder, trial, words);
    if comparison >= 0 {
      Subtract(remainder, trial, words);
      ReduceSmall(4 * rem + inputPair - (4 * r + 1), Base(words));
      assert root[..] == doubled;
      next := remainder[..];
      Increment(root, words);
      ReduceSmall(2 * r + 1, Base(words));
      assert remainder[..] == next;
    }
  }

  method ScaledSquareRoot(significand: array<u32>, precision: nat, words: nat, root: array<u32>, remainder: array<u32>)
    requires significand != root && significand != remainder && root != remainder
    requires 1 <= words <= root.Length && words <= remainder.Length
    requires 1 <= precision < 32 * significand.Length && precision + 3 <= 32 * words
    requires Val(significand[..], significand.Length) < Pow2(precision + 1)
    modifies root, remainder
    ensures IsRoot(Val(root[..], words), Val(remainder[..], words),
                   Shl(Val(significand[..], significand.Length), precision - 1))
  {
    hide *;
    var zeroBits: int := precision - 1;
    ghost var sig := significand[..];
    ghost var N := Shl(Val(sig, |sig|), precision - 1);
    forall i | 0 <= i < root.Length { root[i] := 0; }
    forall i | 0 <= i < remainder.Length { remainder[i] := 0; }
    ScaledBound(Val(sig, |sig|), precision);
    StartDigits(N, precision, root[..], remainder[..], words);
    var pair: int := precision - 1;
    while pair >= 0
      invariant -1 <= pair < precision
      invariant significand[..] == sig
      invariant DigitState(N, pair + 1, Val(root[..], words), Val(remainder[..], words))
    {
      ghost var r, rem := Val(root[..], words), Val(remainder[..], words);
      var lowPosition := pair * 2;
      NextPair(sig, precision - 1, pair);
      var inputPair := Or(SignificandBit(significand[..], lowPosition - zeroBits),
                          SignificandBit(significand[..], lowPosition + 1 - zeroBits) * 2);
      DigitRange(N, precision, pair, r, rem, words);
      NextDigit(N, pair, r, rem, inputPair);
      RootDigit(root, remainder, words, inputPair);
      pair := pair - 1;
    }
    DigitsDone(N, Val(root[..], words), Val(remainder[..], words));
  }

  // ----- rounding the root -----

  /** What sqrtf and sqrt rely on after the digit loop: rounding up exactly when the
  remainder exceeds the root gives the nearest integer, which still has t+1 bits, so the
  carry test after it never fires. */
  lemma RoundedRoot(h: nat, t: nat, S: nat, root: nat, rem: nat)
    requires h == Pow2(t) && h >= 2 && h <= S < 4 * h && (S >= 2 * h ==> S % 2 == 0)
    requires IsRoot(root, rem, Shl(S, t))
    ensures var s := if rem > root then root + 1 else root;
            && h <= s < 2 * h && NearestInteger(s, Shl(S, t))
            && (s == h ==> Times(s, s) <= Shl(S, t))
  {
    hide Pow2;
    var n := Shl(S, t);
    ShlMeaning(S, t);
    RootRange(h, S, root, rem, n);
    RootSquares(root, rem, n);
    if rem > root && root == 2 * h - 1 {
      RootNoCarry(h, S, root, rem, n);
    }
  }

  lemma RootRange(h: nat, S: nat, root: nat, rem: nat, n: nat)
    requires h <= S < 4 * h && n == S * h && IsRoot(root, rem, n)
    ensures h <= root < 2 * h
  {
    if root < h {
      ProductLe(root + 1, h, root + 1);
      ProductLe(root + 1, h, h);
      ProductLe(h, S, h);
      NextSquare(root);
    }
    if root >= 2 * h {
      ProductLe(2 * h, root, root);
      ProductLe(2 * h, root, 2 * h);
      ProductLe(S, 4 * h - 1, h);
      FourSquares(h);
    }
  }

  lemma NextSquare(r: nat)
    ensures (r + 1) * (r + 1) == r * r + 2 * r + 1
  {
  }

  lemma FourSquares(h: nat)
    ensures (2 * h) * (2 * h) == 4 * (h * h) && (4 * h - 1) * h == 4 * (h * h) - h
    ensures (2 * h - 1) * (2 * h - 1) == 4 * (h * h) - 4 * h + 1
    ensures (4 * h - 2) * h == 4 * (h * h) - 2 * h
  {
  }

  lemma RootNoCarry(h: nat, S: nat, root: nat, rem: nat, n: nat)
    requires h >= 2 && S < 4 * h && S % 2 == 0 && n == S * h && IsRoot(root, rem, n)
    requires root == 2 * h - 1
    ensures rem <= root
  {
    FourSquares(h);
    ProductLe(S, 4 * h - 2, h);
  }

  lemma RootSquares(r: nat, rem: nat, n: nat)
    requires IsRoot(r, rem, n) && r >= 1
    ensures NearestInteger(if rem > r then r + 1 else r, n)
    ensures rem <= r ==> Times(r, r) <= n
  {
    OddSquares(r);
  }

  lemma OddSquares(r: nat)
    requires r >= 1
    ensures Times(2 * r - 1, 2 * r - 1) == 4 * Times(r, r) - 4 * r + 1
    ensures Times(2 * r + 1, 2 * r + 1) == 4 * Times(r, r) + 4 * r + 1
    ensures Times(2 * (r + 1) - 1, 2 * (r + 1) - 1) == 4 * Times(r, r) + 4 * r + 1
    ensures Times(2 * (r + 1) + 1, 2 * (r + 1) + 1) == 4 * Times(r, r) + 12 * r + 9
  {
  }
}
