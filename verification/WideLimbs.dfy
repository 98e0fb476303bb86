/** Multi-limb unsigned arithmetic updated in place (rc32/libm_wide.c): little-endian
arrays of 32-bit limbs, and the natural numbers they denote. */
module WideLimbs {
  import opened Bits
  import opened Rounding
  import opened Packing

  /** Weight of limb i. */
  function Base(i: nat): (b: nat)
    ensures b > 0
  {
    Pow2(32 * i)
  }

  /** The number held by the first n limbs. */
  function Val(limbs: seq<u32>, n: nat): nat
    requires n <= |limbs|
  {
    if n == 0 then 0 else Val(limbs, n - 1) + Times(limbs[n - 1], Base(n - 1))
  }

  lemma BaseStep(i: nat)
    ensures Base(0) == 1 && Base(i + 1) == Times(0x1_0000_0000, Base(i))
  {
    Pow2Values();
    Pow2Add(32, 32 * i);
  }

  lemma {:induction false} ValBound(s: seq<u32>, n: nat)
    requires n <= |s|
    ensures Val(s, n) < Base(n)
  {
    if n == 0 {
      BaseStep(0);
    } else {
      ValBound(s, n - 1);
      BaseStep(n - 1);
      ProductLe(s[n - 1], 0xffff_ffff, Base(n - 1));
    }
  }

  /** Only the first n limbs matter. */
  lemma {:induction false} ValSame(s: seq<u32>, t: seq<u32>, n: nat)
    requires n <= |s| && n <= |t| && (forall i :: 0 <= i < n ==> s[i] == t[i])
    ensures Val(s, n) == Val(t, n)
  {
    if n > 0 { ValSame(s, t, n - 1); }
  }

  lemma {:induction false} ValZero(s: seq<u32>, n: nat)
    requires n <= |s|
    ensures Val(s, n) == 0 <==> forall i :: 0 <= i < n ==> s[i] == 0
  {
    if n > 0 {
      ValZero(s, n - 1);
      if s[n - 1] > 0 { ProductLe(1, s[n - 1], Base(n - 1)); }
    }
  }

  /** The highest differing limb decides. */
  lemma {:induction false} ValOrder(s: seq<u32>, t: seq<u32>, n: nat, k: nat)
    requires k < n <= |s| && n <= |t| && s[k] < t[k]
    requires forall i :: k < i < n ==> s[i] == t[i]
    ensures Val(s, n) < Val(t, n)
  {
    if k < n - 1 {
      ValOrder(s, t, n - 1, k);
    } else {
      ValBound(s, k);
      DigitOrder(Val(s, k), s[k], Val(t, k), t[k], Base(k));
    }
  }

  lemma DigitOrder(x: nat, a: nat, y: nat, b: nat, m: nat)
    requires x < m && a < b
    ensures x + Times(a, m) < y + Times(b, m)
  {
    ProductLe(a + 1, b, m);
    NextMultiple(m, a);
  }

  method Compare(left: array<u32>, right: array<u32>, count: nat) returns (r: int)
    requires count <= left.Length && count <= right.Length
    ensures r < 0 <==> Val(left[..], count) < Val(right[..], count)
    ensures r == 0 <==> Val(left[..], count) == Val(right[..], count)
  {
    hide *;
    var words := count;
    while words > 0
      invariant 0 <= words <= count
      invariant forall i :: words <= i < count ==> left[i] == right[i]
    {
      words := words - 1;
      if left[words] != right[words] {
        if left[words] < right[words] {
          ValOrder(left[..], right[..], count, words);
          return -1;
        } else {
          ValOrder(right[..], left[..], count, words);
          return 1;
        }
      }
    }
    ValSame(left[..], right[..], count);
    return 0;
  }

  method IsZero(value: array<u32>, words: nat) returns (r: bool)
    requires words <= value.Length
    ensures r <==> Val(value[..], words) == 0
  {
    hide *;
    ValZero(value[..], words);
    for i := 0 to words
      invariant forall j :: 0 <= j < i ==> value[j] == 0
    {
      if value[i] != 0 {
        return false;
      }
    }
    return true;
  }

  /** The number an n-limb result keeps of x. */
  function Reduce(x: int, m: nat): int
    requires m > 0
  {
    x % m
  }

  /** Replacing one limb. */
  lemma {:induction false} ValUpdate(s: seq<u32>, t: seq<u32>, i: nat, n: nat)
    requires i < n <= |s| == |t| && t == s[i := t[i]]
    ensures Val(t, n) - Times(t[i], Base(i)) == Val(s, n) - Times(s[i], Base(i))
  {
    if i == n - 1 {
      ValSame(s, t, i);
    } else {
      ValUpdate(s, t, i, n - 1);
    }
  }

  method Increment(value: array<u32>, words: nat)
    requires words <= value.Length
    modifies value
    ensures Val(value[..], words) == Reduce(old(Val(value[..], words)) + 1, Base(words))
    ensures value[words..] == old(value[words..])
  {
    hide *;
    ghost var start := value[..];
    BaseStep(0);
    ValBound(start, words);
    var i := 0;
    while i != words
      invariant 0 <= i <= words
      invariant forall j :: i <= j < value.Length ==> value[j] == start[j]
      invariant Val(value[..], i) + Base(i) == Val(start, i) + 1
    {
      ghost var before := value[..];
      value[i] := if value[i] == 0xffff_ffff then 0 else value[i] + 1;
      IncrementStep(before, value[..], start, i, words);
      if value[i] != 0 {
        return;
      }
      i := i + 1;
    }
    ValBound(value[..], words);
    ReduceOnce(Val(start, words) + 1, Base(words), Val(value[..], words));
  }

  lemma ReduceOnce(x: nat, m: nat, r: nat)
    requires m > 0 && r < m && (x == r || x == r + m)
    ensures Reduce(x, m) == r
  {
    DivModUnique(x, m, if x == r then 0 else 1, r);
  }

  lemma IncrementStep(before: seq<u32>, after: seq<u32>, start: seq<u32>, i: nat, words: nat)
    requires i < words <= |before| == |after| == |start|
    requires start[i] == before[i] && after == before[i := if before[i] == 0xffff_ffff then 0 else before[i] + 1]
    requires forall j :: i <= j < |before| ==> before[j] == start[j]
    requires Val(before, i) + Base(i) == Val(start, i) + 1
    ensures after[i] == 0 ==> Val(after, i + 1) + Base(i + 1) == Val(start, i + 1) + 1
    ensures after[i] != 0 ==> Val(after, words) == Reduce(Val(start, words) + 1, Base(words))
  {
    hide Base, Reduce;
    ValSame(before, after, i);
    BaseStep(i);
    NextMultiple(Base(i), start[i]);
    if after[i] != 0 {
      SameAbove(after, start, i + 1, words, 1);
      ValBound(after, words);
      ReduceOnce(Val(start, words) + 1, Base(words), Val(after, words));
    }
  }

  /** Equal higher limbs carry a difference up unchanged. */
  lemma {:induction false} SameAbove(s: seq<u32>, t: seq<u32>, k: nat, n: nat, d: int)
    requires k <= n <= |s| && n <= |t| && (forall i :: k <= i < n ==> s[i] == t[i])
    requires Val(s, k) == Val(t, k) + d
    ensures Val(s, n) == Val(t, n) + d
  {
    if k < n { SameAbove(s, t, k, n - 1, d); }
  }

  /** The value a 32-bit unsigned expression keeps. */
  function U32(x: int): u32 {
    x % 0x1_0000_0000
  }

  /** (current << 1) | (previous >> 31) */
  function LimbShiftOne(current: u32, previous: u32): (r: u32)
    ensures r + current / 0x8000_0000 * 0x1_0000_0000 == 2 * current + previous / 0x8000_0000
  {
    ShiftedLimb(current, previous, 2, 0x8000_0000, 1);
    Or(U32(current * 2), previous / 0x8000_0000)
  }

  /** (current << 2) | (previous >> 30) */
  function LimbShiftTwo(current: u32, previous: u32): (r: u32)
    ensures r + current / 0x4000_0000 * 0x1_0000_0000 == 4 * current + previous / 0x4000_0000
  {
    ShiftedLimb(current, previous, 4, 0x4000_0000, 2);
    Or(U32(current * 4), previous / 0x4000_0000)
  }

  /** (current >> 1) | (previous << 31) */
  function LimbShiftRight(current: u32, previous: u32): (r: u32)
    ensures Halves(r, current, previous % 2)
  {
    HalvedLimb(current, previous);
    Or(current / 2, U32(previous * 0x8000_0000))
  }

  method ShiftLeftOne(value: array<u32>, words: nat)
    requires words <= value.Length
    modifies value
    ensures Val(value[..], words) == Reduce(2 * old(Val(value[..], words)), Base(words))
    ensures value[words..] == old(value[words..])
  {
    hide *;
    ghost var start := value[..];
    var previous: u32 := 0;
    ShiftStart(start);
    for i := 0 to words
      invariant forall j :: i <= j < value.Length ==> value[j] == start[j]
      invariant Val(value[..], i) + Times(previous / 0x8000_0000, Base(i)) == Times(2, Val(start, i))
    {
      var current := value[i];
      ghost var before := value[..];
      value[i] := LimbShiftOne(current, previous);
      ShiftLeftStep(before, value[..], start, i, 2, previous / 0x8000_0000, current / 0x8000_0000);
      previous := current;
    }
    ValBound(value[..], words);
    ReduceShifted(Times(2, Val(start, words)), Base(words), previous / 0x8000_0000, Val(value[..], words));
    TimesMeaning(2, Val(start, words));
  }

  method ShiftLeftTwo(value: array<u32>, words: nat)
    requires words <= value.Length
    modifies value
    ensures Val(value[..], words) == Reduce(4 * old(Val(value[..], words)), Base(words))
    ensures value[words..] == old(value[words..])
  {
    hide *;
    ghost var start := value[..];
    var previous: u32 := 0;
    ShiftStart(start);
    for i := 0 to words
      invariant forall j :: i <= j < value.Length ==> value[j] == start[j]
      invariant Val(value[..], i) + Times(previous / 0x4000_0000, Base(i)) == Times(4, Val(start, i))
    {
      var current := value[i];
      ghost var before := value[..];
      value[i] := LimbShiftTwo(current, previous);
      ShiftLeftStep(before, value[..], start, i, 4, previous / 0x4000_0000, current / 0x4000_0000);
      previous := current;
    }
    ValBound(value[..], words);
    ReduceShifted(Times(4, Val(start, words)), Base(words), previous / 0x4000_0000, Val(value[..], words));
    TimesMeaning(4, Val(start, words));
  }

  lemma ShiftStart(s: seq<u32>)
    ensures Val(s, 0) == 0 && Times(0, Base(0)) == 0 && Times(2, 0) == 0 && Times(4, 0) == 0
  {
  }

  /** One limb of a left shift by k bits, where factor == 2^k and top == 2^(32-k). */
  lemma ShiftedLimb(current: u32, previous: u32, factor: nat, top: nat, k: nat)
    requires (k == 1 && factor == 2 && top == 0x8000_0000) || (k == 2 && factor == 4 && top == 0x4000_0000)
    ensures 0 <= previous / top < factor && 0 <= current / top < factor
    ensures Or(U32(current * factor), previous / top) < 0x1_0000_0000
    ensures Or(U32(current * factor), previous / top) + current / top * 0x1_0000_0000 == factor * current + previous / top
  {
    hide *;
    Pow2Values();
    Halved(current, top, factor);
    Halved(previous, top, factor);
    OrAbove(current % top, previous / top, k, factor);
    Reduced(current * factor, current / top, current % top * factor);
  }

  lemma Reduced(x: int, q: int, r: u32)
    requires x == 0x1_0000_0000 * q + r
    ensures U32(x) == r
  {
    DivModUnique(x, 0x1_0000_0000, q, r);
  }

  lemma Halved(x: u32, top: nat, factor: nat)
    requires (factor == 2 && top == 0x8000_0000) || (factor == 4 && top == 0x4000_0000)
    ensures 0 <= x / top < factor && 0 <= x % top < top && x == top * (x / top) + x % top
  {
  }

  lemma ShiftLeftStep(before: seq<u32>, after: seq<u32>, start: seq<u32>, i: nat, factor: nat, carry: nat, carry': nat)
    requires i < |before| == |after| == |start| && before[i] == start[i] && after == before[i := after[i]]
    requires after[i] + carry' * 0x1_0000_0000 == factor * start[i] + carry
    requires Val(before, i) + Times(carry, Base(i)) == Times(factor, Val(start, i))
    ensures Val(after, i + 1) + Times(carry', Base(i + 1)) == Times(factor, Val(start, i + 1))
  {
    hide Base;
    ValSame(before, after, i);
    BaseStep(i);
    ShiftLeftDigits(Val(before, i), after[i], carry, carry', factor, Val(start, i), start[i], Base(i));
  }

  lemma ShiftLeftDigits(x: nat, d: nat, carry: nat, carry': nat, factor: nat, v: nat, c: nat, B: nat)
    requires d + carry' * 0x1_0000_0000 == factor * c + carry
    requires x + Times(carry, B) == Times(factor, v)
    ensures x + Times(d, B) + Times(carry', Times(0x1_0000_0000, B)) == Times(factor, v + Times(c, B))
  {
    assert (d + carry' * 0x1_0000_0000) * B == d * B + carry' * (0x1_0000_0000 * B);
    assert (factor * c + carry) * B == factor * (c * B) + carry * B;
  }

  lemma ReduceShifted(x: nat, m: nat, carry: nat, r: nat)
    requires m > 0 && r < m && r + Times(carry, m) == x
    ensures Reduce(x, m) == r
  {
    DivModUnique(x, m, carry, r);
  }

  method ShiftRightOne(value: array<u32>, count: nat)
    requires count <= value.Length
    modifies value
    ensures Val(value[..], count) == old(Val(value[..], count)) / 2
    ensures value[count..] == old(value[count..])
  {
    hide *;
    ghost var start := value[..];
    var previous: u32 := 0;
    var words := count;
    ShiftStart(start);
    TimesZeroLeft(Base(count));
    while words > 0
      invariant 0 <= words <= count
      invariant forall j :: 0 <= j < words || count <= j < value.Length ==> value[j] == start[j]
      invariant 2 * (Val(value[..], count) - Val(start, words)) + Times(previous % 2, Base(words))
             == Val(start, count) - Val(start, words)
    {
      words := words - 1;
      var current := value[words];
      ghost var before := value[..];
      value[words] := LimbShiftRight(current, previous);
      ShiftRightStep(before, value[..], start, words, count, previous % 2);
      previous := current;
    }
    BaseStep(0);
    TimesMeaning(previous % 2, 1);
  }

  lemma TimesZeroLeft(m: nat)
    ensures Times(0, m) == 0
  {
  }

  lemma HalvedLimb(current: u32, previous: u32)
    ensures Or(current / 2, U32(previous * 0x8000_0000)) < 0x1_0000_0000
    ensures 2 * Or(current / 2, U32(previous * 0x8000_0000)) + current % 2 == current + previous % 2 * 0x1_0000_0000
  {
    hide Or;
    var high := previous % 2 * 0x8000_0000;
    assert U32(previous * 0x8000_0000) == high by {
      DivModUnique(previous * 0x8000_0000, 0x1_0000_0000, previous / 2, high);
    }
    Pow2Values();
    assert Pow2(31) == 0x8000_0000;
    OrDisjoint(high, current / 2, 31);
    OrCommutes(high, current / 2);
  }

  predicate Halves(d: int, c: int, bit: int) {
    2 * d + c % 2 == c + bit * 0x1_0000_0000
  }

  lemma ShiftRightStep(before: seq<u32>, after: seq<u32>, start: seq<u32>, k: nat, n: nat, bit: nat)
    requires k < n <= |before| == |after| == |start| && before[k] == start[k] && after == before[k := after[k]]
    requires Halves(after[k], start[k], bit)
    requires 2 * (Val(before, n) - Val(start, k + 1)) + Times(bit, Base(k + 1)) == Val(start, n) - Val(start, k + 1)
    ensures 2 * (Val(after, n) - Val(start, k)) + Times(start[k] % 2, Base(k)) == Val(start, n) - Val(start, k)
  {
    hide Base;
    ValUpdate(before, after, k, n);
    BaseStep(k);
    ShiftRightDigits(after[k], start[k], start[k] % 2, bit, Base(k));
  }

  lemma ShiftRightDigits(d: nat, c: nat, low: nat, bit: nat, B: nat)
    requires 2 * d + low == c + bit * 0x1_0000_0000
    ensures 2 * Times(d, B) + Times(low, B) == Times(c, B) + Times(bit, Times(0x1_0000_0000, B))
  {
    assert (2 * d + low) * B == 2 * (d * B) + low * B;
    assert (c + bit * 0x1_0000_0000) * B == c * B + bit * (0x1_0000_0000 * B);
  }

  /** left -= right; the arguments may be the same array. */
  method Subtract(left: array<u32>, right: array<u32>, words: nat)
    requires words <= left.Length && words <= right.Length
    modifies left
    ensures Val(left[..], words) == Reduce(old(Val(left[..], words)) - old(Val(right[..], words)), Base(words))
    ensures left[words..] == old(left[words..])
  {
    hide *;
    ghost var start, other := left[..], right[..];
    var borrow: u32 := 0;
    ShiftStart(start);
    ShiftStart(other);
    for i := 0 to words
      invariant borrow <= 1
      invariant forall j :: i <= j < left.Length ==> left[j] == start[j]
      invariant forall j :: i <= j < right.Length ==> right[j] == other[j]
      invariant Val(left[..], i) - Times(borrow, Base(i)) == Val(start, i) - Val(other, i)
    {
      var minuend: int := left[i];
      var subtrahend: int := U32(right[i] + borrow);
      var borrow' := BorrowOut(minuend, right[i], borrow);
      ghost var before := left[..];
      left[i] := U32(minuend - subtrahend);
      SubtractStep(before, left[..], start, other, i, borrow, borrow');
      borrow := borrow';
    }
    ValBound(left[..], words);
    ReduceBorrowed(Val(start, words) - Val(other, words), Base(words), borrow, Val(left[..], words));
  }

  lemma BorrowedLimb(a: u32, b: u32, borrow: nat)
    requires borrow <= 1
    ensures var s := U32(b + borrow);
            var borrow' := Or(if s < b then 1 else 0, if a < s then 1 else 0);
            borrow' <= 1 && U32(a - s) - borrow' * 0x1_0000_0000 == a - b - borrow
  {
    var s := if b + borrow == 0x1_0000_0000 then 0 else b + borrow;
    assert U32(b + borrow) == s;
    DivModUnique(a - s, 0x1_0000_0000, if a < s then -1 else 0, if a < s then a - s + 0x1_0000_0000 else a - s);
  }

  predicate Borrows(d: int, a: int, b: int, borrow: int, borrow': int) {
    d - borrow' * 0x1_0000_0000 == a - b - borrow
  }

  /** wrapped | (old < subtrahend) */
  function BorrowOut(a: u32, b: u32, borrow: u32): (out: u32)
    requires borrow <= 1
    ensures out <= 1 && Borrows(U32(a - U32(b + borrow)), a, b, borrow, out)
  {
    BorrowedLimb(a, b, borrow);
    Or(if U32(b + borrow) < b then 1 else 0, if a < U32(b + borrow) then 1 else 0)
  }

  lemma SubtractStep(before: seq<u32>, after: seq<u32>, start: seq<u32>, other: seq<u32>, i: nat, borrow: nat, borrow': nat)
    requires i < |before| == |after| == |start| && i < |other| && before[i] == start[i] && after == before[i := after[i]]
    requires Borrows(after[i], start[i], other[i], borrow, borrow')
    requires Val(before, i) - Times(borrow, Base(i)) == Val(start, i) - Val(other, i)
    ensures Val(after, i + 1) - Times(borrow', Base(i + 1)) == Val(start, i + 1) - Val(other, i + 1)
  {
    hide Base;
    ValSame(before, after, i);
    BaseStep(i);
    SubtractDigits(after[i], start[i], other[i], borrow, borrow', Base(i));
  }

  lemma SubtractDigits(d: int, a: int, b: int, borrow: int, borrow': int, B: nat)
    requires d - borrow' * 0x1_0000_0000 == a - b - borrow
    ensures d * B - borrow' * (0x1_0000_0000 * B) == a * B - b * B - borrow * B
  {
    assert (d - borrow' * 0x1_0000_0000) * B == d * B - borrow' * (0x1_0000_0000 * B);
    assert (a - b - borrow) * B == a * B - b * B - borrow * B;
  }

  lemma ReduceBorrowed(x: int, m: nat, borrow: nat, r: nat)
    requires m > 0 && r < m && r == x + Times(borrow, m)
    ensures Reduce(x, m) == r
  {
    var k: int := borrow;
    assert x == m * (-k) + r;
    DivModUnique(x, m, -k, r);
  }
}
