/** strcmp, strncmp, strlen and strcpy with their word paths (string.c).

Strings lie in one byte memory whose size is a multiple of the word size, so the word that
holds the terminator is always readable. */
module Strings {
  import opened Bits
  import opened Words
  import opened Memory

  /** The string at p has n bytes before its NUL. */
  ghost predicate StringAt(m: seq<byte>, p: nat, n: nat) {
    p + n < |m| && m[p + n] == 0 && forall k :: 0 <= k < n ==> !NulAt(m, p, k)
  }

  /** A string has one length. */
  lemma StringUnique(m: seq<byte>, p: nat, n: nat, n': nat)
    requires StringAt(m, p, n) && StringAt(m, p, n')
    ensures n == n'
  {
    assert (n < n' ==> !NulAt(m, p, n)) && (n' < n ==> !NulAt(m, p, n'));
  }

  /** A whole word fits in memory at an aligned address. */
  lemma WordFits(w: Width, size: nat, p: nat, n: nat)
    requires size % w.Size() == 0 && Aligned(w, p) && p + n < size
    ensures p + w.Size() <= size
  {
    hide Aligned;
    CongruentIs(w, p, p);
    Bits.DivModBasic(size, w.Size());
    Bits.DivModBasic(p, w.Size());
  }

  /** No NUL among the bytes before k: the rest is a string too. */
  lemma StringRest(m: seq<byte>, p: nat, n: nat, k: nat)
    requires StringAt(m, p, n) && k <= n
    ensures StringAt(m, p + k, n - k)
  {
    forall j {:trigger NulAt(m, p + k, j)} | 0 <= j < n - k ensures !NulAt(m, p + k, j) { assert !NulAt(m, p, k + j); }
  }

  /** A word without a NUL lies before the terminator. */
  lemma WordInString(w: Width, m: seq<byte>, p: nat, n: nat)
    requires StringAt(m, p, n) && p + w.Size() <= |m|
    ensures !HasZero(w, Load(w, m, p)) <==> w.Size() <= n
    ensures w.Size() <= n ==> StringAt(m, p + w.Size(), n - w.Size())
  {
    hide HasZero, Load;
    HasZeroMeaning(w, m, p);
    if w.Size() <= n {
      StringRest(m, p, n, w.Size());
    } else {
      assert NulAt(m, p, n);
    }
  }

  method Strlen(w: Width, mem: array<byte>, start: nat, ghost n: nat) returns (r: nat)
    requires mem.Length % w.Size() == 0 && StringAt(mem[..], start, n)
    ensures r == n
  {
    hide *;
    ghost var m := mem[..];
    var p := start;
    while !Aligned(w, p)
      invariant start <= p <= start + n && StringAt(m, p, start + n - p)
      decreases start + n - p
    {
      StringStep(m, p, start + n - p);
      if mem[p] == 0 {
        return p - start;
      }
      p := p + 1;
    }
    while true
      invariant start <= p <= start + n && StringAt(m, p, start + n - p) && Aligned(w, p)
      decreases start + n - p
    {
      StringStep(m, p, start + n - p);
      WordFits(w, |m|, p, start + n - p);
      var value := LoadWord(w, mem, p);
      WordInString(w, m, p, start + n - p);
      if HasZero(w, value) {
        break;
      }
      AlignedNext(w, p);
      p := p + w.Size();
    }
    StringStep(m, p, start + n - p);
    while mem[p] != 0
      invariant start <= p <= start + n && StringAt(m, p, start + n - p) && p < mem.Length
      invariant mem[p] == 0 <==> p == start + n
      decreases start + n - p
    {
      p := p + 1;
      StringStep(m, p - 1, start + n - p + 1);
      StringStep(m, p, start + n - p);
    }
    return p - start;
  }

  /** The first byte of a string. */
  lemma StringStep(m: seq<byte>, p: nat, n: nat)
    requires StringAt(m, p, n)
    ensures p + n < |m| && (m[p] == 0 <==> n == 0)
    ensures n > 0 ==> StringAt(m, p + 1, n - 1)
  {
    if n > 0 {
      assert !NulAt(m, p, 0);
      StringRest(m, p, n, 1);
    }
  }

  // ----- comparison -----

  lemma {:induction false} ComparedStep(m: seq<byte>, p: nat, q: nat, n: nat)
    requires p + n <= |m| && q + n <= |m| && n > 0
    ensures Compared(m, p, q, n, true) ==
              if m[p] != m[q] || m[p] == 0 then Order(m[p], m[q]) else Compared(m, p + 1, q + 1, n - 1, true)
  {
    if m[p] == m[q] { OrderSame(m[p]); }
  }

  /** Both strings go on for this many bytes, counting the NUL. */
  ghost predicate Pair(m: seq<byte>, p: nat, a: nat, q: nat, b: nat) {
    StringAt(m, p, a) && StringAt(m, q, b)
  }

  method Strcmp(w: Width, mem: array<byte>, left: nat, right: nat, ghost a: nat, ghost b: nat) returns (r: int)
    requires mem.Length % w.Size() == 0 && Pair(mem[..], left, a, right, b)
    ensures left + Min(a, b) < mem.Length && right + Min(a, b) < mem.Length
    ensures Sgn(r) == Compared(mem[..], left, right, Min(a, b) + 1, true)
  {
    hide *;
    ghost var m := mem[..];
    PairBounds(m, left, a, right, b);
    if Aligned(w, left) && Aligned(w, right) {
      r := CompareWords(w, mem, left, right, a, b);
      return;
    }
    var p, q := left, right;
    ghost var done := 0;
    while true
      invariant done <= Min(a, b) && p == left + done && q == right + done && p < mem.Length && q < mem.Length
      invariant Compared(m, left, right, Min(a, b) + 1, true) == Compared(m, p, q, Min(a, b) + 1 - done, true)
      invariant done == Min(a, b) ==> m[p] != m[q] || m[p] == 0
      decreases Min(a, b) - done
    {
      ComparedStep(m, p, q, Min(a, b) + 1 - done);
      if !(mem[p] == mem[q] && mem[p] != 0) {
        ByteDifference(mem[p], mem[q]);
        return mem[p] as int - mem[q] as int;
      }
      p, q, done := p + 1, q + 1, done + 1;
      PairEnd(m, left, a, right, b, done);
    }
  }

  lemma PairBounds(m: seq<byte>, p: nat, a: nat, q: nat, b: nat)
    requires Pair(m, p, a, q, b)
    ensures p + Min(a, b) < |m| && q + Min(a, b) < |m|
    ensures Min(a, b) == 0 ==> m[p] != m[q] || m[p] == 0
  {
    StringStep(m, p, a);
    StringStep(m, q, b);
  }

  /** At the end of the shorter string the comparison is decided. */
  lemma PairEnd(m: seq<byte>, p: nat, a: nat, q: nat, b: nat, k: nat)
    requires Pair(m, p, a, q, b)
    ensures k == Min(a, b) ==> p + k < |m| && q + k < |m| && (m[p + k] != m[q + k] || m[p + k] == 0)
  {
    if k == Min(a, b) {
      StringRest(m, p, a, k);
      StringRest(m, q, b, k);
      StringStep(m, p + k, a - k);
      StringStep(m, q + k, b - k);
    }
  }

  /** The word loop of strcmp. */
  method CompareWords(w: Width, mem: array<byte>, left: nat, right: nat, ghost a: nat, ghost b: nat) returns (r: int)
    requires mem.Length % w.Size() == 0 && Pair(mem[..], left, a, right, b) && Aligned(w, left) && Aligned(w, right)
    requires left + Min(a, b) < mem.Length && right + Min(a, b) < mem.Length
    ensures Sgn(r) == Compared(mem[..], left, right, Min(a, b) + 1, true)
  {
    hide *;
    ghost var m := mem[..];
    var p: nat, q: nat := left, right;
    ghost var i: nat, j: nat := a, b;
    while true
      invariant Pair(m, p, i, q, j) && Aligned(w, p) && Aligned(w, q)
      invariant p + Min(i, j) < |m| && q + Min(i, j) < |m|
      invariant Compared(m, left, right, Min(a, b) + 1, true) == Compared(m, p, q, Min(i, j) + 1, true)
      decreases i
    {
      WordFits(w, |m|, p, Min(i, j));
      WordFits(w, |m|, q, Min(i, j));
      var x := LoadWord(w, mem, p);
      var y := LoadWord(w, mem, q);
      PairWord(w, m, p, i, q, j);
      if HasZero(w, x) {
        return if x == y then 0 else Compare(w, x, y, true);
      }
      if x != y {
        return Compare(w, x, y, false);
      }
      AlignedNext(w, p);
      AlignedNext(w, q);
      p, q, i, j := p + w.Size(), q + w.Size(), i - w.Size(), j - w.Size();
    }
  }

  /** What one pair of words decides about two strings. */
  lemma PairWord(w: Width, m: seq<byte>, p: nat, a: nat, q: nat, b: nat)
    requires Pair(m, p, a, q, b) && p + w.Size() <= |m| && q + w.Size() <= |m|
    requires p + Min(a, b) < |m| && q + Min(a, b) < |m|
    ensures var x, y, r := Load(w, m, p), Load(w, m, q), Compared(m, p, q, Min(a, b) + 1, true);
            && (HasZero(w, x) && x == y ==> r == 0 == Sgn(0))
            && (HasZero(w, x) || x != y ==> r == Compare(w, x, y, true) == Sgn(Compare(w, x, y, true)))
            && (!HasZero(w, x) && x != y ==> Compare(w, x, y, false) == Compare(w, x, y, true))
            && (!HasZero(w, x) && x == y ==>
                 && w.Size() <= a && w.Size() <= b && Pair(m, p + w.Size(), a - w.Size(), q + w.Size(), b - w.Size())
                 && p + w.Size() + Min(a - w.Size(), b - w.Size()) < |m| && q + w.Size() + Min(a - w.Size(), b - w.Size()) < |m|
                 && r == Compared(m, p + w.Size(), q + w.Size(), Min(a - w.Size(), b - w.Size()) + 1, true))
  {
    hide *;
    EqualMeaning(w, m, p, q);
    HasZeroMeaning(w, m, p);
    WordEvents(w, m, p, q, true);
    CompareMeaning(w, m, p, q, true);
    CompareMeaning(w, m, p, q, false);
    ComparedSign(m, p, q, w.Size(), true);
    PairEvent(m, p, a, q, b);
    var f := FirstEvent(m, p, q, w.Size(), true);
    ComparedMeaning(m, p, q, w.Size(), true, f);
    if f < w.Size() {
      FirstIsEarly(m, p, q, w.Size(), f, Min(a, b));
      ComparedEnough(m, p, q, Min(a, b) + 1, w.Size(), true, f);
      EventKinds(m, p, q, w.Size(), f);
    } else {
      PairRest(m, p, a, q, b, w.Size());
      ComparedSkip(m, p, q, Min(a, b) + 1, true, w.Size());
    }
  }

  lemma PairEvent(m: seq<byte>, p: nat, a: nat, q: nat, b: nat)
    requires Pair(m, p, a, q, b)
    ensures p + Min(a, b) < |m| && q + Min(a, b) < |m| && Event(m, p, q, Min(a, b), true)
  {
    PairEnd(m, p, a, q, b, Min(a, b));
  }

  /** The first event of a word comes no later than one that is known. */
  lemma FirstIsEarly(m: seq<byte>, p: nat, q: nat, n: nat, f: nat, k: nat)
    requires p + n <= |m| && q + n <= |m| && f < n && p + k < |m| && q + k < |m|
    requires (forall j :: 0 <= j < f ==> !Event(m, p, q, j, true)) && Event(m, p, q, f, true) && Event(m, p, q, k, true)
    ensures f <= k
  {
  }

  /** Equal bytes give order 0; without a NUL, stopping at one makes no difference. */
  lemma EventKinds(m: seq<byte>, p: nat, q: nat, n: nat, f: nat)
    requires p + n <= |m| && q + n <= |m| && f < n
    requires (forall j :: 0 <= j < f ==> !Event(m, p, q, j, true)) && Event(m, p, q, f, true)
    ensures (forall k :: 0 <= k < n ==> SameAt(m, p, q, k)) ==> Order(m[p + f], m[q + f]) == 0
    ensures !(exists k :: 0 <= k < n && NulAt(m, p, k)) ==> Compared(m, p, q, n, false) == Order(m[p + f], m[q + f])
    ensures Sgn(0) == 0
  {
    hide Compared, Order;
    OrderSame(m[p + f]);
    if forall k :: 0 <= k < n ==> SameAt(m, p, q, k) { assert SameAt(m, p, q, f); }
    if !(exists k :: 0 <= k < n && NulAt(m, p, k)) {
      assert !NulAt(m, p, f);
      forall j | 0 <= j < f ensures !Event(m, p, q, j, false) { assert !Event(m, p, q, j, true); }
      ComparedMeaning(m, p, q, n, false, f);
    }
  }

  /** No event among the first k bytes: both strings go on. */
  lemma PairRest(m: seq<byte>, p: nat, a: nat, q: nat, b: nat, k: nat)
    requires Pair(m, p, a, q, b) && p + k <= |m| && q + k <= |m| && forall j :: 0 <= j < k ==> !Event(m, p, q, j, true)
    ensures k <= a && k <= b && Pair(m, p + k, a - k, q + k, b - k) && Min(a - k, b - k) == Min(a, b) - k
    ensures p + k + Min(a - k, b - k) < |m| && q + k + Min(a - k, b - k) < |m|
  {
    PairEvent(m, p, a, q, b);
    assert Min(a, b) >= k;
    StringRest(m, p, a, k);
    StringRest(m, q, b, k);
  }

  // ----- strncmp -----

  /** n bytes decide a comparison of at most count: all of them may be looked at, and they
  either are count bytes or end in a difference or a NUL.  The arrays need not be strings. */
  ghost predicate Decided(m: seq<byte>, p: nat, q: nat, count: nat, n: nat) {
    && n <= count && p + n <= |m| && q + n <= |m|
    && (n == count || (n > 0 && Event(m, p, q, n - 1, true)))
  }

  method Strncmp(w: Width, mem: array<byte>, left: nat, right: nat, size: nat, ghost n: nat) returns (r: int)
    requires mem.Length % w.Size() == 0 && Decided(mem[..], left, right, size, n)
    ensures left + n <= mem.Length && right + n <= mem.Length
    ensures Sgn(r) == Compared(mem[..], left, right, n, true)
  {
    hide *;
    ghost var m := mem[..];
    DecidedBounds(m, left, right, size, n);
    var p: nat, q: nat, count: nat := left, right, size;
    ghost var i: nat := n;
    if count >= w.Size() && Aligned(w, left) && Aligned(w, right) {
      while count >= w.Size()
        invariant Decided(m, p, q, count, i) && Aligned(w, p) && Aligned(w, q) && p + i <= |m| && q + i <= |m|
        invariant Compared(m, left, right, n, true) == Compared(m, p, q, i, true)
      {
        DecidedWord(w, m, p, q, count, i);
        var x := LoadWord(w, mem, p);
        var y := LoadWord(w, mem, q);
        CountedWord(w, m, p, q, count, i);
        if x != y || HasZero(w, x) {
          return Compare(w, x, y, true);
        }
        AlignedNext(w, p);
        AlignedNext(w, q);
        p, q, count, i := p + w.Size(), q + w.Size(), count - w.Size(), i - w.Size();
      }
    }
    CountedStep(m, p, q, count, i);
    while count > 0 && mem[p] != 0 && mem[p] == mem[q]
      invariant Decided(m, p, q, count, i) && p + i <= |m| && q + i <= |m|
      invariant Compared(m, left, right, n, true) == Compared(m, p, q, i, true)
      invariant count > 0 ==> p < |m| && q < |m|
    {
      CountedStep(m, p, q, count, i);
      p, q, count, i := p + 1, q + 1, count - 1, i - 1;
      CountedStep(m, p, q, count, i);
    }
    CountedStep(m, p, q, count, i);
    if count == 0 {
      return 0;
    }
    ByteDifference(mem[p], mem[q]);
    return mem[p] as int - mem[q] as int;
  }

  lemma DecidedBounds(m: seq<byte>, p: nat, q: nat, count: nat, n: nat)
    requires Decided(m, p, q, count, n)
    ensures p + n <= |m| && q + n <= |m| && n <= count && (count > 0 ==> n > 0)
  {
  }

  /** Two terminated strings decide every comparison, and so do two arrays of count bytes. */
  lemma StringsDecide(m: seq<byte>, p: nat, a: nat, q: nat, b: nat, count: nat)
    requires Pair(m, p, a, q, b)
    ensures Decided(m, p, q, count, Min(count, Min(a, b) + 1))
  {
    hide StringAt;
    PairEvent(m, p, a, q, b);
  }

  /** An aligned word that the comparison reaches lies in memory. */
  lemma DecidedWord(w: Width, m: seq<byte>, p: nat, q: nat, count: nat, n: nat)
    requires Decided(m, p, q, count, n) && count >= w.Size() && |m| % w.Size() == 0 && Aligned(w, p) && Aligned(w, q)
    ensures p + w.Size() <= |m| && q + w.Size() <= |m|
  {
    hide *;
    DecidedBounds(m, p, q, count, n);
    WordFits(w, |m|, p, 0);
    WordFits(w, |m|, q, 0);
  }

  /** One byte of strncmp. */
  lemma CountedStep(m: seq<byte>, p: nat, q: nat, count: nat, n: nat)
    requires Decided(m, p, q, count, n)
    ensures p + n <= |m| && q + n <= |m| && (count > 0 ==> n > 0 && p < |m| && q < |m|)
    ensures count == 0 ==> Compared(m, p, q, n, true) == 0 == Sgn(0)
    ensures count > 0 && (m[p] == 0 || m[p] != m[q]) ==> Compared(m, p, q, n, true) == Order(m[p], m[q])
    ensures count > 0 && m[p] != 0 && m[p] == m[q] ==>
              && Decided(m, p + 1, q + 1, count - 1, n - 1) && p + 1 + (n - 1) <= |m| && q + 1 + (n - 1) <= |m|
              && Compared(m, p, q, n, true) == Compared(m, p + 1, q + 1, n - 1, true)
  {
    hide Order, Compared;
    if n == 0 {
      ComparedNone(m, p, q);
    } else {
      ComparedStep(m, p, q, n);
      assert n > 1 ==> (Event(m, p, q, n - 1, true) <==> Event(m, p + 1, q + 1, n - 2, true));
    }
  }

  lemma ComparedNone(m: seq<byte>, p: nat, q: nat)
    requires p <= |m| && q <= |m|
    ensures Compared(m, p, q, 0, true) == 0
  {
  }

  /** One word of strncmp. */
  lemma CountedWord(w: Width, m: seq<byte>, p: nat, q: nat, count: nat, n: nat)
    requires Decided(m, p, q, count, n) && p + n <= |m| && q + n <= |m| && p + w.Size() <= |m| && q + w.Size() <= |m| && count >= w.Size()
    ensures var x, y, r := Load(w, m, p), Load(w, m, q), Compared(m, p, q, n, true);
            && (HasZero(w, x) || x != y ==> r == Sgn(Compare(w, x, y, true)))
            && (!HasZero(w, x) && x == y ==>
                 && w.Size() <= n && Decided(m, p + w.Size(), q + w.Size(), count - w.Size(), n - w.Size())
                 && p + w.Size() + (n - w.Size()) <= |m| && q + w.Size() + (n - w.Size()) <= |m|
                 && r == Compared(m, p + w.Size(), q + w.Size(), n - w.Size(), true))
  {
    hide *;
    EqualMeaning(w, m, p, q);
    HasZeroMeaning(w, m, p);
    WordEvents(w, m, p, q, true);
    CompareMeaning(w, m, p, q, true);
    ComparedSign(m, p, q, w.Size(), true);
    DecidedBounds(m, p, q, count, n);
    var f := FirstEvent(m, p, q, w.Size(), true);
    if f < w.Size() {
      EventReached(w, m, p, q, count, n, f);
      ComparedEnough(m, p, q, n, w.Size(), true, f);
    } else {
      DecidedRest(w, m, p, q, count, n);
      ComparedSkip(m, p, q, n, true, w.Size());
    }
  }

  lemma EventReached(w: Width, m: seq<byte>, p: nat, q: nat, count: nat, n: nat, f: nat)
    requires Decided(m, p, q, count, n) && p + w.Size() <= |m| && q + w.Size() <= |m| && count >= w.Size() && f < w.Size()
    requires (forall j :: 0 <= j < f ==> !Event(m, p, q, j, true)) && Event(m, p, q, f, true)
    ensures f < n
  {
    hide Width.Size;
    if n < w.Size() {
      FirstIsEarly(m, p, q, w.Size(), f, n - 1);
    }
  }

  lemma DecidedRest(w: Width, m: seq<byte>, p: nat, q: nat, count: nat, n: nat)
    requires Decided(m, p, q, count, n) && p + w.Size() <= |m| && q + w.Size() <= |m| && count >= w.Size()
    requires forall j :: 0 <= j < w.Size() ==> !Event(m, p, q, j, true)
    ensures w.Size() <= n && Decided(m, p + w.Size(), q + w.Size(), count - w.Size(), n - w.Size())
    ensures p + w.Size() + (n - w.Size()) <= |m| && q + w.Size() + (n - w.Size()) <= |m|
  {
    hide Width.Size;
    if n < count {
      assert n - 1 >= w.Size();
      assert Event(m, p + w.Size(), q + w.Size(), n - w.Size() - 1, true);
    }
  }

  // ----- strcpy -----

  method Strcpy(w: Width, mem: array<byte>, destination: nat, source: nat, ghost n: nat)
    requires mem.Length % w.Size() == 0 && StringAt(mem[..], source, n) && destination + n < mem.Length
    requires destination + n + 1 <= source || source + n + 1 <= destination
    modifies mem
    ensures source + n + 1 <= mem.Length && mem[..] == Moved(old(mem[..]), destination, source, n + 1)
  {
    hide *;
    ghost var m0 := mem[..];
    var dest, src := destination, source;
    ghost var i := 0;
    CopyStart(m0, destination, source, n);
    if Congruent(w, dest, src) {
      while !Aligned(w, dest)
        invariant i <= n && dest == destination + i && src == source + i && Congruent(w, dest, src)
        invariant Copying(m0, mem[..], destination, source, i, n)
        decreases n - i
      {
        var value := CopyByte(mem, dest, src, m0, destination, source, i, n);
        CongruentNext(w, dest, src);
        src := src + 1;
        dest := dest + 1;
        if value == 0 {
          AllMoved(m0, mem[..], destination, source, n + 1);
          return;
        }
        i := i + 1;
      }
      CongruentNext(w, dest, src);
      dest, src, i := CopyWords(w, mem, dest, src, m0, destination, source, i, n);
    }
    while true
      invariant i <= n && dest == destination + i && src == source + i
      invariant Copying(m0, mem[..], destination, source, i, n)
      decreases n - i
    {
      var value := CopyByte(mem, dest, src, m0, destination, source, i, n);
      dest, src := dest + 1, src + 1;
      if value == 0 {
        AllMoved(m0, mem[..], destination, source, n + 1);
        return;
      }
      i := i + 1;
    }
  }

  /** The word loop of strcpy: stops at the word that holds the NUL. */
  method CopyWords(w: Width, mem: array<byte>, dest0: nat, src0: nat, ghost m0: seq<byte>, ghost destination: nat, ghost source: nat,
                   ghost i0: nat, ghost n: nat) returns (dest: nat, src: nat, ghost i: nat)
    requires mem.Length % w.Size() == 0 && i0 <= n && dest0 == destination + i0 && src0 == source + i0
    requires Aligned(w, dest0) && Aligned(w, src0) && Copying(m0, mem[..], destination, source, i0, n)
    modifies mem
    ensures i <= n && dest == destination + i && src == source + i && Copying(m0, mem[..], destination, source, i, n)
  {
    hide *;
    dest, src, i := dest0, src0, i0;
    while true
      invariant i <= n && dest == destination + i && src == source + i && Aligned(w, dest) && Aligned(w, src)
      invariant Copying(m0, mem[..], destination, source, i, n)
      decreases n - i
    {
      ghost var before := mem[..];
      CopyAt(m0, before, destination, source, i, n);
      WordFits(w, |before|, src, n - i);
      var word := LoadWord(w, mem, src);
      WordInString(w, before, src, n - i);
      if HasZero(w, word) {
        return;
      }
      WordUp(w, mem, dest, src, m0, destination, source, i);
      CopyNext(m0, before, mem[..], destination, source, i, w.Size(), n);
      AlignedNext(w, dest);
      AlignedNext(w, src);
      dest, src, i := dest + w.Size(), src + w.Size(), i + w.Size();
    }
  }

  /** *dest = *src, and the byte copied. */
  method CopyByte(mem: array<byte>, dest: nat, src: nat, ghost m0: seq<byte>, ghost dst0: nat, ghost src0: nat, ghost i: nat, ghost n: nat)
    returns (value: byte)
    requires Copying(m0, mem[..], dst0, src0, i, n) && i <= n && dest == dst0 + i && src == src0 + i
    modifies mem
    ensures Copying(m0, mem[..], dst0, src0, i + 1, n) && (value == 0 <==> i == n)
    ensures PartMoved(m0, mem[..], dst0, src0, 0, i + 1)
  {
    hide *;
    ghost var before := mem[..];
    CopyAt(m0, before, dst0, src0, i, n);
    value := mem[src];
    ByteUp(mem, dest, src, m0, dst0, src0, i);
    CopyNext(m0, before, mem[..], dst0, src0, i, 1, n);
  }

  /** i bytes of the string are copied, and its rest is untouched. */
  ghost predicate Copying(m0: seq<byte>, m: seq<byte>, dst: nat, src: nat, i: nat, n: nat) {
    && PartMoved(m0, m, dst, src, 0, i) && StringAt(m0, src, n) && dst + n < |m0| && src + n < |m0|
    && (dst + n + 1 <= src || src + n + 1 <= dst) && i <= n + 1
  }

  lemma CopyStart(m0: seq<byte>, dst: nat, src: nat, n: nat)
    requires StringAt(m0, src, n) && dst + n < |m0| && (dst + n + 1 <= src || src + n + 1 <= dst)
    ensures Copying(m0, m0, dst, src, 0, n)
  {
  }

  lemma CopyAt(m0: seq<byte>, m: seq<byte>, dst: nat, src: nat, i: nat, n: nat)
    requires Copying(m0, m, dst, src, i, n) && i <= n
    ensures PartMoved(m0, m, dst, src, 0, i) && |m| == |m0| && dst + n < |m| && src + n < |m|
    ensures StringAt(m, src + i, n - i) && (m[src + i] == 0 <==> i == n)
    ensures dst + n + 1 <= src || src + n + 1 <= dst
  {
    StringRest(m0, src, n, i);
    StringStep(m0, src + i, n - i);
    forall k {:trigger NulAt(m, src + i, k)} | 0 <= k < n - i ensures !NulAt(m, src + i, k) { assert !NulAt(m0, src + i, k); }
  }

  lemma CopyNext(m0: seq<byte>, before: seq<byte>, m: seq<byte>, dst: nat, src: nat, i: nat, k: nat, n: nat)
    requires Copying(m0, before, dst, src, i, n) && PartMoved(m0, m, dst, src, 0, i + k) && i + k <= n + 1
    ensures Copying(m0, m, dst, src, i + k, n)
  {
  }
}
