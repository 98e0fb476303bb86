/** The heap as a row of blocks, live and free, laid out in raw memory (alloc.c).

A block is a header word holding its total size, then its payload; a free block keeps
the address of the next free block in the first payload word.  Address 0 is null. */
module HeapBlocks {
  import opened RawMemory

  datatype Block = Block(addr: nat, total: nat, live: bool) {
    function End(): nat { addr + total }
  }

  /** The blocks cover lo..hi without gap or overlap. */
  ghost predicate Tiled(bs: seq<Block>, lo: nat, hi: nat) {
    if bs == [] then lo == hi
    else bs[0].addr == lo && bs[0].total > 0 && Tiled(bs[1..], bs[0].End(), hi)
  }

  lemma {:induction false} TiledBounds(bs: seq<Block>, lo: nat, hi: nat)
    requires Tiled(bs, lo, hi)
    ensures lo <= hi && forall i :: 0 <= i < |bs| ==> lo <= bs[i].addr < bs[i].End() <= hi
  {
    if bs != [] {
      TiledBounds(bs[1..], bs[0].End(), hi);
      forall i | 0 < i < |bs| ensures lo <= bs[i].addr < bs[i].End() <= hi { assert bs[i] == bs[1..][i - 1]; }
    }
  }

  /** Where block i starts, or the end of the row. */
  function Boundary(bs: seq<Block>, i: nat, hi: nat): nat
    requires i <= |bs|
  {
    if i == |bs| then hi else bs[i].addr
  }

  lemma {:induction false} TiledSplit(bs: seq<Block>, lo: nat, hi: nat, i: nat)
    requires Tiled(bs, lo, hi) && i <= |bs|
    ensures Tiled(bs[..i], lo, Boundary(bs, i, hi)) && Tiled(bs[i..], Boundary(bs, i, hi), hi)
  {
    if i == 0 {
      assert bs[..0] == [] && bs[0..] == bs;
    } else {
      TiledSplit(bs[1..], bs[0].End(), hi, i - 1);
      assert bs[..i][1..] == bs[1..][..i - 1] && bs[1..][i - 1..] == bs[i..];
    }
  }

  lemma {:induction false} TiledConcat(a: seq<Block>, b: seq<Block>, lo: nat, mid: nat, hi: nat)
    requires Tiled(a, lo, mid) && Tiled(b, mid, hi)
    ensures Tiled(a + b, lo, hi)
  {
    if a == [] {
      assert a + b == b;
    } else {
      TiledConcat(a[1..], b, a[0].End(), mid, hi);
      assert (a + b)[1..] == a[1..] + b;
    }
  }

  /** Blocks are disjoint and in address order. */
  lemma TiledOrder(bs: seq<Block>, lo: nat, hi: nat, i: nat, j: nat)
    requires Tiled(bs, lo, hi) && i < j <= |bs|
    ensures bs[i].End() <= Boundary(bs, j, hi)
  {
    TiledSplit(bs, lo, hi, j);
    TiledBounds(bs[..j], lo, Boundary(bs, j, hi));
    assert bs[..j][i] == bs[i];
  }

  lemma TiledNext(bs: seq<Block>, lo: nat, hi: nat, i: nat)
    requires Tiled(bs, lo, hi) && i < |bs|
    ensures Boundary(bs, i + 1, hi) == bs[i].End()
  {
    TiledSplit(bs, lo, hi, i);
    var tail := bs[i..];
    assert tail[0] == bs[i] && tail[1..] == bs[i + 1..];
  }

  // ----- the free list -----

  /** Address of the first free block from index i on. */
  function NextFree(bs: seq<Block>, i: nat): nat
    requires i <= |bs|
    decreases |bs| - i
  {
    if i == |bs| then 0 else if !bs[i].live then bs[i].addr else NextFree(bs, i + 1)
  }

  /** Address of the last free block before index i. */
  function LastFree(bs: seq<Block>, i: nat): nat
    requires i <= |bs|
  {
    if i == 0 then 0 else if !bs[i - 1].live then bs[i - 1].addr else LastFree(bs, i - 1)
  }

  /** The link that leads to the free blocks after p; the list head when p is null. */
  function Link(m: seq<u8>, head: nat, w: nat, p: nat): nat
    requires p + 2 * w <= |m|
  {
    if p == 0 then head else LoadWord(m, p + w, w)
  }

  /** Memory holds exactly this row of blocks, and the free list threads its free blocks. */
  ghost predicate Represents(m: seq<u8>, head: nat, bs: seq<Block>, w: nat, lo: nat, hi: nat) {
    && w > 0 && lo > 0 && Tiled(bs, lo, hi) && hi <= |m| <= Range(w)
    && Sized(bs, w) && InMemory(bs, |m|) && 2 * w <= |m|
    && Headers(m, bs, w)
    && Linked(m, head, bs, w)
  }

  ghost predicate InMemory(bs: seq<Block>, size: nat) {
    forall i :: 0 <= i < |bs| ==> 0 < bs[i].addr && bs[i].End() <= size
  }

  /** Every total is a word multiple that leaves room for a free-list node. */
  ghost predicate Sized(bs: seq<Block>, w: nat) {
    forall i :: 0 <= i < |bs| ==> 2 * w <= bs[i].total && WordMultiple(bs[i].total, w)
  }

  predicate WordMultiple(n: nat, w: nat) {
    if w == 2 then n % 2 == 0 else n % 4 == 0
  }

  ghost predicate Headers(m: seq<u8>, bs: seq<Block>, w: nat)
    requires Sized(bs, w) && InMemory(bs, |m|)
  {
    forall i :: 0 <= i < |bs| ==> LoadWord(m, bs[i].addr, w) == bs[i].total
  }

  lemma {:induction false} LastFreeRange(bs: seq<Block>, w: nat, size: nat, i: nat)
    requires Sized(bs, w) && InMemory(bs, size) && i <= |bs| && 2 * w <= size
    ensures LastFree(bs, i) + 2 * w <= size
  {
    if i > 0 { LastFreeRange(bs, w, size, i - 1); }
  }

  ghost predicate LinkAt(m: seq<u8>, head: nat, bs: seq<Block>, w: nat, i: nat)
    requires Sized(bs, w) && InMemory(bs, |m|) && i <= |bs| && 2 * w <= |m|
  {
    LastFreeRange(bs, w, |m|, i);
    Link(m, head, w, LastFree(bs, i)) == NextFree(bs, i)
  }

  ghost predicate Linked(m: seq<u8>, head: nat, bs: seq<Block>, w: nat)
    requires Sized(bs, w) && InMemory(bs, |m|) && 2 * w <= |m|
  {
    forall i :: 0 <= i <= |bs| ==> LinkAt(m, head, bs, w, i)
  }

  lemma {:induction false} NextFreeSkip(bs: seq<Block>, i: nat, j: nat)
    requires i <= j <= |bs| && forall k :: i <= k < j ==> bs[k].live
    ensures NextFree(bs, i) == NextFree(bs, j)
    decreases j - i
  {
    if i < j { NextFreeSkip(bs, i + 1, j); }
  }

  lemma {:induction false} LastFreeSkip(bs: seq<Block>, i: nat, j: nat)
    requires i <= j <= |bs| && forall k :: i <= k < j ==> bs[k].live
    ensures LastFree(bs, i) == LastFree(bs, j)
  {
    if i < j { LastFreeSkip(bs, i, j - 1); }
  }

  /** The next free block depends only on what follows. */
  lemma {:induction false} NextFreeSuffix(bs: seq<Block>, i: nat, cs: seq<Block>, j: nat)
    requires i <= |bs| && j <= |cs| && bs[i..] == cs[j..]
    ensures NextFree(bs, i) == NextFree(cs, j)
    decreases |bs| - i
  {
    assert |bs| - i == |cs| - j;
    if i < |bs| {
      assert bs[i] == bs[i..][0] && cs[j] == cs[j..][0];
      assert bs[i + 1..] == bs[i..][1..] && cs[j + 1..] == cs[j..][1..];
      NextFreeSuffix(bs, i + 1, cs, j + 1);
    }
  }

  lemma {:induction false} LastFreePrefix(bs: seq<Block>, cs: seq<Block>, i: nat)
    requires i <= |bs| && i <= |cs| && bs[..i] == cs[..i]
    ensures LastFree(bs, i) == LastFree(cs, i)
  {
    if i > 0 {
      assert bs[i - 1] == bs[..i][i - 1] && cs[i - 1] == cs[..i][i - 1];
      assert bs[..i - 1] == bs[..i][..i - 1] && cs[..i - 1] == cs[..i][..i - 1];
      LastFreePrefix(bs, cs, i - 1);
    }
  }

  /** Index of the first free block from i on, or the end. */
  function FreeIndex(bs: seq<Block>, i: nat): (k: nat)
    requires i <= |bs|
    ensures i <= k <= |bs| && (forall j :: i <= j < k ==> bs[j].live) && (k < |bs| ==> !bs[k].live)
    ensures NextFree(bs, i) == if k == |bs| then 0 else bs[k].addr
    decreases |bs| - i
  {
    if i == |bs| || !bs[i].live then i else FreeIndex(bs, i + 1)
  }

  /** Index of the last free block before i, plus one; 0 when there is none. */
  function LastIndex(bs: seq<Block>, i: nat): (k: nat)
    requires i <= |bs|
    ensures k <= i && (forall j :: k <= j < i ==> bs[j].live) && (k > 0 ==> !bs[k - 1].live)
    ensures LastFree(bs, i) == if k == 0 then 0 else bs[k - 1].addr
  {
    if i == 0 || !bs[i - 1].live then i else LastIndex(bs, i - 1)
  }

  // ----- replacing a stretch of blocks -----

  /** cs is bs with blocks i..i+k replaced by mid. */
  ghost predicate Spliced(bs: seq<Block>, i: nat, k: nat, mid: seq<Block>, cs: seq<Block>) {
    i + k <= |bs| && cs == bs[..i] + mid + bs[i + k..]
  }

  /** End of the replaced stretch, when the row then ends at hi'. */
  function StretchEnd(bs: seq<Block>, i: nat, k: nat, hi': nat): nat
    requires i + k <= |bs|
  {
    if i + k == |bs| then hi' else bs[i + k].addr
  }

  lemma SplicedTiles(bs: seq<Block>, i: nat, k: nat, mid: seq<Block>, cs: seq<Block>, w: nat, size: nat, lo: nat, hi: nat, hi': nat)
    requires lo > 0 && Tiled(bs, lo, hi) && Sized(bs, w) && InMemory(bs, size) && Spliced(bs, i, k, mid, cs)
    requires (i + k < |bs| ==> hi' == hi) && hi' <= size
    requires Tiled(mid, Boundary(bs, i, hi), StretchEnd(bs, i, k, hi')) && Sized(mid, w)
    ensures Tiled(cs, lo, hi') && Sized(cs, w) && InMemory(cs, size)
    ensures forall j :: 0 <= j < |mid| ==> cs[i + j] == mid[j]
  {
    hide *;
    SplicedMeaning(bs, i, k, mid, cs);
    var a, b := Boundary(bs, i, hi), StretchEnd(bs, i, k, hi');
    BoundaryOf(bs, i, k, hi, hi');
    TiledSplit(bs, lo, hi, i);
    TiledSplit(bs, lo, hi, i + k);
    if i + k == |bs| { TiledNil(bs[i + k..], b, hi'); }
    TiledConcat(bs[..i], mid, lo, a, b);
    TiledConcat(bs[..i] + mid, bs[i + k..], lo, b, hi');
    SplicedParts(bs, i, k, mid, cs, w);
    TiledInMemory(cs, lo, hi', size);
  }

  lemma SplicedMeaning(bs: seq<Block>, i: nat, k: nat, mid: seq<Block>, cs: seq<Block>)
    requires Spliced(bs, i, k, mid, cs)
    ensures i + k <= |bs| && cs == bs[..i] + mid + bs[i + k..]
  {
  }

  lemma TiledInMemory(bs: seq<Block>, lo: nat, hi: nat, size: nat)
    requires lo > 0 && Tiled(bs, lo, hi) && hi <= size
    ensures InMemory(bs, size)
  {
    TiledBounds(bs, lo, hi);
  }

  lemma TiledNil(bs: seq<Block>, a: nat, b: nat)
    requires |bs| == 0 && a == b
    ensures Tiled(bs, a, b)
  {
  }

  lemma SplicedParts(bs: seq<Block>, i: nat, k: nat, mid: seq<Block>, cs: seq<Block>, w: nat)
    requires Spliced(bs, i, k, mid, cs) && Sized(bs, w) && Sized(mid, w)
    ensures Sized(cs, w) && forall j :: 0 <= j < |mid| ==> cs[i + j] == mid[j]
  {
    SplicedShape(bs, i, k, mid, cs);
  }

  lemma BoundaryOf(bs: seq<Block>, i: nat, k: nat, hi: nat, hi': nat)
    requires i + k <= |bs| && (i + k < |bs| ==> hi' == hi)
    ensures i + k < |bs| ==> StretchEnd(bs, i, k, hi') == Boundary(bs, i + k, hi)
    ensures i + k == |bs| ==> StretchEnd(bs, i, k, hi') == hi' && Boundary(bs, i + k, hi) == hi
    ensures i < |bs| ==> Boundary(bs, i, hi) == bs[i].addr
  {
  }

  /** Only the stretch and the link that leads to it were written. */
  ghost predicate Written(m: seq<u8>, m': seq<u8>, w: nat, a: nat, b: nat, p: nat) {
    |m'| == |m| && forall x :: 0 <= x < |m| && !(a <= x < b) && !(p != 0 && p + w <= x < p + 2 * w) ==> m'[x] == m[x]
  }

  /** What lies outside a block and outside the link word of a free block is not in that block's way. */
  lemma Undisturbed(m: seq<u8>, m': seq<u8>, bs: seq<Block>, w: nat, lo: nat, hi: nat, i: nat, k: nat, hi': nat, j: nat)
    requires Tiled(bs, lo, hi) && Sized(bs, w) && InMemory(bs, |m|) && i + k <= |bs| && j < |bs| && !(i <= j < i + k)
    requires i + k < |bs| ==> hi' == hi
    requires Written(m, m', w, Boundary(bs, i, hi), StretchEnd(bs, i, k, hi'), LastFree(bs, i))
    ensures forall x :: bs[j].addr <= x < bs[j].addr + w ==> m'[x] == m[x]
    ensures bs[j].live || bs[j].addr != LastFree(bs, i) ==> forall x :: bs[j].addr <= x < bs[j].End() ==> m'[x] == m[x]
  {
    hide Tiled, LastFree;
    TiledBounds(bs, lo, hi);
    if j < i { TiledOrder(bs, lo, hi, j, i); }
    if j >= i + k && j > i + k { TiledOrder(bs, lo, hi, i + k, j); }
    var l := LastIndex(bs, i);
    if l > 0 {
      if j < l - 1 { TiledOrder(bs, lo, hi, j, l - 1); }
      if l - 1 < j { TiledOrder(bs, lo, hi, l - 1, j); }
    }
  }

  /** The link word of an undisturbed free block. */
  lemma LinkKept(m: seq<u8>, m': seq<u8>, head: nat, head': nat, bs: seq<Block>, w: nat, lo: nat, hi: nat, i: nat, k: nat, hi': nat, j: nat)
    requires Tiled(bs, lo, hi) && Sized(bs, w) && InMemory(bs, |m|) && i + k <= |bs| && j < |bs| && !(i <= j < i + k)
    requires i + k < |bs| ==> hi' == hi
    requires Written(m, m', w, Boundary(bs, i, hi), StretchEnd(bs, i, k, hi'), LastFree(bs, i))
    requires !bs[j].live && bs[j].addr != LastFree(bs, i)
    ensures bs[j].addr + 2 * w <= |m| && Link(m', head', w, bs[j].addr) == Link(m, head, w, bs[j].addr)
  {
    Undisturbed(m, m', bs, w, lo, hi, i, k, hi', j);
    LoadSame(m, m', bs[j].addr + w, w);
  }

  lemma LinkBefore(m: seq<u8>, m': seq<u8>, head: nat, head': nat, bs: seq<Block>, w: nat, lo: nat, hi: nat, i: nat, k: nat,
                   mid: seq<Block>, cs: seq<Block>, hi': nat, j: nat)
    requires Represents(m, head, bs, w, lo, hi) && Spliced(bs, i, k, mid, cs) && (i + k < |bs| ==> hi' == hi)
    requires Written(m, m', w, Boundary(bs, i, hi), StretchEnd(bs, i, k, hi'), LastFree(bs, i))
    requires LastFree(bs, i) != 0 ==> head' == head
    requires Sized(cs, w) && InMemory(cs, |m'|) && LinkAt(m', head', cs, w, i) && j < i
    ensures LinkAt(m', head', cs, w, j)
  {
    hide *;
    RepresentsParts(m, head, bs, w, lo, hi);
    SplicedShape(bs, i, k, mid, cs);
    WrittenSize(m, m', w, Boundary(bs, i, hi), StretchEnd(bs, i, k, hi'), LastFree(bs, i));
    var n := FreeIndex(cs, j);
    if n < i {
      assert bs[..j] == cs[..j];
      LastFreePrefix(bs, cs, j);
      NextIndexIs(bs, j, n);
      var l, p := LastIndex(bs, j), LastIndex(bs, i);
      assert p > n;
      if l > 0 {
        FreeOrder(bs, lo, hi, l - 1, p - 1);
        LinkKept(m, m', head, head', bs, w, lo, hi, i, k, hi', l - 1);
      } else {
        LastPositive(bs, lo, hi, i);
        NullLink(m, m', head, w);
      }
      MovedLink(m, m', head, head', bs, cs, w, j, j);
    } else {
      NextFreeSkip(cs, j, i);
      LastFreeSkip(cs, j, i);
      SameLink(m', head', cs, w, i, j);
    }
  }

  lemma NextIndexIs(bs: seq<Block>, i: nat, n: nat)
    requires i <= n < |bs| && !bs[n].live && forall x :: i <= x < n ==> bs[x].live
    ensures NextFree(bs, i) == bs[n].addr
  {
    NextFreeSkip(bs, i, n);
  }

  lemma FreeOrder(bs: seq<Block>, lo: nat, hi: nat, i: nat, j: nat)
    requires Tiled(bs, lo, hi) && i < j < |bs|
    ensures bs[i].addr < bs[j].addr
  {
    TiledBounds(bs, lo, hi);
    TiledOrder(bs, lo, hi, i, j);
  }

  lemma LastPositive(bs: seq<Block>, lo: nat, hi: nat, i: nat)
    requires lo > 0 && Tiled(bs, lo, hi) && i <= |bs|
    ensures LastFree(bs, i) == 0 <==> LastIndex(bs, i) == 0
  {
    TiledBounds(bs, lo, hi);
  }

  lemma NullLink(m: seq<u8>, m': seq<u8>, head: nat, w: nat)
    requires 2 * w <= |m| && 2 * w <= |m'|
    ensures Link(m, head, w, 0) == Link(m', head, w, 0)
  {
  }

  lemma LinkAfter(m: seq<u8>, m': seq<u8>, head: nat, head': nat, bs: seq<Block>, w: nat, lo: nat, hi: nat, i: nat, k: nat,
                  mid: seq<Block>, cs: seq<Block>, hi': nat, j: nat)
    requires Represents(m, head, bs, w, lo, hi) && Spliced(bs, i, k, mid, cs) && (i + k < |bs| ==> hi' == hi)
    requires Written(m, m', w, Boundary(bs, i, hi), StretchEnd(bs, i, k, hi'), LastFree(bs, i))
    requires LastFree(bs, i) != 0 ==> head' == head
    requires Sized(cs, w) && InMemory(cs, |m'|) && LinkAt(m', head', cs, w, i + |mid|) && i + |mid| < j <= |cs|
    ensures LinkAt(m', head', cs, w, j)
  {
    hide *;
    RepresentsParts(m, head, bs, w, lo, hi);
    var e, d := i + |mid|, k - |mid|;
    SplicedShape(bs, i, k, mid, cs);
    WrittenSize(m, m', w, Boundary(bs, i, hi), StretchEnd(bs, i, k, hi'), LastFree(bs, i));
    var l := LastIndex(cs, j);
    if l <= e {
      LastFreeSkip(cs, e, j);
      NextFreeSkip(cs, e, j);
      SameLink(m', head', cs, w, e, j);
    } else {
      SplicedSuffix(bs, i, k, mid, cs, j);
      NextFreeSuffix(cs, j, bs, j + d);
      var l' := LastFreeMoved(cs, j, bs, d, e);
      BlocksDiffer(bs, lo, hi, i, l');
      LinkKept(m, m', head, head', bs, w, lo, hi, i, k, hi', l');
      MovedLink(m, m', head, head', bs, cs, w, j + d, j);
    }
  }

  lemma SplicedShape(bs: seq<Block>, i: nat, k: nat, mid: seq<Block>, cs: seq<Block>)
    requires Spliced(bs, i, k, mid, cs)
    ensures i + k <= |bs| && |cs| == |bs| - k + |mid|
    ensures forall x :: 0 <= x < i ==> cs[x] == bs[x]
    ensures forall x :: 0 <= x < |mid| ==> cs[i + x] == mid[x]
    ensures forall x :: i + |mid| <= x < |cs| ==> cs[x] == bs[x - |mid| + k]
  {
  }

  lemma SplicedSuffix(bs: seq<Block>, i: nat, k: nat, mid: seq<Block>, cs: seq<Block>, j: nat)
    requires Spliced(bs, i, k, mid, cs) && i + |mid| <= j <= |cs|
    ensures j - |mid| + k <= |bs| && cs[j..] == bs[j - |mid| + k..]
  {
  }

  /** A free block of the common suffix stays the last free one. */
  lemma LastFreeMoved(cs: seq<Block>, j: nat, bs: seq<Block>, d: int, e: nat) returns (l: nat)
    requires j <= |cs| && e < LastIndex(cs, j) && e + d >= 0 && |bs| == |cs| + d
    requires forall x :: e <= x < |cs| ==> cs[x] == bs[x + d]
    ensures e + d <= l < |bs| && !bs[l].live && LastFree(cs, j) == LastFree(bs, j + d) == bs[l].addr
  {
    hide NextFree, LastFree;
    l := LastIndex(cs, j) - 1 + d;
    assert bs[l] == cs[l - d];
    forall x | l + 1 <= x < j + d ensures bs[x].live { assert bs[x] == cs[x - d]; }
    LastIndexIs(bs, j + d, l + 1);
  }

  lemma LastIndexIs(bs: seq<Block>, i: nat, l: nat)
    requires 0 < l <= i <= |bs| && !bs[l - 1].live && forall x :: l <= x < i ==> bs[x].live
    ensures LastFree(bs, i) == bs[l - 1].addr
  {
    LastFreeSkip(bs, l, i);
  }

  /** The last free block before i is another block than block j when j >= i. */
  lemma BlocksDiffer(bs: seq<Block>, lo: nat, hi: nat, i: nat, j: nat)
    requires lo > 0 && Tiled(bs, lo, hi) && i <= j < |bs|
    ensures bs[j].addr != LastFree(bs, i)
  {
    hide Tiled;
    var p := LastIndex(bs, i);
    TiledBounds(bs, lo, hi);
    if p > 0 { TiledOrder(bs, lo, hi, p - 1, j); }
  }

  lemma SameLink(m: seq<u8>, head: nat, cs: seq<Block>, w: nat, e: nat, j: nat)
    requires Sized(cs, w) && InMemory(cs, |m|) && e <= |cs| && j <= |cs| && 2 * w <= |m| && LinkAt(m, head, cs, w, e)
    requires LastFree(cs, e) == LastFree(cs, j) && NextFree(cs, e) == NextFree(cs, j)
    ensures LinkAt(m, head, cs, w, j)
  {
  }

  /** An unchanged link, seen from the row before and after. */
  lemma MovedLink(m: seq<u8>, m': seq<u8>, head: nat, head': nat, bs: seq<Block>, cs: seq<Block>, w: nat, i: nat, j: nat)
    requires Sized(bs, w) && InMemory(bs, |m|) && i <= |bs| && 2 * w <= |m| && Linked(m, head, bs, w)
    requires Sized(cs, w) && InMemory(cs, |m'|) && j <= |cs| && |m'| == |m|
    requires LastFree(cs, j) == LastFree(bs, i) && NextFree(cs, j) == NextFree(bs, i)
    requires LastFree(bs, i) + 2 * w <= |m| && Link(m', head', w, LastFree(bs, i)) == Link(m, head, w, LastFree(bs, i))
    ensures LinkAt(m', head', cs, w, j)
  {
    assert LinkAt(m, head, bs, w, i);
  }

  /** Replacing a stretch keeps the representation if the stretch itself and the links at its boundaries are right. */
  lemma Replaced(m: seq<u8>, m': seq<u8>, head: nat, head': nat, bs: seq<Block>, w: nat, lo: nat, hi: nat, i: nat, k: nat,
                 mid: seq<Block>, cs: seq<Block>, hi': nat)
    requires Represents(m, head, bs, w, lo, hi) && Spliced(bs, i, k, mid, cs) && (i + k < |bs| ==> hi' == hi) && hi' <= |m|
    requires Written(m, m', w, Boundary(bs, i, hi), StretchEnd(bs, i, k, hi'), LastFree(bs, i))
    requires LastFree(bs, i) != 0 ==> head' == head
    requires Tiled(cs, lo, hi') && Sized(cs, w) && InMemory(cs, |m'|)
    requires forall j :: i <= j < i + |mid| ==> LoadWord(m', cs[j].addr, w) == cs[j].total
    requires forall j :: i <= j <= i + |mid| ==> LinkAt(m', head', cs, w, j)
    ensures Represents(m', head', cs, w, lo, hi')
  {
    hide LoadWord, Tiled, NextFree, LastFree, Link, LinkAt, Written, Represents;
    RepresentsParts(m, head, bs, w, lo, hi);
    WrittenSize(m, m', w, Boundary(bs, i, hi), StretchEnd(bs, i, k, hi'), LastFree(bs, i));
    forall j | 0 <= j <= |cs| ensures LinkAt(m', head', cs, w, j) {
      if j < i {
        LinkBefore(m, m', head, head', bs, w, lo, hi, i, k, mid, cs, hi', j);
      } else if j > i + |mid| {
        LinkAfter(m, m', head, head', bs, w, lo, hi, i, k, mid, cs, hi', j);
      }
    }
    forall j | 0 <= j < |cs| ensures LoadWord(m', cs[j].addr, w) == cs[j].total {
      if !(i <= j < i + |mid|) {
        var j' := if j < i then j else j - |mid| + k;
        assert cs[j] == bs[j'];
        Undisturbed(m, m', bs, w, lo, hi, i, k, hi', j');
        LoadSame(m, m', bs[j'].addr, w);
      }
    }
    PartsRepresent(m', head', cs, w, lo, hi');
  }

  lemma WrittenSize(m: seq<u8>, m': seq<u8>, w: nat, a: nat, b: nat, p: nat)
    requires Written(m, m', w, a, b, p)
    ensures |m'| == |m|
  {
  }

  lemma RepresentsParts(m: seq<u8>, head: nat, bs: seq<Block>, w: nat, lo: nat, hi: nat)
    requires Represents(m, head, bs, w, lo, hi)
    ensures w > 0 && lo > 0 && Tiled(bs, lo, hi) && Sized(bs, w) && InMemory(bs, |m|) && 2 * w <= |m| <= Range(w) && hi <= |m|
    ensures Headers(m, bs, w) && Linked(m, head, bs, w)
  {
  }

  lemma PartsRepresent(m: seq<u8>, head: nat, bs: seq<Block>, w: nat, lo: nat, hi: nat)
    requires w > 0 && lo > 0 && Tiled(bs, lo, hi) && Sized(bs, w) && InMemory(bs, |m|) && 2 * w <= |m| <= Range(w) && hi <= |m|
    requires Headers(m, bs, w) && Linked(m, head, bs, w)
    ensures Represents(m, head, bs, w, lo, hi)
  {
  }
}
