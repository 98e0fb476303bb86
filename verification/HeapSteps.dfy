/** The writes malloc and free make to the block row, each as a step between represented heaps. */
module HeapSteps {
  import opened RawMemory
  import opened HeapBlocks
  import Bits

  // ----- what clients own -----

  ghost function LiveSet(bs: seq<Block>): set<Block> {
    set b | b in bs && b.live
  }

  /** No byte of these blocks, header or payload, differs. */
  ghost predicate Kept(m: seq<u8>, m': seq<u8>, live: set<Block>) {
    |m'| == |m| && forall b :: b in live ==> forall x :: b.addr <= x < b.End() && x < |m| ==> m'[x] == m[x]
  }

  lemma KeptTrans(m: seq<u8>, m': seq<u8>, m'': seq<u8>, live: set<Block>)
    requires Kept(m, m', live) && Kept(m', m'', live)
    ensures Kept(m, m'', live)
  {
  }

  /** Live blocks outside a replaced stretch keep every byte. */
  lemma OthersKept(m: seq<u8>, m': seq<u8>, bs: seq<Block>, w: nat, lo: nat, hi: nat, i: nat, k: nat, hi': nat, live: set<Block>)
    requires Tiled(bs, lo, hi) && Sized(bs, w) && InMemory(bs, |m|) && i + k <= |bs|
    requires i + k < |bs| ==> hi' == hi
    requires Written(m, m', w, Boundary(bs, i, hi), StretchEnd(bs, i, k, hi'), LastFree(bs, i))
    requires forall b :: b in live ==> exists j :: 0 <= j < |bs| && !(i <= j < i + k) && bs[j] == b && b.live
    ensures Kept(m, m', live)
  {
    hide Tiled, LastFree, Boundary, StretchEnd, Sized, InMemory, Written;
    WrittenSize(m, m', w, Boundary(bs, i, hi), StretchEnd(bs, i, k, hi'), LastFree(bs, i));
    forall b | b in live ensures forall x :: b.addr <= x < b.End() && x < |m| ==> m'[x] == m[x] {
      var j :| 0 <= j < |bs| && !(i <= j < i + k) && bs[j] == b && b.live;
      Undisturbed(m, m', bs, w, lo, hi, i, k, hi', j);
    }
  }

  // ----- single stores -----

  /** previous->next = x, or free_head = x when previous is null. */
  function SetLink(m: seq<u8>, w: nat, p: nat, x: nat): (m': seq<u8>)
    requires p + 2 * w <= |m|
    ensures |m'| == |m|
    ensures p == 0 ==> m' == m
    ensures forall i :: 0 <= i < |m| && !(p != 0 && p + w <= i < p + 2 * w) ==> m'[i] == m[i]
  {
    if p == 0 then m else StoreWord(m, p + w, w, x)
  }

  function SetHead(head: nat, p: nat, x: nat): nat {
    if p == 0 then x else head
  }

  lemma LinkSet(m: seq<u8>, head: nat, w: nat, p: nat, x: nat)
    requires p + 2 * w <= |m| && x < Range(w)
    ensures Link(SetLink(m, w, p, x), SetHead(head, p, x), w, p) == x
  {
    if p != 0 { LoadStored(m, p + w, w, x); }
  }

  lemma LinkSame(m: seq<u8>, m': seq<u8>, head: nat, w: nat, p: nat)
    requires p + 2 * w <= |m| == |m'|
    requires p != 0 ==> forall x :: p + w <= x < p + 2 * w ==> m'[x] == m[x]
    ensures Link(m', head, w, p) == Link(m, head, w, p)
  {
    if p != 0 { LoadSame(m, m', p + w, w); }
  }

  /** The last free block before i, and block i: their place in memory. */
  lemma Neighbours(m: seq<u8>, head: nat, bs: seq<Block>, w: nat, lo: nat, hi: nat, i: nat)
    requires Represents(m, head, bs, w, lo, hi) && i <= |bs|
    ensures var p := LastFree(bs, i);
            && p + 2 * w <= |m| && p < Range(w)
            && (p != 0 ==> p + 2 * w <= Boundary(bs, i, hi))
            && Link(m, head, w, p) == NextFree(bs, i)
            && NextFree(bs, i) < Range(w)
    ensures 0 < Boundary(bs, i, hi) <= hi
  {
    hide LoadWord, Tiled, Headers, Linked, NextFree, LastFree, Link;
    RepresentsParts(m, head, bs, w, lo, hi);
    LinkedAt(m, head, bs, w, i);
    LastFreeRange(bs, w, |m|, i);
    LinkAtMeaning(m, head, bs, w, i);
    TiledBounds(bs, lo, hi);
    var n, l := FreeIndex(bs, i), LastIndex(bs, i);
    if l > 0 { TiledOrder(bs, lo, hi, l - 1, i); }
  }

  lemma LinkedAt(m: seq<u8>, head: nat, bs: seq<Block>, w: nat, i: nat)
    requires Sized(bs, w) && InMemory(bs, |m|) && 2 * w <= |m| && Linked(m, head, bs, w) && i <= |bs|
    ensures LinkAt(m, head, bs, w, i)
  {
  }

  lemma LinkAtMeaning(m: seq<u8>, head: nat, bs: seq<Block>, w: nat, i: nat)
    requires Sized(bs, w) && InMemory(bs, |m|) && 2 * w <= |m| && i <= |bs|
    requires LastFree(bs, i) + 2 * w <= |m|
    ensures LinkAt(m, head, bs, w, i) <==> Link(m, head, w, LastFree(bs, i)) == NextFree(bs, i)
  {
  }

  lemma OneFree(bs: seq<Block>, i: nat)
    requires i < |bs| && !bs[i].live
    ensures NextFree(bs, i) == bs[i].addr && LastFree(bs, i + 1) == bs[i].addr
  {
  }

  lemma OneLive(bs: seq<Block>, i: nat)
    requires i < |bs| && bs[i].live
    ensures NextFree(bs, i) == NextFree(bs, i + 1) && LastFree(bs, i + 1) == LastFree(bs, i)
  {
  }

  /** The parts of the row around a replaced stretch that the list lemmas speak about. */
  lemma AroundStretch(bs: seq<Block>, i: nat, k: nat, mid: seq<Block>, cs: seq<Block>)
    requires Spliced(bs, i, k, mid, cs)
    ensures i + k <= |bs| && |cs| == |bs| - k + |mid|
    ensures LastFree(cs, i) == LastFree(bs, i) && NextFree(cs, i + |mid|) == NextFree(bs, i + k)
    ensures forall x :: 0 <= x < |mid| ==> cs[i + x] == mid[x]
  {
    SplicedShape(bs, i, k, mid, cs);
    LastFreePrefix(bs, cs, i);
    NextFreeSuffix(cs, i + |mid|, bs, i + k);
  }

  // ----- block->total += block->next->total; block->next = block->next->next -----

  function Merged(bs: seq<Block>, i: nat): seq<Block>
    requires i + 1 < |bs|
  {
    bs[..i] + [Block(bs[i].addr, bs[i].total + bs[i + 1].total, false)] + bs[i + 2..]
  }

  /** Two words stored one after the other, at the start of a block. */
  lemma NodeStored(m: seq<u8>, w: nat, a: nat, total: nat, next: nat)
    requires a + 2 * w <= |m| && total < Range(w) && next < Range(w)
    ensures var m' := StoreWord(StoreWord(m, a, w, total), a + w, w, next);
            && LoadWord(m', a, w) == total && LoadWord(m', a + w, w) == next && |m'| == |m|
            && forall x :: 0 <= x < |m| && !(a <= x < a + 2 * w) ==> m'[x] == m[x]
  {
    hide LoadWord, StoreWord;
    LoadStored(m, a, w, total);
    LoadStored(StoreWord(m, a, w, total), a + w, w, next);
    LoadSame(StoreWord(m, a, w, total), StoreWord(StoreWord(m, a, w, total), a + w, w, next), a, w);
  }

  lemma Merge(m: seq<u8>, m': seq<u8>, head: nat, bs: seq<Block>, w: nat, lo: nat, hi: nat, i: nat)
    requires Represents(m, head, bs, w, lo, hi) && i + 1 < |bs| && !bs[i].live && !bs[i + 1].live
    requires bs[i].addr + 2 * w <= |m|
    requires m' == StoreWord(StoreWord(m, bs[i].addr, w, bs[i].total + bs[i + 1].total), bs[i].addr + w, w, NextFree(bs, i + 2))
    ensures Represents(m', head, Merged(bs, i), w, lo, hi)
    ensures LiveSet(Merged(bs, i)) == LiveSet(bs) && Kept(m, m', LiveSet(bs))
  {
    hide *;
    RepresentsParts(m, head, bs, w, lo, hi);
    var cs, a, total, next := Merged(bs, i), bs[i].addr, bs[i].total + bs[i + 1].total, NextFree(bs, i + 2);
    var mid := [Block(a, total, false)];
    MergedSpliced(bs, i);
    MergedStretch(bs, w, lo, hi, i, |m|);
    SplicedTiles(bs, i, 2, mid, cs, w, |m|, lo, hi, hi);
    AroundStretch(bs, i, 2, mid, cs);
    Neighbours(m, head, bs, w, lo, hi, i);
    Neighbours(m, head, bs, w, lo, hi, i + 2);
    NodeStored(m, w, a, total, next);
    var p := LastFree(bs, i);
    LinkSame(m, m', head, w, p);
    assert cs[i] == mid[0];
    OneFree(bs, i);
    OneFree(cs, i);
    LinkAtMeaning(m', head, cs, w, i);
    LinkOf(m', head, w, a);
    LinkAtMeaning(m', head, cs, w, i + 1);
    IsWritten(m, m', w, a, StretchEnd(bs, i, 2, hi), p);
    Replaced(m, m', head, head, bs, w, lo, hi, i, 2, mid, cs, hi);
    SplicedLive(bs, i, 2, mid, cs);
    LiveOne(mid[0]);
    OthersKept(m, m', bs, w, lo, hi, i, 2, hi, LiveSet(bs));
  }

  lemma LinkOf(m: seq<u8>, head: nat, w: nat, p: nat)
    requires p > 0 && p + 2 * w <= |m|
    ensures Link(m, head, w, p) == LoadWord(m, p + w, w)
  {
  }

  lemma IsWritten(m: seq<u8>, m': seq<u8>, w: nat, a: nat, b: nat, p: nat)
    requires |m'| == |m|
    requires forall x :: 0 <= x < |m| && !(a <= x < b) && !(p != 0 && p + w <= x < p + 2 * w) ==> m'[x] == m[x]
    ensures Written(m, m', w, a, b, p)
  {
  }

  lemma MergedSpliced(bs: seq<Block>, i: nat)
    requires i + 1 < |bs|
    ensures Spliced(bs, i, 2, [Block(bs[i].addr, bs[i].total + bs[i + 1].total, false)], Merged(bs, i))
  {
  }

  lemma MergedStretch(bs: seq<Block>, w: nat, lo: nat, hi: nat, i: nat, size: nat)
    requires Tiled(bs, lo, hi) && Sized(bs, w) && InMemory(bs, size) && i + 1 < |bs| && w > 0
    ensures var mid := [Block(bs[i].addr, bs[i].total + bs[i + 1].total, false)];
            && Boundary(bs, i, hi) == bs[i].addr && bs[i].addr + 2 * w <= StretchEnd(bs, i, 2, hi)
            && Tiled(mid, Boundary(bs, i, hi), StretchEnd(bs, i, 2, hi)) && Sized(mid, w)
            && mid[0].total < size
  {
    hide *;
    var b := Block(bs[i].addr, bs[i].total + bs[i + 1].total, false);
    TiledNext(bs, lo, hi, i);
    TiledNext(bs, lo, hi, i + 1);
    BoundaryOf(bs, i, 2, hi, hi);
    BoundaryOf(bs, i + 1, 1, hi, hi);
    SizedAt(bs, w, size, i);
    SizedAt(bs, w, size, i + 1);
    BlockEnd(bs[i]);
    BlockEnd(bs[i + 1]);
    BlockEnd(b);
    MultipleSum(bs[i].total, bs[i + 1].total, w);
    OneTiled(b);
    OneSized(b, w);
  }

  lemma SizedAt(bs: seq<Block>, w: nat, size: nat, i: nat)
    requires Sized(bs, w) && InMemory(bs, size) && i < |bs|
    ensures 2 * w <= bs[i].total && WordMultiple(bs[i].total, w) && 0 < bs[i].addr && bs[i].End() <= size
  {
  }

  lemma MultipleSum(a: nat, b: nat, w: nat)
    requires WordMultiple(a, w) && WordMultiple(b, w)
    ensures WordMultiple(a + b, w)
  {
    hide *;
    MultipleIs(a, w);
    MultipleIs(b, w);
    MultipleOf(a + b, w, if w == 2 then a / 2 + b / 2 else a / 4 + b / 4);
  }

  lemma MultipleIs(n: nat, w: nat)
    requires WordMultiple(n, w)
    ensures if w == 2 then n == 2 * (n / 2) else n == 4 * (n / 4)
  {
  }

  lemma MultipleOf(n: nat, w: nat, k: int)
    requires n == if w == 2 then 2 * k else 4 * k
    ensures WordMultiple(n, w)
  {
    Bits.DivModUnique(n, if w == 2 then 2 else 4, k, 0);
  }

  lemma OneSized(b: Block, w: nat)
    requires 2 * w <= b.total && WordMultiple(b.total, w)
    ensures Sized([b], w)
  {
  }

  lemma OneTiled(b: Block)
    requires b.total > 0
    ensures Tiled([b], b.addr, b.End())
  {
    assert [b][1..] == [];
  }

  /** Clients own what the replaced stretch loses and what it gains. */
  lemma SplicedLive(bs: seq<Block>, i: nat, k: nat, mid: seq<Block>, cs: seq<Block>)
    requires Spliced(bs, i, k, mid, cs)
    ensures (forall j :: i <= j < i + k ==> !bs[j].live) ==>
              && LiveSet(cs) == LiveSet(bs) + LiveSet(mid)
              && forall b :: b in LiveSet(bs) ==> exists j :: 0 <= j < |bs| && !(i <= j < i + k) && bs[j] == b && b.live
  {
  }

  lemma LiveOne(b: Block)
    ensures LiveSet([b]) == if b.live then {b} else {}
  {
    assert b in [b];
  }

  // ----- a block leaves the free list whole -----

  function Taken(bs: seq<Block>, i: nat): seq<Block>
    requires i < |bs|
  {
    bs[..i] + [Block(bs[i].addr, bs[i].total, true)] + bs[i + 1..]
  }

  lemma TakenSpliced(bs: seq<Block>, i: nat, b: Block)
    requires i < |bs|
    ensures Spliced(bs, i, 1, [b], bs[..i] + [b] + bs[i + 1..])
  {
  }

  lemma OneStretch(bs: seq<Block>, w: nat, lo: nat, hi: nat, i: nat, live: bool)
    requires Tiled(bs, lo, hi) && Sized(bs, w) && i < |bs| && w > 0
    ensures var mid := [Block(bs[i].addr, bs[i].total, live)];
            && Boundary(bs, i, hi) == bs[i].addr && bs[i].addr + 2 * w <= StretchEnd(bs, i, 1, hi) == bs[i].End()
            && Tiled(mid, Boundary(bs, i, hi), StretchEnd(bs, i, 1, hi)) && Sized(mid, w)
  {
    hide Tiled;
    TiledNext(bs, lo, hi, i);
    OneTiled(Block(bs[i].addr, bs[i].total, live));
  }

  lemma TakeWhole(m: seq<u8>, m': seq<u8>, head: nat, head': nat, bs: seq<Block>, w: nat, lo: nat, hi: nat, i: nat)
    requires Represents(m, head, bs, w, lo, hi) && i < |bs| && !bs[i].live
    requires LastFree(bs, i) + 2 * w <= |m| && m' == SetLink(m, w, LastFree(bs, i), NextFree(bs, i + 1))
    requires head' == SetHead(head, LastFree(bs, i), NextFree(bs, i + 1))
    ensures Represents(m', head', Taken(bs, i), w, lo, hi)
    ensures LiveSet(Taken(bs, i)) == LiveSet(bs) + {Block(bs[i].addr, bs[i].total, true)} && Kept(m, m', LiveSet(bs))
  {
    hide *;
    RepresentsParts(m, head, bs, w, lo, hi);
    var cs, next, p := Taken(bs, i), NextFree(bs, i + 1), LastFree(bs, i);
    var mid := [Block(bs[i].addr, bs[i].total, true)];
    TakenIs(bs, i);
    TakenSpliced(bs, i, mid[0]);
    OneStretch(bs, w, lo, hi, i, true);
    SplicedTiles(bs, i, 1, mid, cs, w, |m|, lo, hi, hi);
    AroundStretch(bs, i, 1, mid, cs);
    Neighbours(m, head, bs, w, lo, hi, i);
    Neighbours(m, head, bs, w, lo, hi, i + 1);
    assert cs[i] == mid[0];
    OneLive(cs, i);
    LinkSet(m, head, w, p, next);
    LinkAtMeaning(m', head', cs, w, i);
    LinkAtMeaning(m', head', cs, w, i + 1);
    HeaderAt(m, bs, w, i);
    LoadSame(m, m', bs[i].addr, w);
    IsWritten(m, m', w, bs[i].addr, StretchEnd(bs, i, 1, hi), p);
    SameHead(head, p, next);
    Replaced(m, m', head, head', bs, w, lo, hi, i, 1, mid, cs, hi);
    SplicedLive(bs, i, 1, mid, cs);
    LiveOne(mid[0]);
    OthersKept(m, m', bs, w, lo, hi, i, 1, hi, LiveSet(bs));
  }

  lemma TakenIs(bs: seq<Block>, i: nat)
    requires i < |bs|
    ensures Taken(bs, i) == bs[..i] + [Block(bs[i].addr, bs[i].total, true)] + bs[i + 1..]
  {
  }

  lemma HeaderAt(m: seq<u8>, bs: seq<Block>, w: nat, i: nat)
    requires Sized(bs, w) && InMemory(bs, |m|) && Headers(m, bs, w) && i < |bs|
    ensures bs[i].addr + w <= |m| && LoadWord(m, bs[i].addr, w) == bs[i].total && 0 < bs[i].addr
    ensures 2 * w <= bs[i].total && WordMultiple(bs[i].total, w) && bs[i].End() <= |m|
  {
  }

  lemma SameHead(head: nat, p: nat, x: nat)
    ensures p != 0 ==> SetHead(head, p, x) == head
  {
  }

  // ----- a block is split, and its second part takes its place in the free list -----

  function SplitBlocks(b: Block, wanted: nat): seq<Block>
    requires wanted <= b.total
  {
    [Block(b.addr, wanted, true), Block(b.addr + wanted, b.total - wanted, false)]
  }

  function Split(bs: seq<Block>, i: nat, wanted: nat): seq<Block>
    requires i < |bs| && wanted <= bs[i].total
  {
    bs[..i] + SplitBlocks(bs[i], wanted) + bs[i + 1..]
  }

  /** split->total, split->next, the link to it, and block->total, in the order malloc stores them. */
  function SplitMemory(m: seq<u8>, w: nat, p: nat, a: nat, wanted: nat, remainder: nat, next: nat): seq<u8>
    requires a + wanted + 2 * w <= |m| && p + 2 * w <= |m|
  {
    StoreWord(SetLink(StoreWord(StoreWord(m, a + wanted, w, remainder), a + wanted + w, w, next), w, p, a + wanted), a, w, wanted)
  }

  lemma SplitStored(m: seq<u8>, head: nat, w: nat, p: nat, a: nat, wanted: nat, remainder: nat, next: nat)
    requires 0 < w && a + wanted + 2 * w <= |m| <= Range(w) && (p != 0 ==> p + 2 * w <= a) && 2 * w <= wanted < Range(w) && remainder < Range(w) && next < Range(w)
    ensures p + 2 * w <= |m|
    ensures var s, m' := a + wanted, SplitMemory(m, w, p, a, wanted, remainder, next);
            && |m'| == |m|
            && LoadWord(m', a, w) == wanted && LoadWord(m', s, w) == remainder && LoadWord(m', s + w, w) == next
            && Link(m', SetHead(head, p, s), w, p) == s
            && forall x :: 0 <= x < |m| && !(a <= x < s + 2 * w) && !(p != 0 && p + w <= x < p + 2 * w) ==> m'[x] == m[x]
  {
    hide LoadWord, StoreWord, SetLink, SetHead, Link;
    var s := a + wanted;
    var m1 := StoreWord(StoreWord(m, s, w, remainder), s + w, w, next);
    NodeStored(m, w, s, remainder, next);
    var m2 := SetLink(m1, w, p, s);
    LinkSet(m1, head, w, p, s);
    LoadSame(m1, m2, s, w);
    LoadSame(m1, m2, s + w, w);
    var m3 := StoreWord(m2, a, w, wanted);
    LoadStored(m2, a, w, wanted);
    LoadSame(m2, m3, s, w);
    LoadSame(m2, m3, s + w, w);
    LinkSame(m2, m3, SetHead(head, p, s), w, p);
  }

  lemma SplitStretch(bs: seq<Block>, w: nat, lo: nat, hi: nat, i: nat, wanted: nat)
    requires Tiled(bs, lo, hi) && Sized(bs, w) && i < |bs| && (w == 2 || w == 4)
    requires 2 * w <= wanted && WordMultiple(wanted, w) && wanted + 2 * w <= bs[i].total
    ensures var mid := SplitBlocks(bs[i], wanted);
            && Boundary(bs, i, hi) == bs[i].addr && bs[i].addr + wanted + 2 * w <= StretchEnd(bs, i, 1, hi) == bs[i].End()
            && Tiled(mid, Boundary(bs, i, hi), StretchEnd(bs, i, 1, hi)) && Sized(mid, w)
  {
    hide *;
    TiledNext(bs, lo, hi, i);
    BoundaryOf(bs, i, 1, hi, hi);
    var b, c := Block(bs[i].addr, wanted, true), Block(bs[i].addr + wanted, bs[i].total - wanted, false);
    BlockEnd(bs[i]);
    BlockEnd(b);
    BlockEnd(c);
    OneTiled(b);
    OneTiled(c);
    TiledConcat([b], [c], b.addr, c.addr, c.End());
    SplitSized(bs, w, i, wanted);
    assert SplitBlocks(bs[i], wanted) == [b] + [c] by { SplitIs(bs, i, wanted); }
  }

  lemma SplitSized(bs: seq<Block>, w: nat, i: nat, wanted: nat)
    requires Sized(bs, w) && i < |bs| && (w == 2 || w == 4)
    requires 2 * w <= wanted && WordMultiple(wanted, w) && wanted + 2 * w <= bs[i].total
    ensures Sized(SplitBlocks(bs[i], wanted), w)
  {
    MultipleRest(bs[i].total, wanted, w);
  }

  lemma MultipleRest(a: nat, b: nat, w: nat)
    requires WordMultiple(a, w) && WordMultiple(b, w) && b <= a
    ensures WordMultiple(a - b, w)
  {
    hide *;
    MultipleIs(a, w);
    MultipleIs(b, w);
    MultipleOf(a - b, w, if w == 2 then a / 2 - b / 2 else a / 4 - b / 4);
  }

  lemma SplitIs(bs: seq<Block>, i: nat, wanted: nat)
    requires i < |bs| && wanted <= bs[i].total
    ensures Spliced(bs, i, 1, SplitBlocks(bs[i], wanted), Split(bs, i, wanted))
    ensures |SplitBlocks(bs[i], wanted)| == 2
    ensures SplitBlocks(bs[i], wanted)[0] == Block(bs[i].addr, wanted, true)
    ensures SplitBlocks(bs[i], wanted)[1] == Block(bs[i].addr + wanted, bs[i].total - wanted, false)
    ensures LiveSet(SplitBlocks(bs[i], wanted)) == {Block(bs[i].addr, wanted, true)}
  {
    var mid := SplitBlocks(bs[i], wanted);
    assert mid[0] in mid;
  }

  lemma TakeSplit(m: seq<u8>, m': seq<u8>, head: nat, head': nat, bs: seq<Block>, w: nat, lo: nat, hi: nat, i: nat, wanted: nat)
    requires Represents(m, head, bs, w, lo, hi) && i < |bs| && !bs[i].live && (w == 2 || w == 4)
    requires 2 * w <= wanted && WordMultiple(wanted, w) && wanted + 2 * w <= bs[i].total
    requires LastFree(bs, i) + 2 * w <= |m| && bs[i].addr + wanted + 2 * w <= |m|
    requires m' == SplitMemory(m, w, LastFree(bs, i), bs[i].addr, wanted, bs[i].total - wanted, NextFree(bs, i + 1))
    requires head' == SetHead(head, LastFree(bs, i), bs[i].addr + wanted)
    ensures Represents(m', head', Split(bs, i, wanted), w, lo, hi)
    ensures LiveSet(Split(bs, i, wanted)) == LiveSet(bs) + {Block(bs[i].addr, wanted, true)} && Kept(m, m', LiveSet(bs))
  {
    hide *;
    RepresentsParts(m, head, bs, w, lo, hi);
    var cs, next, p := Split(bs, i, wanted), NextFree(bs, i + 1), LastFree(bs, i);
    var a := bs[i].addr;
    var mid := SplitBlocks(bs[i], wanted);
    SplitIs(bs, i, wanted);
    SplitStretch(bs, w, lo, hi, i, wanted);
    SplicedTiles(bs, i, 1, mid, cs, w, |m|, lo, hi, hi);
    AroundStretch(bs, i, 1, mid, cs);
    Neighbours(m, head, bs, w, lo, hi, i);
    Neighbours(m, head, bs, w, lo, hi, i + 1);
    HeaderAt(m, bs, w, i);
    BlockEnd(bs[i]);
    assert cs[i] == mid[0] && cs[i + 1] == mid[1];
    OneLive(cs, i);
    OneFree(cs, i + 1);
    SplitStored(m, head, w, p, a, wanted, bs[i].total - wanted, next);
    LinkAtMeaning(m', head', cs, w, i);
    LinkAtMeaning(m', head', cs, w, i + 1);
    LinkOf(m', head', w, a + wanted);
    LinkAtMeaning(m', head', cs, w, i + 2);
    IsWritten(m, m', w, a, StretchEnd(bs, i, 1, hi), p);
    SameHead(head, p, a + wanted);
    Replaced(m, m', head, head', bs, w, lo, hi, i, 1, mid, cs, hi);
    SplicedLive(bs, i, 1, mid, cs);
    OthersKept(m, m', bs, w, lo, hi, i, 1, hi, LiveSet(bs));
  }

  lemma BlockEnd(b: Block)
    ensures b.End() == b.addr + b.total
  {
  }

  // ----- a block is added at the break -----

  lemma Extend(m: seq<u8>, m': seq<u8>, head: nat, bs: seq<Block>, w: nat, lo: nat, hi: nat, wanted: nat)
    requires Represents(m, head, bs, w, lo, hi) && 2 * w <= wanted && WordMultiple(wanted, w) && hi + wanted <= |m|
    requires m' == StoreWord(m, hi, w, wanted)
    ensures Represents(m', head, bs + [Block(hi, wanted, true)], w, lo, hi + wanted) && LoadWord(m', hi, w) == wanted
    ensures LiveSet(bs + [Block(hi, wanted, true)]) == LiveSet(bs) + {Block(hi, wanted, true)} && Kept(m, m', LiveSet(bs))
  {
    hide *;
    RepresentsParts(m, head, bs, w, lo, hi);
    var b, i, hi' := Block(hi, wanted, true), |bs|, hi + wanted;
    var mid, cs := [b], bs + [b];
    ExtendedParts(bs, b, w, hi);
    SplicedTiles(bs, i, 0, mid, cs, w, |m|, lo, hi, hi');
    AroundStretch(bs, i, 0, mid, cs);
    Neighbours(m, head, bs, w, lo, hi, i);
    OneLive(cs, i);
    LoadStored(m, hi, w, wanted);
    var p := LastFree(bs, i);
    LinkSame(m, m', head, w, p);
    LinkAtMeaning(m', head, cs, w, i);
    LinkAtMeaning(m', head, cs, w, i + 1);
    IsWritten(m, m', w, hi, hi', p);
    Replaced(m, m', head, head, bs, w, lo, hi, i, 0, mid, cs, hi');
    SplicedLive(bs, i, 0, mid, cs);
    LiveOne(b);
    OthersKept(m, m', bs, w, lo, hi, i, 0, hi', LiveSet(bs));
  }

  lemma ExtendedParts(bs: seq<Block>, b: Block, w: nat, hi: nat)
    requires b.addr == hi && 2 * w <= b.total && WordMultiple(b.total, w) && w > 0
    ensures Spliced(bs, |bs|, 0, [b], bs + [b]) && (bs + [b])[|bs|] == b && Sized([b], w)
    ensures Boundary(bs, |bs|, hi) == hi && StretchEnd(bs, |bs|, 0, b.End()) == b.End() == hi + b.total
    ensures Tiled([b], hi, b.End())
  {
    OneTiled(b);
  }

  // ----- a block returns to the free list -----

  function Released(bs: seq<Block>, i: nat): seq<Block>
    requires i < |bs|
  {
    bs[..i] + [Block(bs[i].addr, bs[i].total, false)] + bs[i + 1..]
  }

  lemma ReleasedIs(bs: seq<Block>, i: nat)
    requires i < |bs|
    ensures Released(bs, i) == bs[..i] + [Block(bs[i].addr, bs[i].total, false)] + bs[i + 1..]
  {
  }

  /** block->next = current, then the link to block. */
  function ReleaseMemory(m: seq<u8>, w: nat, p: nat, a: nat, next: nat): seq<u8>
    requires a + 2 * w <= |m| && p + 2 * w <= |m|
  {
    SetLink(StoreWord(m, a + w, w, next), w, p, a)
  }

  lemma ReleaseMemoryIs(m: seq<u8>, w: nat, p: nat, a: nat, next: nat)
    requires a + 2 * w <= |m| && p + 2 * w <= |m|
    ensures ReleaseMemory(m, w, p, a, next) == SetLink(StoreWord(m, a + w, w, next), w, p, a)
  {
  }

  lemma ReleaseStored(m: seq<u8>, head: nat, w: nat, p: nat, a: nat, next: nat)
    requires 0 < a && a + 2 * w <= |m| <= Range(w) && (p != 0 ==> p + 2 * w <= a) && next < Range(w) && w > 0
    ensures p + 2 * w <= |m|
    ensures var m', head' := ReleaseMemory(m, w, p, a, next), SetHead(head, p, a);
            && |m'| == |m|
            && LoadWord(m', a, w) == LoadWord(m, a, w) && Link(m', head', w, a) == next && Link(m', head', w, p) == a
            && forall x :: 0 <= x < |m| && !(a + w <= x < a + 2 * w) && !(p != 0 && p + w <= x < p + 2 * w) ==> m'[x] == m[x]
  {
    hide LoadWord, StoreWord, SetLink, SetHead, Link;
    var m1 := StoreWord(m, a + w, w, next);
    LoadStored(m, a + w, w, next);
    var m2, head' := SetLink(m1, w, p, a), SetHead(head, p, a);
    LinkSet(m1, head, w, p, a);
    LoadSame(m, m2, a, w);
    LoadSame(m1, m2, a + w, w);
    LinkOf(m2, head', w, a);
  }

  lemma Release(m: seq<u8>, m': seq<u8>, head: nat, head': nat, bs: seq<Block>, w: nat, lo: nat, hi: nat, i: nat)
    requires Represents(m, head, bs, w, lo, hi) && i < |bs| && bs[i].live
    requires LastFree(bs, i) + 2 * w <= |m| && bs[i].addr + 2 * w <= |m|
    requires m' == ReleaseMemory(m, w, LastFree(bs, i), bs[i].addr, NextFree(bs, i))
    requires head' == SetHead(head, LastFree(bs, i), bs[i].addr)
    ensures Represents(m', head', Released(bs, i), w, lo, hi)
    ensures LiveSet(Released(bs, i)) == LiveSet(bs) - {bs[i]} && Kept(m, m', LiveSet(bs) - {bs[i]})
  {
    hide *;
    RepresentsParts(m, head, bs, w, lo, hi);
    var cs, next, p := Released(bs, i), NextFree(bs, i), LastFree(bs, i);
    var mid, a := [Block(bs[i].addr, bs[i].total, false)], bs[i].addr;
    ReleasedIs(bs, i);
    TakenSpliced(bs, i, mid[0]);
    OneStretch(bs, w, lo, hi, i, false);
    SplicedTiles(bs, i, 1, mid, cs, w, |m|, lo, hi, hi);
    AroundStretch(bs, i, 1, mid, cs);
    Neighbours(m, head, bs, w, lo, hi, i);
    Neighbours(m, head, bs, w, lo, hi, i + 1);
    HeaderAt(m, bs, w, i);
    assert cs[i] == mid[0];
    OneLive(bs, i);
    OneFree(cs, i);
    ReleaseStored(m, head, w, p, a, next);
    LinkAtMeaning(m', head', cs, w, i);
    LinkAtMeaning(m', head', cs, w, i + 1);
    IsWritten(m, m', w, a, StretchEnd(bs, i, 1, hi), p);
    SameHead(head, p, a);
    Replaced(m, m', head, head', bs, w, lo, hi, i, 1, mid, cs, hi);
    ReleasedLive(bs, w, lo, hi, i);
    OthersKept(m, m', bs, w, lo, hi, i, 1, hi, LiveSet(bs) - {bs[i]});
  }

  lemma ReleasedLive(bs: seq<Block>, w: nat, lo: nat, hi: nat, i: nat)
    requires Tiled(bs, lo, hi) && i < |bs| && bs[i].live
    ensures LiveSet(Released(bs, i)) == LiveSet(bs) - {bs[i]}
    ensures forall b :: b in LiveSet(bs) - {bs[i]} ==> exists j :: 0 <= j < |bs| && !(i <= j < i + 1) && bs[j] == b && b.live
  {
    hide Tiled;
    var cs := Released(bs, i);
    TakenSpliced(bs, i, Block(bs[i].addr, bs[i].total, false));
    SplicedShape(bs, i, 1, [Block(bs[i].addr, bs[i].total, false)], cs);
    forall j | 0 <= j < |bs| && j != i ensures bs[j] != bs[i] {
      if j < i { FreeOrder(bs, lo, hi, j, i); } else { FreeOrder(bs, lo, hi, i, j); }
    }
    forall b | b in LiveSet(bs) && b != bs[i] ensures b in cs {
      var j :| 0 <= j < |bs| && bs[j] == b;
      assert cs[j] == b;
    }
    forall b | b in LiveSet(cs) ensures b in LiveSet(bs) && b != bs[i] {
      var j :| 0 <= j < |cs| && cs[j] == b;
      assert j != i && bs[j] == b;
    }
  }

  // ----- walking the list -----

  /** What memory holds at a free block. */
  lemma AtFree(m: seq<u8>, head: nat, bs: seq<Block>, w: nat, lo: nat, hi: nat, f: nat)
    requires Represents(m, head, bs, w, lo, hi) && f < |bs| && !bs[f].live
    ensures 0 < bs[f].addr && bs[f].addr + 2 * w <= |m| && bs[f].addr + bs[f].total == bs[f].End() <= hi <= |m|
    ensures LoadWord(m, bs[f].addr, w) == bs[f].total && LoadWord(m, bs[f].addr + w, w) == NextFree(bs, f + 1)
    ensures 2 * w <= bs[f].total && WordMultiple(bs[f].total, w)
    ensures Boundary(bs, f, hi) == bs[f].addr
  {
    hide *;
    RepresentsParts(m, head, bs, w, lo, hi);
    BoundaryOf(bs, f, 0, hi, hi);
    HeaderAt(m, bs, w, f);
    BlockEnd(bs[f]);
    TiledBounds(bs, lo, hi);
    Neighbours(m, head, bs, w, lo, hi, f + 1);
    OneFree(bs, f);
    LinkOf(m, head, w, bs[f].addr);
  }

  /** Memory tells when the next free block is contiguous. */
  lemma Adjacent(m: seq<u8>, head: nat, bs: seq<Block>, w: nat, lo: nat, hi: nat, f: nat)
    requires Represents(m, head, bs, w, lo, hi) && f < |bs| && !bs[f].live
    ensures NextFree(bs, f + 1) != 0 && bs[f].addr + bs[f].total == NextFree(bs, f + 1) <==> f + 1 < |bs| && !bs[f + 1].live
    ensures f + 1 < |bs| && !bs[f + 1].live ==> NextFree(bs, f + 1) == bs[f + 1].addr
  {
    hide Headers, Linked, LoadWord, NextFree, Tiled;
    RepresentsParts(m, head, bs, w, lo, hi);
    TiledNext(bs, lo, hi, f);
    TiledBounds(bs, lo, hi);
    var n := FreeIndex(bs, f + 1);
    if n > f + 1 && n < |bs| { FreeOrder(bs, lo, hi, f + 1, n); }
  }

  /** The list is empty from i on exactly when no free block follows. */
  lemma ListEnd(m: seq<u8>, head: nat, bs: seq<Block>, w: nat, lo: nat, hi: nat, i: nat)
    requires Represents(m, head, bs, w, lo, hi) && i <= |bs|
    ensures NextFree(bs, i) == 0 <==> FreeIndex(bs, i) == |bs|
    ensures FreeIndex(bs, i) < |bs| ==> NextFree(bs, i) == bs[FreeIndex(bs, i)].addr && !bs[FreeIndex(bs, i)].live
    ensures LastFree(bs, FreeIndex(bs, i)) == LastFree(bs, i)
  {
    hide Headers, Linked, LoadWord, NextFree, LastFree, Tiled;
    RepresentsParts(m, head, bs, w, lo, hi);
    TiledBounds(bs, lo, hi);
    LastFreeSkip(bs, i, FreeIndex(bs, i));
  }

  /** The list head leads to the first free block. */
  lemma ListHead(m: seq<u8>, head: nat, bs: seq<Block>, w: nat, lo: nat, hi: nat)
    requires Represents(m, head, bs, w, lo, hi)
    ensures head == NextFree(bs, 0) && LastFree(bs, 0) == 0
  {
    assert LinkAt(m, head, bs, w, 0);
  }

  /** The free list from index i on: the addresses a walk along the links visits. */
  ghost function Walk(bs: seq<Block>, i: nat): seq<nat>
    requires i <= |bs|
    decreases |bs| - i
  {
    if i == |bs| then [] else if bs[i].live then Walk(bs, i + 1) else [bs[i].addr] + Walk(bs, i + 1)
  }

  ghost predicate FreeFrom(bs: seq<Block>, i: nat, a: nat) {
    exists j :: i <= j < |bs| && !bs[j].live && bs[j].addr == a
  }

  /** Following the links in memory from address a visits exactly these addresses. */
  ghost predicate Chains(m: seq<u8>, w: nat, a: nat, list: seq<nat>)
    decreases |list|
  {
    if list == [] then a == 0
    else a == list[0] && a > 0 && a + 2 * w <= |m| && Chains(m, w, LoadWord(m, a + w, w), list[1..])
  }

  lemma {:induction false} WalkIsStored(m: seq<u8>, head: nat, bs: seq<Block>, w: nat, lo: nat, hi: nat, i: nat)
    requires Represents(m, head, bs, w, lo, hi) && i <= |bs|
    ensures Chains(m, w, NextFree(bs, i), Walk(bs, i))
    decreases |bs| - i
  {
    hide Represents, LoadWord;
    if i < |bs| {
      WalkIsStored(m, head, bs, w, lo, hi, i + 1);
      if !bs[i].live {
        AtFree(m, head, bs, w, lo, hi, i);
        assert Walk(bs, i)[1..] == Walk(bs, i + 1);
      }
    }
  }

  /** The free list holds the free blocks and no others. */
  lemma {:induction false} WalkMembers(bs: seq<Block>, i: nat, a: nat)
    requires i <= |bs|
    ensures a in Walk(bs, i) <==> FreeFrom(bs, i, a)
    decreases |bs| - i
  {
    if i < |bs| {
      WalkMembers(bs, i + 1, a);
      if FreeFrom(bs, i, a) {
        var j :| i <= j < |bs| && !bs[j].live && bs[j].addr == a;
        assert j == i || FreeFrom(bs, i + 1, a);
      }
      if FreeFrom(bs, i + 1, a) {
        var j :| i + 1 <= j < |bs| && !bs[j].live && bs[j].addr == a;
        assert FreeFrom(bs, i, a);
      }
    }
  }

  /** The free list is strictly ordered by address. */
  lemma {:induction false} WalkOrdered(bs: seq<Block>, lo: nat, hi: nat, i: nat)
    requires Tiled(bs, lo, hi) && i <= |bs|
    ensures forall x, y :: 0 <= x < y < |Walk(bs, i)| ==> Walk(bs, i)[x] < Walk(bs, i)[y]
    decreases |bs| - i
  {
    hide Tiled;
    if i < |bs| {
      WalkOrdered(bs, lo, hi, i + 1);
      var tail := Walk(bs, i + 1);
      forall a | a in tail ensures bs[i].addr < a {
        WalkMembers(bs, i + 1, a);
        var j :| i + 1 <= j < |bs| && !bs[j].live && bs[j].addr == a;
        FreeOrder(bs, lo, hi, i, j);
      }
      var list := Walk(bs, i);
      forall x, y | 0 <= x < y < |list| ensures list[x] < list[y] {
        if !bs[i].live {
          assert list == [bs[i].addr] + tail && list[y] == tail[y - 1] && tail[y - 1] in tail;
          if x > 0 { assert list[x] == tail[x - 1]; }
        } else {
          assert list == tail;
        }
      }
    }
  }

  /** Every byte between the heap start and the break belongs to exactly one block. */
  lemma {:induction false} Conservation(bs: seq<Block>, lo: nat, hi: nat)
    requires Tiled(bs, lo, hi)
    ensures Bytes(bs, true) + Bytes(bs, false) == hi - lo
  {
    if bs != [] { Conservation(bs[1..], bs[0].End(), hi); }
  }

  ghost function Bytes(bs: seq<Block>, live: bool): nat {
    if bs == [] then 0 else (if bs[0].live == live then bs[0].total else 0) + Bytes(bs[1..], live)
  }

  // ----- clients write their payloads -----

  /** Writes inside the payload of a live block keep the heap. */
  lemma PayloadWritten(m: seq<u8>, m': seq<u8>, head: nat, bs: seq<Block>, w: nat, lo: nat, hi: nat, b: Block)
    requires Represents(m, head, bs, w, lo, hi) && b in LiveSet(bs) && SameOutside(m, m', b.addr + w, b.End())
    ensures Represents(m', head, bs, w, lo, hi)
    ensures Kept(m, m', LiveSet(bs) - {b})
    ensures b.End() <= |m| && 2 * w <= b.total && LoadWord(m, b.addr, w) == b.total == LoadWord(m', b.addr, w)
  {
    hide *;
    var i := LiveIndex(bs, b);
    RepresentsParts(m, head, bs, w, lo, hi);
    OneStretch(bs, w, lo, hi, i, true);
    SameBlock(bs, i);
    SplicedTiles(bs, i, 1, [b], bs, w, |m|, lo, hi, hi);
    HeaderAt(m, bs, w, i);
    Neighbours(m, head, bs, w, lo, hi, i);
    Neighbours(m, head, bs, w, lo, hi, i + 1);
    var p := LastFree(bs, i);
    OutsideOnly(m, m', b.addr + w, b.End());
    BlockEnd(b);
    LinkSame(m, m', head, w, p);
    OneLive(bs, i);
    LinkAtMeaning(m', head, bs, w, i);
    LinkAtMeaning(m', head, bs, w, i + 1);
    LoadSame(m, m', b.addr, w);
    IsWritten(m, m', w, b.addr, StretchEnd(bs, i, 1, hi), p);
    Replaced(m, m', head, head, bs, w, lo, hi, i, 1, [b], bs, hi);
    ReleasedLive(bs, w, lo, hi, i);
    OthersKept(m, m', bs, w, lo, hi, i, 1, hi, LiveSet(bs) - {b});
  }

  lemma OutsideOnly(m: seq<u8>, m': seq<u8>, lo: nat, hi: nat)
    requires SameOutside(m, m', lo, hi)
    ensures |m'| == |m| && forall i :: 0 <= i < |m| && !(lo <= i < hi) ==> m'[i] == m[i]
  {
  }

  lemma SameBlock(bs: seq<Block>, i: nat)
    requires i < |bs|
    ensures Spliced(bs, i, 1, [bs[i]], bs)
    ensures bs[i].live ==> Block(bs[i].addr, bs[i].total, true) == bs[i]
  {
  }

  lemma LiveIndex(bs: seq<Block>, b: Block) returns (i: nat)
    requires b in LiveSet(bs)
    ensures i < |bs| && bs[i] == b && b.live
  {
    i :| i < |bs| && bs[i] == b;
  }

  /** Two live blocks do not overlap. */
  lemma LiveDisjoint(bs: seq<Block>, lo: nat, hi: nat, b: Block, c: Block)
    requires Tiled(bs, lo, hi) && b in LiveSet(bs) && c in LiveSet(bs) && b != c
    ensures b.End() <= c.addr || c.End() <= b.addr
  {
    hide Tiled, LiveSet;
    var i := LiveIndex(bs, b);
    var j := LiveIndex(bs, c);
    if i < j { TiledOrder(bs, lo, hi, i, j); } else { TiledOrder(bs, lo, hi, j, i); }
  }

  /** What memory holds at a live block. */
  lemma AtLive(m: seq<u8>, head: nat, bs: seq<Block>, w: nat, lo: nat, hi: nat, b: Block)
    requires Represents(m, head, bs, w, lo, hi) && b in LiveSet(bs)
    ensures b.live && 0 < b.addr && b.addr + b.total == b.End() <= |m| && 2 * w <= b.total && LoadWord(m, b.addr, w) == b.total
  {
    hide *;
    RepresentsParts(m, head, bs, w, lo, hi);
    var i := LiveIndex(bs, b);
    HeaderAt(m, bs, w, i);
    BlockEnd(b);
  }

  /** A kept block keeps its header. */
  lemma KeptHeader(m: seq<u8>, m': seq<u8>, live: set<Block>, b: Block, w: nat)
    requires Kept(m, m', live) && b in live && w <= b.total && b.End() <= |m|
    ensures |m'| == |m| && LoadWord(m', b.addr, w) == LoadWord(m, b.addr, w)
    ensures m'[b.addr..b.End()] == m[b.addr..b.End()]
  {
    LoadSame(m, m', b.addr, w);
  }
}
