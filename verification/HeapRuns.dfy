/** Which free space malloc uses: maximal runs of contiguous free blocks, lowest address first. */
module HeapRuns {
  import opened Bits
  import opened HeapBlocks

  /** Bytes of the contiguous free blocks from index i on. */
  function RunBytes(bs: seq<Block>, i: nat): nat
    requires i <= |bs|
    decreases |bs| - i
  {
    if i == |bs| || bs[i].live then 0 else bs[i].total + RunBytes(bs, i + 1)
  }

  /** A maximal run of free blocks starts at index i. */
  predicate RunStart(bs: seq<Block>, i: nat)
    requires i <= |bs|
  {
    i < |bs| && !bs[i].live && (i == 0 || bs[i - 1].live)
  }

  predicate Fits(bs: seq<Block>, i: nat, wanted: nat)
    requires i <= |bs|
  {
    RunStart(bs, i) && RunBytes(bs, i) >= wanted
  }

  /** The first maximal run, from index i on, that is large enough. */
  function FirstFit(bs: seq<Block>, wanted: nat, i: nat): (k: nat)
    requires i <= |bs|
    ensures i <= k <= |bs| && (k < |bs| ==> Fits(bs, k, wanted))
    ensures forall j :: i <= j < k ==> !Fits(bs, j, wanted)
    decreases |bs| - i
  {
    if i == |bs| || Fits(bs, i, wanted) then i else FirstFit(bs, wanted, i + 1)
  }

  lemma FirstFitIs(bs: seq<Block>, wanted: nat, k: nat)
    requires k <= |bs| && (k < |bs| ==> Fits(bs, k, wanted)) && forall j :: 0 <= j < k ==> !Fits(bs, j, wanted)
    ensures FirstFit(bs, wanted, 0) == k
  {
  }

  /** malloc has visited the runs before index k of the row it was given; i is the same place
  in the row as merged so far. */
  ghost predicate Visited(initial: seq<Block>, k: nat, bs: seq<Block>, i: nat, wanted: nat) {
    && k <= |initial| && i <= |bs| && bs[i..] == initial[k..]
    && (k == 0 || k == |initial| || initial[k].live || initial[k - 1].live)
    && forall j :: 0 <= j < k ==> !Fits(initial, j, wanted)
  }

  /** The run that starts at index k of the initial row is merged into block f as far as index e. */
  ghost predicate Merging(initial: seq<Block>, k: nat, e: nat, bs: seq<Block>, f: nat, wanted: nat) {
    && k < e <= |initial| && f < |bs| && !bs[f].live && bs[f].addr == initial[k].addr
    && bs[f + 1..] == initial[e..]
    && RunStart(initial, k) && (forall j :: k <= j < e ==> !initial[j].live)
    && bs[f].total + RunBytes(initial, e) == RunBytes(initial, k)
    && forall j :: 0 <= j < k ==> !Fits(initial, j, wanted)
  }

  lemma StartVisit(bs: seq<Block>, wanted: nat)
    ensures Visited(bs, 0, bs, 0, wanted)
  {
  }

  /** The next free block starts a run. */
  lemma StartRun(initial: seq<Block>, k: nat, bs: seq<Block>, i: nat, wanted: nat)
    requires Visited(initial, k, bs, i, wanted) && FreeIndex(bs, i) < |bs|
    ensures var f := FreeIndex(bs, i);
            Merging(initial, k + (f - i), k + (f - i) + 1, bs, f, wanted)
  {
    var f := FreeIndex(bs, i);
    var k' := k + (f - i);
    assert |bs| - i == |initial| - k by { assert |bs[i..]| == |initial[k..]|; }
    forall j | k <= j < |initial| ensures initial[j] == bs[j - k + i] {
      assert initial[j] == initial[k..][j - k] == bs[i..][j - k];
    }
    assert bs[f + 1..] == bs[i..][f + 1 - i..];
    assert initial[k' + 1..] == initial[k..][f + 1 - i..];
    assert RunBytes(initial, k') == initial[k'].total + RunBytes(initial, k' + 1);
  }

  lemma GrowRun(initial: seq<Block>, k: nat, e: nat, bs: seq<Block>, f: nat, wanted: nat, cs: seq<Block>)
    requires Merging(initial, k, e, bs, f, wanted) && f + 1 < |bs| && !bs[f + 1].live
    requires cs == bs[..f] + [Block(bs[f].addr, bs[f].total + bs[f + 1].total, false)] + bs[f + 2..]
    ensures Merging(initial, k, e + 1, cs, f, wanted)
  {
    assert |bs[f + 1..]| == |initial[e..]|;
    assert bs[f + 1] == bs[f + 1..][0] == initial[e..][0] == initial[e];
    assert cs[f + 1..] == bs[f + 2..] == bs[f + 1..][1..];
    assert initial[e + 1..] == initial[e..][1..];
  }

  /** No free block follows: the run is merged completely. */
  lemma WholeRun(initial: seq<Block>, k: nat, e: nat, bs: seq<Block>, f: nat, wanted: nat)
    requires Merging(initial, k, e, bs, f, wanted) && (f + 1 == |bs| || bs[f + 1].live)
    ensures bs[f].total == RunBytes(initial, k)
    ensures bs[f].total >= wanted ==> FirstFit(initial, wanted, 0) == k < |initial|
    ensures bs[f].total < wanted ==> Visited(initial, e, bs, f + 1, wanted)
  {
    assert |bs[f + 1..]| == |initial[e..]|;
    if e < |initial| { assert initial[e] == initial[e..][0] == bs[f + 1..][0] == bs[f + 1]; }
    if bs[f].total >= wanted { FirstFitIs(initial, wanted, k); }
  }

  lemma AllVisited(initial: seq<Block>, k: nat, bs: seq<Block>, i: nat, wanted: nat)
    requires Visited(initial, k, bs, i, wanted) && FreeIndex(bs, i) == |bs|
    ensures FirstFit(initial, wanted, 0) == |initial|
  {
    assert |bs[i..]| == |initial[k..]|;
    forall j | 0 <= j < |initial| ensures !Fits(initial, j, wanted) {
      if j >= k { assert initial[j] == initial[k..][j - k] == bs[i..][j - k] == bs[j - k + i]; }
    }
    FirstFitIs(initial, wanted, |initial|);
  }

  // ----- the size of a block -----

  function SizeMax(w: nat): nat {
    if w == 2 then 0xffff else 0xffff_ffff
  }

  /** ~mask for mask == sizeof(size_t) - 1 */
  function AlignMask(w: nat): nat {
    if w == 2 then 0xfffe else 0xffff_fffc
  }

  lemma AlignDown(x: nat, w: nat)
    requires (w == 2 || w == 4) && x <= SizeMax(w)
    ensures And(x, AlignMask(w)) == if w == 2 then x - x % 2 else x - x % 4
  {
    hide And;
    Pow2Values();
    if w == 2 {
      AndHighMask(x, 0xfffe, 0x7fff, 1);
      AndMask(x / 2, 0x7fff, 15);
    } else {
      assert Pow2(30) == 0x4000_0000;
      AndHighMask(x, 0xffff_fffc, 0x3fff_ffff, 2);
      AndMask(x / 4, 0x3fff_ffff, 30);
    }
  }

  lemma RoundedTotal(size: nat, w: nat)
    requires (w == 2 || w == 4) && size + 2 * w - 1 <= SizeMax(w)
    ensures var rounded := And(size + 2 * w - 1, AlignMask(w));
            WordMultiple(rounded, w) && size + w <= rounded < size + 2 * w && rounded <= SizeMax(w)
    ensures WordMultiple(2 * w, w) && 2 * w <= SizeMax(w)
  {
    hide And;
    AlignDown(size + 2 * w - 1, w);
  }

  /** The total of a block for a request of `size` bytes: the least word multiple that holds
  the header and the payload, and a free-list node later; 0 for no block. */
  function BlockSize(size: nat, w: nat): (total: nat)
    requires w == 2 || w == 4
    requires size <= SizeMax(w)
    ensures total == 0 <==> size == 0 || size + 2 * w - 1 > SizeMax(w)
    ensures total != 0 ==> WordMultiple(total, w) && total >= size + w && total >= 2 * w && total <= SizeMax(w)
    ensures total != 0 ==> total == 2 * w || total < size + 2 * w
  {
    hide *;
    var mask := w - 1;
    if size == 0 || size > SizeMax(w) - w - mask then 0
    else
      RoundedTotal(size, w);
      var rounded := And(size + w + mask, AlignMask(w));
      if rounded < 2 * w then 2 * w else rounded
  }

  /** No smaller total would do. */
  lemma BlockSizeLeast(size: nat, w: nat, total: nat)
    requires (w == 2 || w == 4) && size <= SizeMax(w) && BlockSize(size, w) != 0
    requires WordMultiple(total, w) && total >= size + w && total >= 2 * w
    ensures BlockSize(size, w) <= total
  {
    hide BlockSize;
    var least := BlockSize(size, w);
    assert least <= total || least < total + w;
  }
}
