/** malloc, free, calloc, realloc and sbrk (alloc.c, heap.c) on raw memory.

The ghost field `blocks` is the row of blocks that memory represents; clients see only the
set of live ones.  A pointer is an address, 0 is NULL, and w is sizeof(size_t), which is
also the size of a pointer. */
module Alloc {
  import opened RawMemory
  import opened HeapBlocks
  import opened HeapSteps
  import opened HeapRuns
  import Rounding

  const ENOMEM: int := 12
  const EINVAL: int := 22
  const FAILED: int := -1

  /** The live block whose payload starts at ptr. */
  ghost function BlockOf(m: seq<u8>, w: nat, ptr: nat): Block
    requires w <= ptr <= |m|
  {
    Block(ptr - w, LoadWord(m, ptr - w, w), true)
  }

  /** How many bytes realloc copies: the smaller of the old payload and the new request. */
  function CopySize(b: Block, w: nat, size: nat): nat
    requires w <= b.total
  {
    if b.total - w > size then size else b.total - w
  }

  ghost predicate Carried(m: seq<u8>, from: nat, m': seq<u8>, to: nat, n: nat) {
    from + n <= |m| && to + n <= |m'| && m'[to..to + n] == m[from..from + n]
  }

  lemma IsCarried(m: seq<u8>, from: nat, m': seq<u8>, to: nat, n: nat, b: Block, w: nat, size: nat)
    requires from + n <= |m| && to + n <= |m'| && m'[to..to + n] == m[from..from + n]
    requires w <= b.total && n == if b.total - w > size then size else b.total - w
    ensures Carried(m, from, m', to, CopySize(b, w, size))
  {
  }

  class Heap {
    const w: nat
    const start: nat
    const end: nat
    const mem: array<u8>
    var freeHead: nat
    var heapBreak: nat
    var errno: int
    ghost var blocks: seq<Block>

    ghost predicate Valid()
      reads this, mem
    {
      && (w == 2 || w == 4) && end <= mem.Length
      && Represents(mem[..], freeHead, blocks, w, start, heapBreak)
      && (heapBreak == start || heapBreak <= end)
    }

    ghost function Live(): set<Block>
      reads this
    {
      LiveSet(blocks)
    }

    /** ptr came from malloc and was not freed since. */
    ghost predicate Owned(ptr: nat)
      reads this, mem
    {
      w <= ptr <= mem.Length && BlockOf(mem[..], w, ptr) in Live()
    }

    ghost function OwnedIndex(ptr: nat): (i: nat)
      requires Owned(ptr)
      reads this, mem
      ensures i < |blocks| && w <= ptr <= mem.Length && blocks[i] == BlockOf(mem[..], w, ptr) && blocks[i].live
      ensures blocks[i].addr == ptr - w
    {
      var i :| 0 <= i < |blocks| && blocks[i] == BlockOf(mem[..], w, ptr);
      i
    }

    constructor (w: nat, start: nat, end: nat, mem: array<u8>)
      requires (w == 2 || w == 4) && 0 < start <= mem.Length <= Range(w) && end <= mem.Length && 2 * w <= mem.Length
      ensures Valid() && Live() == {} && heapBreak == start && freeHead == 0
      ensures this.w == w && this.start == start && this.end == end && this.mem == mem
    {
      this.w, this.start, this.end, this.mem := w, start, end, mem;
      freeHead, heapBreak, errno, blocks := 0, start, 0, [];
    }

    function Total(block: nat): nat
      requires block + w <= mem.Length
      reads mem
    {
      LoadWord(mem[..], block, w)
    }

    function Next(block: nat): nat
      requires block + 2 * w <= mem.Length
      reads mem
    {
      LoadWord(mem[..], block + w, w)
    }

    /** A word store, byte by byte. */
    method Store(a: nat, x: nat)
      requires a + w <= mem.Length
      modifies mem
      ensures mem[..] == StoreWord(old(mem[..]), a, w, x)
    {
      ghost var m := mem[..];
      var rest, i := x, 0;
      while i < w
        invariant 0 <= i <= w && rest >= 0
        invariant StoreWord(mem[..], a + i, w - i, rest) == StoreWord(m, a, w, x)
      {
        ghost var before := mem[..];
        mem[a + i] := rest % 256;
        assert mem[..] == before[a + i := rest % 256];
        rest := rest / 256;
        i := i + 1;
      }
    }

    /** previous->next = x, or free_head = x. */
    method Relink(previous: nat, x: nat)
      requires previous + 2 * w <= mem.Length
      modifies mem, this`freeHead
      ensures mem[..] == SetLink(old(mem[..]), w, previous, x)
      ensures freeHead == SetHead(old(freeHead), previous, x)
    {
      if previous != 0 {
        Store(previous + w, x);
      } else {
        freeHead := x;
      }
    }

    /** Moves the break up when both ceilings, the end of the heap section and the limit
    below the stack, allow it. */
    method Sbrk(increment: int, limit: nat) returns (r: int)
      modifies this`heapBreak, this`errno
      ensures r != FAILED <==> increment >= 0 && old(heapBreak) + increment <= end && old(heapBreak) + increment <= limit
      ensures r != FAILED ==> r == old(heapBreak) && heapBreak == old(heapBreak) + increment && errno == old(errno)
      ensures r == FAILED ==> heapBreak == old(heapBreak) && errno == if increment < 0 then EINVAL else ENOMEM
    {
      var current, ceiling := heapBreak, end;
      if increment < 0 {
        errno := EINVAL;
        return FAILED;
      }
      var amount := increment;
      if current > ceiling || amount > ceiling - current {
        errno := ENOMEM;
        return FAILED;
      }
      if limit < current || amount > limit - current {
        errno := ENOMEM;
        return FAILED;
      }
      heapBreak := current + amount;
      return current;
    }

    method Free(ptr: nat)
      requires Valid() && (ptr == 0 || Owned(ptr))
      modifies mem, this`freeHead, this`blocks
      ensures Valid()
      ensures ptr == 0 ==> blocks == old(blocks) && freeHead == old(freeHead) && mem[..] == old(mem[..])
      ensures ptr != 0 ==> Live() == old(Live()) - {old(BlockOf(mem[..], w, ptr))}
      ensures Kept(old(mem[..]), mem[..], Live())
    {
      hide *;
      var previous, current := 0, freeHead;
      if ptr == 0 {
        KeptRefl(mem[..], Live());
        return;
      }
      ghost var m, bs, head := mem[..], blocks, freeHead;
      ValidParts();
      LiveIs();
      ghost var i := OwnedIndex(ptr);
      ghost var k := 0;
      ListHead(m, head, bs, w, start, heapBreak);
      var block := ptr - w;
      while current != 0 && current < block
        invariant mem[..] == m && freeHead == head
        invariant 0 <= k <= i && previous == LastFree(bs, k) && current == NextFree(bs, k)
        decreases i - k
      {
        k := FreeBefore(m, head, bs, w, start, heapBreak, k, i);
        NextIs(current);
        previous := current;
        current := Next(current);
      }
      FreeAfter(m, head, bs, w, start, heapBreak, k, i);
      ReleaseMemoryIs(m, w, previous, block, current);
      Store(block + w, current);
      Relink(previous, block);
      blocks := Released(bs, i);
      LiveIs();
      Release(m, mem[..], head, freeHead, bs, w, start, heapBreak, i);
      MakeValid();
    }

    /** The payload address malloc gives a request: in the lowest run of free space that is
    large enough, although free never joins blocks; only without one, at the break; 0 for NULL. */
    ghost function Placement(size: nat, limit: nat, initial: seq<Block>, top: nat): nat
      requires (w == 2 || w == 4) && size <= SizeMax(w)
    {
      var wanted, k := BlockSize(size, w), FirstFit(initial, BlockSize(size, w), 0);
      if wanted == 0 || wanted > 32767 then 0
      else if k < |initial| then initial[k].addr + w
      else if top + wanted <= end && top + wanted <= limit then top + w
      else 0
    }

    /** What malloc does: the state before is (initial, top), the row of blocks and the break. */
    ghost predicate Allocated(size: nat, limit: nat, initial: seq<Block>, top: nat, r: nat)
      requires (w == 2 || w == 4) && size <= SizeMax(w)
      reads this, mem
    {
      && r == Placement(size, limit, initial, top)
      && (r != 0 ==> Granted(size, initial, r))
      && (r == 0 ==> LiveSet(blocks) == LiveSet(initial))
      && heapBreak == if r == top + w then top + BlockSize(size, w) else top
    }

    /** The client gets one more live block, large enough and less than a list node too large. */
    ghost predicate Granted(size: nat, initial: seq<Block>, r: nat)
      requires (w == 2 || w == 4) && size <= SizeMax(w)
      reads this, mem
    {
      && w <= r <= mem.Length
      && var b := BlockOf(mem[..], w, r);
         && b !in LiveSet(initial) && LiveSet(blocks) == LiveSet(initial) + {b}
         && BlockSize(size, w) <= b.total < BlockSize(size, w) + 2 * w
    }

    method Malloc(size: nat, limit: nat) returns (r: nat)
      requires Valid() && size <= SizeMax(w)
      modifies mem, this`freeHead, this`heapBreak, this`errno, this`blocks
      ensures Valid() && Allocated(size, limit, old(blocks), old(heapBreak), r)
      ensures Kept(old(mem[..]), mem[..], old(Live()))
      ensures errno == if r == 0 && size > 0 then ENOMEM else old(errno)
    {
      hide *;
      ValidParts();
      LiveIs();
      KeptRefl(mem[..], Live());
      var wanted := BlockSize(size, w);
      var previous, block := 0, freeHead;
      if wanted == 0 {
        if size != 0 {
          errno := ENOMEM;
        }
        MakeValid();
        Refused(size, limit);
        return 0;
      }
      if wanted > 32767 {
        errno := ENOMEM;
        MakeValid();
        Refused(size, limit);
        return 0;
      }
      ghost var m, initial, lo, hi := mem[..], blocks, start, heapBreak;
      ghost var i: nat, k: nat := 0, 0;
      ListHead(m, freeHead, initial, w, lo, hi);
      StartVisit(initial, wanted);
      while block != 0
        invariant Represents(mem[..], freeHead, blocks, w, lo, hi) && heapBreak == hi && errno == old(errno)
        invariant LiveSet(blocks) == LiveSet(initial) && Kept(m, mem[..], LiveSet(initial))
        invariant i <= |blocks| && Visited(initial, k, blocks, i, wanted)
        invariant previous == LastFree(blocks, i) && block == NextFree(blocks, i)
        decreases |blocks| - i
      {
        ghost var before := mem[..];
        ListEnd(mem[..], freeHead, blocks, w, lo, hi, i);
        StartRun(initial, k, blocks, i, wanted);
        ghost var f := FreeIndex(blocks, i);
        k := k + (f - i);
        ghost var e := Coalesce(block, initial, k, f, wanted);
        KeptTrans(m, before, mem[..], LiveSet(initial));
        WholeRun(initial, k, e, blocks, f, wanted);
        AtFree(mem[..], freeHead, blocks, w, lo, hi, f);
        TotalIs(block);
        if Total(block) >= wanted {
          ghost var bs := blocks;
          ghost var middle := mem[..];
          ghost var total;
          r, total := Take(block, previous, wanted, f);
          KeptTrans(m, middle, mem[..], LiveSet(initial));
          MakeValid();
          Found(size, limit, initial, k, r, total);
          return;
        }
        OneFree(blocks, f);
        NextIs(block);
        i, k := f + 1, e;
        previous := block;
        block := Next(block);
      }
      ListEnd(mem[..], freeHead, blocks, w, lo, hi, i);
      AllVisited(initial, k, blocks, i, wanted);
      ghost var before := mem[..];
      MakeValid();
      r := Grow(wanted, limit);
      KeptTrans(m, before, mem[..], LiveSet(initial));
      if r == 0 {
        NotAllocated(size, limit, initial, hi);
      } else {
        FromBreak(size, limit, initial, hi, r);
      }
    }

    /** malloc's last resort: a block at the break. */
    method Grow(wanted: nat, limit: nat) returns (r: nat)
      requires Valid() && 2 * w <= wanted && WordMultiple(wanted, w)
      modifies mem, this`heapBreak, this`errno, this`blocks
      ensures Valid() && Kept(old(mem[..]), mem[..], old(LiveSet(blocks)))
      ensures r == 0 <==> !(old(heapBreak) + wanted <= end && old(heapBreak) + wanted <= limit)
      ensures r == 0 ==> LiveSet(blocks) == old(LiveSet(blocks)) && heapBreak == old(heapBreak) && errno == ENOMEM
      ensures r != 0 ==> heapBreak == old(heapBreak) + wanted && r == old(heapBreak) + w <= mem.Length && errno == old(errno)
      ensures r != 0 ==> var b := Block(old(heapBreak), wanted, true);
                         b !in old(LiveSet(blocks)) && LiveSet(blocks) == old(LiveSet(blocks)) + {b}
      ensures r != 0 ==> LoadWord(mem[..], old(heapBreak), w) == wanted
    {
      hide *;
      ValidParts();
      ghost var m, bs, hi := mem[..], blocks, heapBreak;
      RepresentsParts(m, freeHead, bs, w, start, hi);
      var block := Sbrk(wanted, limit);
      if block == FAILED {
        MakeValid();
        KeptRefl(m, LiveSet(bs));
        return 0;
      }
      Store(block, wanted);
      blocks := bs + [Block(hi, wanted, true)];
      Extend(m, mem[..], freeHead, bs, w, start, hi, wanted);
      BreakIsNotLive(bs, start, hi);
      MakeValid();
      r := block + w;
    }

    /** Unlinks the block found, after splitting off what is not wanted if that can hold a list node. */
    method Take(block: nat, previous: nat, wanted: nat, ghost f: nat) returns (r: nat, ghost total: nat)
      requires (w == 2 || w == 4) && Represents(mem[..], freeHead, blocks, w, start, heapBreak)
      requires f < |blocks| && !blocks[f].live && block == blocks[f].addr && previous == LastFree(blocks, f)
      requires 2 * w <= wanted <= blocks[f].total && WordMultiple(wanted, w)
      modifies mem, this`freeHead, this`blocks
      ensures Represents(mem[..], freeHead, blocks, w, start, heapBreak)
      ensures r == block + w <= mem.Length && wanted <= total < wanted + 2 * w && LoadWord(mem[..], block, w) == total
      ensures LiveSet(blocks) == old(LiveSet(blocks)) + {Block(block, total, true)}
      ensures Block(block, total, true) !in old(LiveSet(blocks))
      ensures Kept(old(mem[..]), mem[..], old(LiveSet(blocks)))
    {
      hide *;
      ghost var m, bs, head, lo, hi := mem[..], blocks, freeHead, start, heapBreak;
      AtFree(m, head, bs, w, lo, hi, f);
      Neighbours(m, head, bs, w, lo, hi, f);
      Neighbours(m, head, bs, w, lo, hi, f + 1);
      RepresentsParts(m, head, bs, w, lo, hi);
      FreeIsNotLive(bs, lo, hi, f);
      TotalIs(block);
      NextIs(block);
      var remainder := Total(block) - wanted;
      if remainder >= 2 * w {
        var split := block + wanted;
        var next := Next(block);
        Store(split, remainder);
        Store(split + w, next);
        Relink(previous, split);
        Store(block, wanted);
        total := wanted;
        SplitMemoryIs(m, w, previous, block, wanted, remainder, next);
        SplitStored(m, head, w, previous, block, wanted, remainder, next);
        blocks := Split(bs, f, wanted);
        TakeSplit(m, mem[..], head, freeHead, bs, w, lo, hi, f, wanted);
      } else {
        total := Total(block);
        Relink(previous, Next(block));
        blocks := Taken(bs, f);
        LoadSame(m, mem[..], block, w);
        TakeWhole(m, mem[..], head, freeHead, bs, w, lo, hi, f);
      }
      r := block + w;
    }

    /** malloc's inner loop: absorbs the free blocks that follow `block` without a gap. */
    method Coalesce(block: nat, ghost initial: seq<Block>, ghost k: nat, ghost f: nat, ghost wanted: nat) returns (ghost e: nat)
      requires Represents(mem[..], freeHead, blocks, w, start, heapBreak) && f < |blocks| && block == blocks[f].addr
      requires Merging(initial, k, k + 1, blocks, f, wanted)
      modifies mem, this`blocks
      ensures Represents(mem[..], freeHead, blocks, w, start, heapBreak) && f < |blocks| <= |old(blocks)|
      ensures Merging(initial, k, e, blocks, f, wanted) && (f + 1 == |blocks| || blocks[f + 1].live)
      ensures !blocks[f].live && block == blocks[f].addr && LastFree(blocks, f) == old(LastFree(blocks, f))
      ensures LiveSet(blocks) == old(LiveSet(blocks)) && Kept(old(mem[..]), mem[..], LiveSet(blocks))
    {
      hide *;
      ghost var m, lo, hi, head, live := mem[..], start, heapBreak, freeHead, LiveSet(blocks);
      LiveIs();
      KeptRefl(m, live);
      e := k + 1;
      MergingFacts(initial, k, e, blocks, f, wanted);
      AtFree(m, head, blocks, w, lo, hi, f);
      Adjacent(m, head, blocks, w, lo, hi, f);
      NextIs(block);
      TotalIs(block);
      while Next(block) != 0 && block + Total(block) == Next(block)
        invariant f < |blocks| <= |old(blocks)| && !blocks[f].live && block == blocks[f].addr && block + 2 * w <= mem.Length
        invariant Represents(mem[..], head, blocks, w, lo, hi)
        invariant Merging(initial, k, e, blocks, f, wanted)
        invariant LiveSet(blocks) == live && Kept(m, mem[..], live) && LastFree(blocks, f) == LastFree(old(blocks), f)
        invariant Total(block) == blocks[f].total && Next(block) == NextFree(blocks, f + 1)
        decreases |blocks|
      {
        ghost var before, bs := mem[..], blocks;
        Adjacent(before, head, bs, w, lo, hi, f);
        AtFree(before, head, bs, w, lo, hi, f);
        AtFree(before, head, bs, w, lo, hi, f + 1);
        NextIs(block);
        TotalIs(block);
        TotalIs(Next(block));
        Store(block, Total(block) + Total(Next(block)));
        MergeLoads(before, w, block, bs[f + 1].addr, bs[f].total + bs[f + 1].total);
        NextIs(block);
        NextIs(Next(block));
        Store(block + w, Next(Next(block)));
        blocks := Merged(bs, f);
        MergedParts(bs, f);
        Merge(before, mem[..], head, bs, w, lo, hi, f);
        GrowRun(initial, k, e, bs, f, wanted, blocks);
        KeptTrans(m, before, mem[..], live);
        e := e + 1;
        AtFree(mem[..], head, blocks, w, lo, hi, f);
        NextIs(block);
        TotalIs(block);
      }
      Adjacent(mem[..], head, blocks, w, lo, hi, f);
      LiveIs();
    }

    /** memset(p, 0, n) */
    method Clear(p: nat, n: nat)
      requires p + n <= mem.Length
      modifies mem
      ensures SameOutside(old(mem[..]), mem[..], p, p + n)
      ensures forall x :: p <= x < p + n ==> mem[x] == 0
    {
      for i := 0 to n
        invariant forall x :: 0 <= x < mem.Length && !(p <= x < p + n) ==> mem[x] == old(mem[x])
        invariant forall x :: p <= x < p + i ==> mem[x] == 0
      {
        mem[p + i] := 0;
      }
    }

    /** memcpy(to, from, n) */
    method Copy(to: nat, from: nat, n: nat)
      requires to + n <= mem.Length && from + n <= mem.Length && (to + n <= from || from + n <= to)
      modifies mem
      ensures SameOutside(old(mem[..]), mem[..], to, to + n)
      ensures mem[to..to + n] == old(mem[from..from + n])
    {
      for i := 0 to n
        invariant forall x :: 0 <= x < mem.Length && !(to <= x < to + n) ==> mem[x] == old(mem[x])
        invariant mem[to..to + i] == old(mem[from..from + i])
      {
        ghost var before := mem[to..to + i];
        mem[to + i] := mem[from + i];
        assert mem[to..to + i + 1] == before + [old(mem[from + i])];
        assert old(mem[from..from + i + 1]) == old(mem[from..from + i]) + [old(mem[from + i])];
      }
    }

    method Calloc(nmemb: nat, size: nat, limit: nat) returns (r: nat)
      requires Valid() && nmemb <= SizeMax(w) && size <= SizeMax(w)
      modifies mem, this`freeHead, this`heapBreak, this`errno, this`blocks
      ensures Valid() && Kept(old(mem[..]), mem[..], old(Live()))
      ensures nmemb * size > SizeMax(w) ==> r == 0 && blocks == old(blocks) && heapBreak == old(heapBreak) && errno == ENOMEM
      ensures 0 <= nmemb * size <= SizeMax(w) ==>
                && Allocated(nmemb * size, limit, old(blocks), old(heapBreak), r)
                && errno == (if r == 0 && nmemb * size > 0 then ENOMEM else old(errno))
                && (r != 0 ==> r + nmemb * size <= mem.Length && forall x :: r <= x < r + nmemb * size ==> mem[x] == 0)
    {
      hide *;
      ValidParts();
      LiveIs();
      SizeMaxPositive(w);
      Overflows(nmemb, size, SizeMax(w));
      if size != 0 && nmemb > SizeMax(w) / size {
        errno := ENOMEM;
        MakeValid();
        LiveIs();
        KeptRefl(mem[..], Live());
        return 0;
      }
      ghost var m0, live := mem[..], LiveSet(blocks);
      var total: nat := nmemb * size;
      r := Malloc(total, limit);
      ghost var initial, top := old(blocks), old(heapBreak);
      if r != 0 {
        ghost var m := mem[..];
        ghost var b := GrantedBlock(total, limit, initial, top, r);
        ValidParts();
        AtLive(m, freeHead, blocks, w, start, heapBreak, b);
        Clear(r, total);
        OutsideMore(m, mem[..], r, r + total, b.addr + w, b.End());
        PayloadWritten(m, mem[..], freeHead, blocks, w, start, heapBreak, b);
        KeptSubset(m, mem[..], LiveSet(blocks) - {b}, live);
        KeptTrans(m0, m, mem[..], live);
        MakeValid();
        StillAllocated(total, limit, initial, top, r, b);
      }
    }

    method Realloc(ptr: nat, size: nat, limit: nat) returns (r: nat)
      requires Valid() && size <= SizeMax(w) && (ptr == 0 || Owned(ptr))
      modifies mem, this`freeHead, this`heapBreak, this`errno, this`blocks
      ensures Valid()
      ensures ptr == 0 ==>
                && Allocated(size, limit, old(blocks), old(heapBreak), r) && Kept(old(mem[..]), mem[..], old(Live()))
                && errno == (if r == 0 && size > 0 then ENOMEM else old(errno))
      ensures ptr != 0 && size == 0 ==>
                && r == 0 && Live() == old(Live()) - {old(BlockOf(mem[..], w, ptr))}
                && Kept(old(mem[..]), mem[..], Live()) && errno == old(errno)
      ensures ptr != 0 && size > 0 ==>
                && r == Placement(size, limit, old(blocks), old(heapBreak))
                && (r == 0 ==> Live() == old(Live()) && Kept(old(mem[..]), mem[..], Live()) && errno == ENOMEM)
                && (r != 0 ==> Moved(size, old(mem[..]), old(Live()), ptr, r) && errno == old(errno))
      ensures ptr != 0 && size > 0 && r != 0 ==> Begins(old(mem[..]), ptr, r, size)
    {
      hide *;
      ValidParts();
      LiveIs();
      if ptr == 0 {
        r := Malloc(size, limit);
        return;
      }
      if size == 0 {
        Free(ptr);
        return 0;
      }
      ghost var m0, live0, initial, top := mem[..], LiveSet(blocks), blocks, heapBreak;
      ghost var i := OwnedIndex(ptr);
      ghost var b := blocks[i];
      IndexLive(blocks, i);
      AtLive(m0, freeHead, blocks, w, start, heapBreak, b);
      var block := ptr - w;
      TotalIs(block);
      var oldSize := Total(block) - w;
      r := Malloc(size, limit);
      if r == 0 {
        RefusedKeeps(size, limit, initial, top);
        LiveIs();
        return;
      }
      ghost var m1 := mem[..];
      ghost var c := GrantedBlock(size, limit, initial, top, r);
      ValidParts();
      AtLive(m1, freeHead, blocks, w, start, heapBreak, c);
      RepresentsParts(m1, freeHead, blocks, w, start, heapBreak);
      LiveDisjoint(blocks, start, heapBreak, b, c);
      KeptHeader(m0, m1, live0, b, w);
      if oldSize > size {
        oldSize := size;
      }
      Copy(r, ptr, oldSize);
      IsCarried(m1, ptr, mem[..], r, oldSize, b, w, size);
      ghost var m2 := mem[..];
      Overwritten(m0, m1, m2, freeHead, blocks, w, start, heapBreak, live0, b, c, r, oldSize);
      MakeValid();
      MakeOwned(ptr, b);
      LiveIs();
      Free(ptr);
      LiveIs();
      Arrived(m0, m1, m2, live0, ptr, r, b, c, size);
      FirstBytes(m0, live0, ptr, r, size);
    }

    /** The new block begins with what the old payload and the request have in common. */
    ghost predicate Begins(m0: seq<u8>, ptr: nat, r: nat, size: nat)
      reads mem
    {
      && w <= ptr <= |m0| && w <= BlockOf(m0, w, ptr).total
      && var payload := BlockOf(m0, w, ptr).total - w;
         var n := if size < payload then size else payload;
         ptr + n <= |m0| && r + n <= mem.Length && mem[..][r..r + n] == m0[ptr..ptr + n]
    }

    lemma FirstBytes(m0: seq<u8>, live0: set<Block>, ptr: nat, r: nat, size: nat)
      requires w <= ptr <= |m0| && (w == 2 || w == 4) && size <= SizeMax(w) && Moved(size, m0, live0, ptr, r)
      ensures Begins(m0, ptr, r, size)
    {
      hide LoadWord, Kept, BlockSize;
    }

    /** The client's block is replaced by one that begins with the same bytes; the others are kept. */
    ghost predicate Moved(size: nat, m0: seq<u8>, live0: set<Block>, ptr: nat, r: nat)
      requires w <= ptr <= |m0| && (w == 2 || w == 4) && size <= SizeMax(w)
      reads this, mem
    {
      && w <= r <= mem.Length
      && var b, c := BlockOf(m0, w, ptr), BlockOf(mem[..], w, r);
         && c !in live0 && Live() == live0 - {b} + {c} && BlockSize(size, w) <= c.total < BlockSize(size, w) + 2 * w
         && Kept(m0, mem[..], live0 - {b})
         && w <= b.total && Carried(m0, ptr, mem[..], r, CopySize(b, w, size))
    }

    lemma Arrived(m0: seq<u8>, m1: seq<u8>, m2: seq<u8>, live0: set<Block>, ptr: nat, r: nat, b: Block, c: Block, size: nat)
      requires (w == 2 || w == 4) && size <= SizeMax(w) && w <= ptr <= |m0| && w <= r <= |m0|
      requires b == BlockOf(m0, w, ptr) && b in live0 && 2 * w <= b.total && b.End() <= |m0| == |m1| == |m2| == mem.Length
      requires c == Block(r - w, c.total, true) && c !in live0 && LoadWord(m2, c.addr, w) == c.total && c.End() <= |m0|
      requires size + w <= c.total && BlockSize(size, w) <= c.total < BlockSize(size, w) + 2 * w
      requires LiveSet(blocks) == live0 + {c} - {b}
      requires Kept(m0, m2, live0) && Kept(m2, mem[..], LiveSet(blocks)) && m1[b.addr..b.End()] == m0[b.addr..b.End()]
      requires Carried(m1, ptr, m2, r, CopySize(b, w, size))
      ensures Moved(size, m0, live0, ptr, r)
    {
      hide LoadWord, BlockSize, Kept, LiveSet;
      var n := CopySize(b, w, size);
      KeptSubset(m0, m2, live0, live0 - {b});
      KeptSubset(m2, mem[..], LiveSet(blocks), live0 - {b});
      KeptTrans(m0, m2, mem[..], live0 - {b});
      KeptHeader(m2, mem[..], LiveSet(blocks), c, w);
      assert BlockOf(mem[..], w, r) == c;
      SubSlice(m2, mem[..], c.addr, c.End(), r, r + n);
      SubSlice(m0, m1, b.addr, b.End(), ptr, ptr + n);
    }

    lemma RefusedKeeps(size: nat, limit: nat, initial: seq<Block>, top: nat)
      requires (w == 2 || w == 4) && size <= SizeMax(w) && Allocated(size, limit, initial, top, 0)
      ensures LiveSet(blocks) == LiveSet(initial) && Placement(size, limit, initial, top) == 0 && heapBreak == top
    {
    }

    lemma MakeOwned(ptr: nat, b: Block)
      requires b in LiveSet(blocks) && w <= ptr <= mem.Length && b.addr == ptr - w && b.live && LoadWord(mem[..], b.addr, w) == b.total
      ensures Owned(ptr) && BlockOf(mem[..], w, ptr) == b
    {
    }

    lemma Refused(size: nat, limit: nat)
      requires (w == 2 || w == 4) && size <= SizeMax(w) && (BlockSize(size, w) == 0 || BlockSize(size, w) > 32767)
      ensures Allocated(size, limit, blocks, heapBreak, 0)
      ensures BlockSize(size, w) != 0 ==> size > 0
    {
    }

    lemma NotAllocated(size: nat, limit: nat, initial: seq<Block>, top: nat)
      requires (w == 2 || w == 4) && size <= SizeMax(w) && 0 < BlockSize(size, w) <= 32767
      requires FirstFit(initial, BlockSize(size, w), 0) == |initial|
      requires !(top + BlockSize(size, w) <= end && top + BlockSize(size, w) <= limit)
      requires LiveSet(blocks) == LiveSet(initial) && heapBreak == top
      ensures Allocated(size, limit, initial, top, 0)
    {
    }

    lemma FromBreak(size: nat, limit: nat, initial: seq<Block>, top: nat, r: nat)
      requires (w == 2 || w == 4) && size <= SizeMax(w) && 0 < BlockSize(size, w) <= 32767
      requires FirstFit(initial, BlockSize(size, w), 0) == |initial|
      requires top + BlockSize(size, w) <= end && top + BlockSize(size, w) <= limit
      requires heapBreak == top + BlockSize(size, w) && r == top + w <= mem.Length
      requires LoadWord(mem[..], top, w) == BlockSize(size, w)
      requires Block(top, BlockSize(size, w), true) !in LiveSet(initial)
      requires LiveSet(blocks) == LiveSet(initial) + {Block(top, BlockSize(size, w), true)}
      ensures Allocated(size, limit, initial, top, r)
    {
      hide LoadWord, LiveSet, FirstFit, BlockSize;
    }

    lemma Found(size: nat, limit: nat, initial: seq<Block>, k: nat, r: nat, total: nat)
      requires (w == 2 || w == 4) && size <= SizeMax(w) && 0 < BlockSize(size, w) <= 32767
      requires FirstFit(initial, BlockSize(size, w), 0) == k < |initial|
      requires r == initial[k].addr + w <= mem.Length && LoadWord(mem[..], initial[k].addr, w) == total
      requires BlockSize(size, w) <= total < BlockSize(size, w) + 2 * w && initial[k].addr < heapBreak
      requires Block(initial[k].addr, total, true) !in LiveSet(initial)
      requires LiveSet(blocks) == LiveSet(initial) + {Block(initial[k].addr, total, true)}
      ensures Allocated(size, limit, initial, heapBreak, r)
    {
      hide LoadWord, LiveSet, FirstFit, BlockSize;
    }

    lemma GrantedBlock(size: nat, limit: nat, initial: seq<Block>, top: nat, r: nat) returns (b: Block)
      requires (w == 2 || w == 4) && size <= SizeMax(w) && r != 0 && Allocated(size, limit, initial, top, r)
      ensures w <= r <= mem.Length && b == BlockOf(mem[..], w, r) && b.addr == r - w && b.live
      ensures b !in LiveSet(initial) && LiveSet(blocks) == LiveSet(initial) + {b} && size + w <= b.total && b.End() == r - w + b.total
      ensures BlockSize(size, w) <= b.total < BlockSize(size, w) + 2 * w && b == Block(r - w, b.total, true)
      ensures r == Placement(size, limit, initial, top) && heapBreak == if r == top + w then top + BlockSize(size, w) else top
    {
      b := BlockOf(mem[..], w, r);
    }

    /** Writing the new payload does not change what was allocated. */
    lemma StillAllocated(size: nat, limit: nat, initial: seq<Block>, top: nat, r: nat, b: Block)
      requires (w == 2 || w == 4) && size <= SizeMax(w) && w <= r <= mem.Length && r != 0
      requires b == Block(r - w, b.total, true) && LoadWord(mem[..], b.addr, w) == b.total
      requires b !in LiveSet(initial) && LiveSet(blocks) == LiveSet(initial) + {b}
      requires BlockSize(size, w) <= b.total < BlockSize(size, w) + 2 * w
      requires r == Placement(size, limit, initial, top) && heapBreak == if r == top + w then top + BlockSize(size, w) else top
      ensures Allocated(size, limit, initial, top, r)
    {
    }

    lemma LiveIs()
      ensures Live() == LiveSet(blocks)
    {
    }

    lemma MakeValid()
      requires (w == 2 || w == 4) && end <= mem.Length && Represents(mem[..], freeHead, blocks, w, start, heapBreak)
      requires heapBreak == start || heapBreak <= end
      ensures Valid()
    {
    }

    lemma NextIs(block: nat)
      requires block + 2 * w <= mem.Length
      ensures Next(block) == LoadWord(mem[..], block + w, w)
    {
    }

    lemma TotalIs(block: nat)
      requires block + w <= mem.Length
      ensures Total(block) == LoadWord(mem[..], block, w)
    {
    }

    lemma ValidParts()
      requires Valid()
      ensures (w == 2 || w == 4) && end <= mem.Length && Represents(mem[..], freeHead, blocks, w, start, heapBreak)
      ensures heapBreak == start || heapBreak <= end
    {
    }
  }

  lemma KeptRefl(m: seq<u8>, live: set<Block>)
    ensures Kept(m, m, live)
  {
  }

  /** The list node visited lies before block i, so the walk goes on after it. */
  lemma FreeBefore(m: seq<u8>, head: nat, bs: seq<Block>, w: nat, lo: nat, hi: nat, k: nat, i: nat) returns (k': nat)
    requires Represents(m, head, bs, w, lo, hi) && k <= i < |bs| && bs[i].live
    requires NextFree(bs, k) != 0 && NextFree(bs, k) < bs[i].addr
    ensures k < k' <= i && LastFree(bs, k') == NextFree(bs, k)
    ensures NextFree(bs, k) + 2 * w <= |m| && LoadWord(m, NextFree(bs, k) + w, w) == NextFree(bs, k')
  {
    hide *;
    RepresentsParts(m, head, bs, w, lo, hi);
    ListEnd(m, head, bs, w, lo, hi, k);
    var f := FreeIndex(bs, k);
    if i < f { FreeOrder(bs, lo, hi, i, f); }
    AtFree(m, head, bs, w, lo, hi, f);
    OneFree(bs, f);
    k' := f + 1;
  }

  /** The walk has stopped, so block i belongs between the last node and the current one. */
  lemma FreeAfter(m: seq<u8>, head: nat, bs: seq<Block>, w: nat, lo: nat, hi: nat, k: nat, i: nat)
    requires Represents(m, head, bs, w, lo, hi) && k <= i < |bs| && bs[i].live
    requires !(NextFree(bs, k) != 0 && NextFree(bs, k) < bs[i].addr)
    ensures LastFree(bs, i) == LastFree(bs, k) && NextFree(bs, i) == NextFree(bs, k)
    ensures LastFree(bs, i) + 2 * w <= |m| && bs[i].addr + 2 * w <= |m|
  {
    hide *;
    RepresentsParts(m, head, bs, w, lo, hi);
    ListEnd(m, head, bs, w, lo, hi, k);
    var f := FreeIndex(bs, k);
    if f < i { FreeOrder(bs, lo, hi, f, i); }
    NextFreeSkip(bs, k, i);
    LastFreeSkip(bs, k, i);
    Neighbours(m, head, bs, w, lo, hi, i);
    HeaderAt(m, bs, w, i);
    BlockEnd(bs[i]);
  }

  lemma MergingFacts(initial: seq<Block>, k: nat, e: nat, bs: seq<Block>, f: nat, wanted: nat)
    requires Merging(initial, k, e, bs, f, wanted)
    ensures f < |bs| && !bs[f].live
  {
  }

  lemma MergeLoads(m: seq<u8>, w: nat, a: nat, n: nat, x: nat)
    requires a + 2 * w <= n && n + 2 * w <= |m|
    ensures var m' := StoreWord(m, a, w, x);
            LoadWord(m', a + w, w) == LoadWord(m, a + w, w) && LoadWord(m', n + w, w) == LoadWord(m, n + w, w)
  {
    hide StoreWord, LoadWord;
    LoadSame(m, StoreWord(m, a, w, x), a + w, w);
    LoadSame(m, StoreWord(m, a, w, x), n + w, w);
  }

  lemma MergedParts(bs: seq<Block>, f: nat)
    requires f + 1 < |bs| && !bs[f].live
    ensures var cs := Merged(bs, f);
            && cs == bs[..f] + [Block(bs[f].addr, bs[f].total + bs[f + 1].total, false)] + bs[f + 2..]
            && |cs| == |bs| - 1 && cs[f] == Block(bs[f].addr, bs[f].total + bs[f + 1].total, false)
            && LastFree(cs, f) == LastFree(bs, f)
  {
    LastFreePrefix(bs, Merged(bs, f), f);
  }

  lemma SplitMemoryIs(m: seq<u8>, w: nat, p: nat, a: nat, wanted: nat, remainder: nat, next: nat)
    requires a + wanted + 2 * w <= |m| && p + 2 * w <= |m|
    ensures SplitMemory(m, w, p, a, wanted, remainder, next)
         == StoreWord(SetLink(StoreWord(StoreWord(m, a + wanted, w, remainder), a + wanted + w, w, next), w, p, a + wanted), a, w, wanted)
  {
  }

  /** The address of a free block is not the address of a live one. */
  lemma FreeIsNotLive(bs: seq<Block>, lo: nat, hi: nat, f: nat)
    requires Tiled(bs, lo, hi) && f < |bs| && !bs[f].live
    ensures forall t :: Block(bs[f].addr, t, true) !in LiveSet(bs)
  {
    hide Tiled;
    forall j | 0 <= j < |bs| && j != f ensures bs[j].addr != bs[f].addr {
      if j < f { FreeOrder(bs, lo, hi, j, f); } else { FreeOrder(bs, lo, hi, f, j); }
    }
  }

  lemma BreakIsNotLive(bs: seq<Block>, lo: nat, hi: nat)
    requires Tiled(bs, lo, hi)
    ensures forall t :: Block(hi, t, true) !in LiveSet(bs)
  {
    TiledBounds(bs, lo, hi);
  }

  lemma SizeMaxPositive(w: nat)
    ensures SizeMax(w) > 0
  {
  }

  /** The overflow test of calloc. */
  lemma Overflows(n: nat, size: nat, max: nat)
    ensures n * size >= 0 && (size != 0 ==> (n > max / size <==> n * size > max))
    ensures size == 0 ==> n * size == 0
  {
    if size != 0 {
      Bits.DivModBasic(max, size);
      var q := max / size;
      if n > q {
        Rounding.ProductLe(q + 1, n, size);
        assert (q + 1) * size == q * size + size;
      } else {
        Rounding.ProductLe(n, q, size);
      }
    }
  }

  lemma OutsideMore(m: seq<u8>, m': seq<u8>, lo: nat, hi: nat, lo': nat, hi': nat)
    requires SameOutside(m, m', lo, hi) && lo' <= lo && hi <= hi'
    ensures SameOutside(m, m', lo', hi')
  {
  }

  /** Writing within the payload of block c leaves the heap and the older blocks as they were. */
  lemma Overwritten(m0: seq<u8>, m1: seq<u8>, m2: seq<u8>, head: nat, bs: seq<Block>, w: nat, lo: nat, hi: nat, live: set<Block>,
    b: Block, c: Block, r: nat, n: nat)
    requires Represents(m1, head, bs, w, lo, hi) && c in LiveSet(bs)
    requires SameOutside(m1, m2, r, r + n) && r == c.addr + w && r + n <= c.End()
    requires Kept(m0, m1, live) && live <= LiveSet(bs) - {c} && b in live && b.End() <= |m1| && w <= b.total
    ensures Represents(m2, head, bs, w, lo, hi) && Kept(m0, m2, live) && |m1| == |m2|
    ensures LoadWord(m2, b.addr, w) == LoadWord(m1, b.addr, w) && LoadWord(m2, c.addr, w) == c.total
  {
    hide *;
    OutsideMore(m1, m2, r, r + n, c.addr + w, c.End());
    PayloadWritten(m1, m2, head, bs, w, lo, hi, c);
    KeptSubset(m1, m2, LiveSet(bs) - {c}, live);
    KeptTrans(m0, m1, m2, live);
    KeptHeader(m1, m2, live, b, w);
  }

  lemma KeptSubset(m: seq<u8>, m': seq<u8>, more: set<Block>, fewer: set<Block>)
    requires Kept(m, m', more) && fewer <= more
    ensures Kept(m, m', fewer)
  {
  }

  lemma IndexLive(bs: seq<Block>, i: nat)
    requires i < |bs| && bs[i].live
    ensures bs[i] in LiveSet(bs)
  {
  }

  lemma SubSlice(s: seq<u8>, t: seq<u8>, lo: nat, hi: nat, x: nat, y: nat)
    requires lo <= x <= y <= hi <= |s| && hi <= |t| && s[lo..hi] == t[lo..hi]
    ensures s[x..y] == t[x..y]
  {
    forall i | x <= i < y ensures s[i] == t[i] {
      assert s[i] == s[lo..hi][i - lo] && t[i] == t[lo..hi][i - lo];
    }
  }
}
