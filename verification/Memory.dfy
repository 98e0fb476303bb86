/** memcmp, memcpy, memmove and memset with their word paths (memory.c). */
module Memory {
  import opened Words

  /** m0 with n bytes from src copied to dst. */
  function Moved(m0: seq<byte>, dst: nat, src: nat, n: nat): (m: seq<byte>)
    requires dst + n <= |m0| && src + n <= |m0|
    ensures |m| == |m0|
  {
    m0[..dst] + m0[src..src + n] + m0[dst + n..]
  }

  /** Bytes lo..hi of the move are done, the others still are as in m0. */
  ghost predicate PartMoved(m0: seq<byte>, m: seq<byte>, dst: nat, src: nat, lo: nat, hi: nat) {
    && |m| == |m0| && lo <= hi && dst + hi <= |m0| && src + hi <= |m0|
    && (forall x :: 0 <= x < |m| && !(dst + lo <= x < dst + hi) ==> m[x] == m0[x])
    && forall x :: dst + lo <= x < dst + hi ==> m[x] == m0[x - dst + src]
  }

  lemma AllMoved(m0: seq<byte>, m: seq<byte>, dst: nat, src: nat, n: nat)
    requires PartMoved(m0, m, dst, src, 0, n)
    ensures m == Moved(m0, dst, src, n)
  {
  }

  /** m with bytes stored at p. */
  function Put(m: seq<byte>, p: nat, bytes: seq<byte>): (m': seq<byte>)
    requires p + |bytes| <= |m|
    ensures |m'| == |m|
  {
    m[..p] + bytes + m[p + |bytes|..]
  }

  /** Copying the next k bytes upwards, when the destination is below the source. */
  lemma MoveUp(m0: seq<byte>, m: seq<byte>, dst: nat, src: nat, i: nat, k: nat)
    requires PartMoved(m0, m, dst, src, 0, i) && dst + i + k <= |m| && src + i + k <= |m|
    requires dst < src || dst + i <= src || src + i + k <= dst
    ensures PartMoved(m0, Put(m, dst + i, m[src + i..src + i + k]), dst, src, 0, i + k)
  {
  }

  /** Copying the k bytes before offset i downwards, when the destination is above the source. */
  lemma MoveDown(m0: seq<byte>, m: seq<byte>, dst: nat, src: nat, i: nat, k: nat, n: nat)
    requires PartMoved(m0, m, dst, src, i, n) && k <= i && src < dst
    ensures PartMoved(m0, Put(m, dst + i - k, m[src + i - k..src + i]), dst, src, i - k, n)
  {
  }

  /** The sign of a result. */
  function Sgn(r: int): int {
    if r < 0 then -1 else if r > 0 then 1 else 0
  }

  /** The bytes at p come before those at q: at the first difference, before any common NUL if `stop`, the one at p
  is the smaller as an unsigned byte. */
  ghost predicate Below(m: seq<byte>, p: nat, q: nat, n: nat, stop: bool)
    requires p + n <= |m| && q + n <= |m|
  {
    exists k: nat :: k < n && Agree(m, p, q, k, stop) && m[p + k] < m[q + k]
  }

  ghost predicate Agree(m: seq<byte>, p: nat, q: nat, k: nat, stop: bool)
    requires p + k <= |m| && q + k <= |m|
  {
    m[p..p + k] == m[q..q + k] && (stop ==> 0 !in m[p..p + k])
  }

  /** The sign of a comparison says which side comes first; 0 says neither. */
  lemma SignMeans(r: int, m: seq<byte>, p: nat, q: nat, n: nat, stop: bool)
    requires p + n <= |m| && q + n <= |m| && Sgn(r) == Compared(m, p, q, n, stop)
    ensures r < 0 <==> Below(m, p, q, n, stop)
    ensures r > 0 <==> Below(m, q, p, n, stop)
  {
    hide Compared;
    var k := FirstEvent(m, p, q, n, stop);
    ComparedMeaning(m, p, q, n, stop, k);
    assert Agree(m, p, q, k, stop) && Agree(m, q, p, k, stop) by {
      var a, b := m[p..p + k], m[q..q + k];
      forall j | 0 <= j < k ensures a[j] == b[j] && (stop ==> a[j] != 0) { assert !Event(m, p, q, j, stop); }
      assert a == b;
    }
    OnlyFirst(m, p, q, n, stop, k);
    OnlyFirst(m, q, p, n, stop, k);
  }

  lemma OnlyFirst(m: seq<byte>, p: nat, q: nat, n: nat, stop: bool, k: nat)
    requires p + n <= |m| && q + n <= |m| && k <= n && Agree(m, p, q, k, stop)
    requires k < n ==> m[p + k] != m[q + k] || (stop && m[p + k] == 0)
    ensures Below(m, p, q, n, stop) <==> k < n && m[p + k] < m[q + k]
  {
    hide Agree;
    if Below(m, p, q, n, stop) {
      var i: nat :| i < n && Agree(m, p, q, i, stop) && m[p + i] < m[q + i];
      AgreeAt(m, p, q, k, stop, i);
      AgreeAt(m, p, q, i, stop, k);
    }
  }

  lemma AgreeAt(m: seq<byte>, p: nat, q: nat, k: nat, stop: bool, j: nat)
    requires p + k <= |m| && q + k <= |m| && Agree(m, p, q, k, stop)
    ensures j < k ==> m[p + j] == m[q + j] && (stop ==> m[p + j] != 0)
  {
    if j < k {
      assert m[p..p + k][j] == m[q..q + k][j] && m[p + j] == m[p..p + k][j];
    }
  }

  lemma ByteDifference(a: byte, b: byte)
    ensures Sgn(a as int - b as int) == Order(a, b)
  {
  }

  /** Words are only accessed at aligned addresses. */
  method LoadWord(w: Width, mem: array<byte>, p: nat) returns (v: bv32)
    requires p + w.Size() <= mem.Length && Aligned(w, p)
    ensures v == Load(w, mem[..], p)
  {
    hide Pack16, Pack32;
    if w.W16? {
      v := Widen(Pack16(mem[p], mem[p + 1]));
    } else {
      v := Pack32(mem[p], mem[p + 1], mem[p + 2], mem[p + 3]);
    }
  }

  method StoreWord(w: Width, mem: array<byte>, p: nat, v: bv32)
    requires p + w.Size() <= mem.Length && Aligned(w, p)
    modifies mem
    ensures mem[..] == Put(old(mem[..]), p, WordBytes(w, v))
  {
    hide Byte0, Byte1, Byte2, Byte3;
    mem[p], mem[p + 1] := Byte0(v), Byte1(v);
    if w.W32? {
      mem[p + 2], mem[p + 3] := Byte2(v), Byte3(v);
    }
  }

  method Memcmp(w: Width, mem: array<byte>, left: nat, right: nat, size: nat) returns (r: int)
    requires left + size <= mem.Length && right + size <= mem.Length
    ensures Sgn(r) == Compared(mem[..], left, right, size, false)
  {
    hide *;
    var a: nat, b: nat, count: nat := left, right, size;
    ghost var m := mem[..];
    if Congruent(w, a, b) {
      while count > 0 && !Aligned(w, a)
        invariant Congruent(w, a, b)
        invariant count <= size && a == left + (size - count) && b == right + (size - count)
        invariant Compared(m, left, right, size, false) == Compared(m, a, b, count, false)
      {
        CompareStep(m, a, b, count);
        if mem[a] != mem[b] {
          ByteDifference(mem[a], mem[b]);
          return mem[a] as int - mem[b] as int;
        }
        CongruentNext(w, a, b);
        a, b, count := a + 1, b + 1, count - 1;
      }
      CongruentNext(w, a, b);
      while count >= w.Size()
        invariant count == 0 || (Aligned(w, a) && Aligned(w, b))
        invariant count <= size && a == left + (size - count) && b == right + (size - count)
        invariant Compared(m, left, right, size, false) == Compared(m, a, b, count, false)
      {
        AlignedNext(w, a);
        AlignedNext(w, b);
        var leftWord := LoadWord(w, mem, a);
        var rightWord := LoadWord(w, mem, b);
        CompareWord(w, m, a, b, count, false);
        if leftWord != rightWord {
          return Compare(w, leftWord, rightWord, false);
        }
        a, b, count := a + w.Size(), b + w.Size(), count - w.Size();
      }
    }
    while count > 0
      invariant count <= size && a == left + (size - count) && b == right + (size - count)
      invariant Compared(m, left, right, size, false) == Compared(m, a, b, count, false)
    {
      CompareStep(m, a, b, count);
      if mem[a] != mem[b] {
        ByteDifference(mem[a], mem[b]);
        return mem[a] as int - mem[b] as int;
      }
      a, b, count := a + 1, b + 1, count - 1;
    }
    CompareStep(m, a, b, 0);
    return 0;
  }

  lemma CompareStep(m: seq<byte>, p: nat, q: nat, n: nat)
    requires p + n <= |m| && q + n <= |m|
    ensures n > 0 ==> Compared(m, p, q, n, false) == if m[p] != m[q] then Order(m[p], m[q]) else Compared(m, p + 1, q + 1, n - 1, false)
    ensures n == 0 ==> Compared(m, p, q, n, false) == 0 && Sgn(0) == 0
  {
  }

  /** What a whole word tells about a comparison that goes on at least as far. */
  lemma CompareWord(w: Width, m: seq<byte>, p: nat, q: nat, n: nat, stop: bool)
    requires p + n <= |m| && q + n <= |m| && w.Size() <= n
    ensures Load(w, m, p) == Load(w, m, q) && !(stop && HasZero(w, Load(w, m, p))) ==>
              Compared(m, p, q, n, stop) == Compared(m, p + w.Size(), q + w.Size(), n - w.Size(), stop)
    ensures Load(w, m, p) != Load(w, m, q) || (stop && HasZero(w, Load(w, m, p))) ==>
              Compared(m, p, q, n, stop) == Sgn(Compare(w, Load(w, m, p), Load(w, m, q), stop)) == Compare(w, Load(w, m, p), Load(w, m, q), stop)
  {
    hide Compared, Load, HasZero, Compare;
    EqualMeaning(w, m, p, q);
    HasZeroMeaning(w, m, p);
    CompareMeaning(w, m, p, q, stop);
    WordEvents(w, m, p, q, stop);
    ComparedSign(m, p, q, w.Size(), stop);
    if Load(w, m, p) == Load(w, m, q) && !(stop && HasZero(w, Load(w, m, p))) {
      ComparedSkip(m, p, q, n, stop, w.Size());
    } else {
      var k :| 0 <= k < w.Size() && Event(m, p, q, k, stop);
      ComparedEnough(m, p, q, n, w.Size(), stop, k);
    }
  }

  lemma ComparedSign(m: seq<byte>, p: nat, q: nat, n: nat, stop: bool)
    requires p + n <= |m| && q + n <= |m|
    ensures Sgn(Compared(m, p, q, n, stop)) == Compared(m, p, q, n, stop)
  {
    var k := FirstEvent(m, p, q, n, stop);
    ComparedMeaning(m, p, q, n, stop, k);
  }

  lemma WordEvents(w: Width, m: seq<byte>, p: nat, q: nat, stop: bool)
    requires p + w.Size() <= |m| && q + w.Size() <= |m|
    ensures (exists k :: 0 <= k < w.Size() && Event(m, p, q, k, stop)) <==>
              !(forall k :: 0 <= k < w.Size() ==> SameAt(m, p, q, k)) || (stop && exists k :: 0 <= k < w.Size() && NulAt(m, p, k))
  {
    forall k | 0 <= k < w.Size() ensures Event(m, p, q, k, stop) <==> !SameAt(m, p, q, k) || (stop && NulAt(m, p, k)) {
    }
  }

  method Memcpy(w: Width, mem: array<byte>, destination: nat, source: nat, size: nat)
    requires destination + size <= mem.Length && source + size <= mem.Length
    requires destination + size <= source || source + size <= destination
    modifies mem
    ensures mem[..] == Moved(old(mem[..]), destination, source, size)
    ensures forall x :: 0 <= x < mem.Length ==>
              mem[x] == old(if destination <= x < destination + size then mem[source + (x - destination)] else mem[x])
  {
    CopyUp(w, mem, destination, source, size);
    MovedBytes(old(mem[..]), destination, source, size);
  }

  lemma MovedBytes(m: seq<byte>, dst: nat, src: nat, n: nat)
    requires dst + n <= |m| && src + n <= |m|
    ensures forall x :: 0 <= x < |m| ==> Moved(m, dst, src, n)[x] == if dst <= x < dst + n then m[src + (x - dst)] else m[x]
  {
  }

  // *out = *in, for a byte and for a word, going up and going down

  method ByteUp(mem: array<byte>, out: nat, from: nat, ghost m0: seq<byte>, ghost dst: nat, ghost src: nat, ghost i: nat)
    requires PartMoved(m0, mem[..], dst, src, 0, i) && out == dst + i < mem.Length && from == src + i < mem.Length
    requires dst < src || src + i + 1 <= dst
    modifies mem
    ensures PartMoved(m0, mem[..], dst, src, 0, i + 1)
  {
    hide *;
    MoveUp(m0, mem[..], dst, src, i, 1);
    PutOne(mem[..], out, from);
    mem[out] := mem[from];
  }

  method WordUp(w: Width, mem: array<byte>, out: nat, from: nat, ghost m0: seq<byte>, ghost dst: nat, ghost src: nat, ghost i: nat)
    requires out == dst + i && from == src + i && out + w.Size() <= mem.Length && from + w.Size() <= mem.Length
    requires PartMoved(m0, mem[..], dst, src, 0, i) && Aligned(w, out) && Aligned(w, from)
    requires dst < src || src + i + w.Size() <= dst
    modifies mem
    ensures PartMoved(m0, mem[..], dst, src, 0, i + w.Size())
  {
    hide *;
    MoveUp(m0, mem[..], dst, src, i, w.Size());
    LoadedBytes(w, mem[..], from);
    var word := LoadWord(w, mem, from);
    StoreWord(w, mem, out, word);
  }

  method ByteDown(mem: array<byte>, out: nat, from: nat, ghost m0: seq<byte>, ghost dst: nat, ghost src: nat, ghost i: nat, ghost n: nat)
    requires PartMoved(m0, mem[..], dst, src, i, n) && i > 0 && out == dst + i - 1 < mem.Length && from == src + i - 1 && src < dst
    modifies mem
    ensures PartMoved(m0, mem[..], dst, src, i - 1, n)
  {
    hide *;
    MoveDown(m0, mem[..], dst, src, i, 1, n);
    PutOne(mem[..], out, from);
    mem[out] := mem[from];
  }

  method WordDown(w: Width, mem: array<byte>, out: nat, from: nat, ghost m0: seq<byte>, ghost dst: nat, ghost src: nat, ghost i: nat, ghost n: nat)
    requires w.Size() <= i && out == dst + i - w.Size() && from == src + i - w.Size() && dst + i <= mem.Length && src < dst
    requires PartMoved(m0, mem[..], dst, src, i, n) && Aligned(w, out) && Aligned(w, from)
    modifies mem
    ensures PartMoved(m0, mem[..], dst, src, i - w.Size(), n)
  {
    hide *;
    MoveDown(m0, mem[..], dst, src, i, w.Size(), n);
    LoadedBytes(w, mem[..], from);
    var word := LoadWord(w, mem, from);
    StoreWord(w, mem, out, word);
  }

  /** The loops that memcpy and the first half of memmove share. */
  method CopyUp(w: Width, mem: array<byte>, destination: nat, source: nat, size: nat)
    requires destination + size <= mem.Length && source + size <= mem.Length
    requires destination < source || source + size <= destination
    modifies mem
    ensures mem[..] == Moved(old(mem[..]), destination, source, size)
  {
    hide *;
    ghost var m0 := mem[..];
    var out: nat, from: nat, count: nat := destination, source, size;
    NothingMoved(m0, destination, source, 0);
    if Congruent(w, out, from) {
      while count > 0 && !Aligned(w, out)
        invariant Congruent(w, out, from)
        invariant count <= size && out == destination + (size - count) && from == source + (size - count)
        invariant PartMoved(m0, mem[..], destination, source, 0, size - count)
      {
        ByteUp(mem, out, from, m0, destination, source, size - count);
        CongruentNext(w, out, from);
        out, from, count := out + 1, from + 1, count - 1;
      }
      CongruentNext(w, out, from);
      while count >= w.Size()
        invariant count == 0 || (Aligned(w, out) && Aligned(w, from))
        invariant count <= size && out == destination + (size - count) && from == source + (size - count)
        invariant PartMoved(m0, mem[..], destination, source, 0, size - count)
      {
        AlignedNext(w, out);
        AlignedNext(w, from);
        WordUp(w, mem, out, from, m0, destination, source, size - count);
        out, from, count := out + w.Size(), from + w.Size(), count - w.Size();
      }
    }
    while count > 0
      invariant count <= size && out == destination + (size - count) && from == source + (size - count)
      invariant PartMoved(m0, mem[..], destination, source, 0, size - count)
    {
      ByteUp(mem, out, from, m0, destination, source, size - count);
      out, from, count := out + 1, from + 1, count - 1;
    }
    AllMoved(m0, mem[..], destination, source, size);
  }

  lemma NothingMoved(m: seq<byte>, dst: nat, src: nat, n: nat)
    requires dst + n <= |m| && src + n <= |m|
    ensures PartMoved(m, m, dst, src, n, n)
  {
  }

  lemma PutOne(m: seq<byte>, p: nat, q: nat)
    requires p < |m| && q < |m|
    ensures Put(m, p, m[q..q + 1]) == m[p := m[q]]
  {
  }

  method Memmove(w: Width, mem: array<byte>, destination: nat, source: nat, size: nat)
    requires destination + size <= mem.Length && source + size <= mem.Length
    modifies mem
    ensures mem[..] == Moved(old(mem[..]), destination, source, size)
    ensures forall x :: 0 <= x < mem.Length ==>
              mem[x] == old(if destination <= x < destination + size then mem[source + (x - destination)] else mem[x])
  {
    if destination < source {
      CopyUp(w, mem, destination, source, size);
    } else if destination != source {
      CopyDown(w, mem, destination, source, size);
    }
    MovedBytes(old(mem[..]), destination, source, size);
  }

  method CopyDown(w: Width, mem: array<byte>, destination: nat, source: nat, size: nat)
    requires destination + size <= mem.Length && source + size <= mem.Length && source < destination
    modifies mem
    ensures mem[..] == Moved(old(mem[..]), destination, source, size)
  {
    hide *;
    ghost var m0 := mem[..];
    var out: nat, from: nat, count: nat := destination + size, source + size, size;
    NothingMoved(m0, destination, source, size);
    if Congruent(w, out, from) {
      while count > 0 && !Aligned(w, out)
        invariant Congruent(w, out, from)
        invariant count <= size && out == destination + count && from == source + count
        invariant PartMoved(m0, mem[..], destination, source, count, size)
      {
        out, from := out - 1, from - 1;
        CongruentNext(w, out, from);
        ByteDown(mem, out, from, m0, destination, source, count, size);
        count := count - 1;
      }
      CongruentNext(w, out, from);
      while count >= w.Size()
        invariant count == 0 || (Aligned(w, out) && Aligned(w, from))
        invariant count <= size && out == destination + count && from == source + count
        invariant PartMoved(m0, mem[..], destination, source, count, size)
      {
        AlignedNext(w, out);
        AlignedNext(w, from);
        out, from := out - w.Size(), from - w.Size();
        WordDown(w, mem, out, from, m0, destination, source, count, size);
        count := count - w.Size();
      }
    }
    while count > 0
      invariant count <= size && out == destination + count && from == source + count
      invariant PartMoved(m0, mem[..], destination, source, count, size)
    {
      out, from := out - 1, from - 1;
      ByteDown(mem, out, from, m0, destination, source, count, size);
      count := count - 1;
    }
    AllMoved(m0, mem[..], destination, source, size);
  }

  method Memset(w: Width, mem: array<byte>, destination: nat, value: byte, size: nat)
    requires destination + size <= mem.Length
    modifies mem
    ensures forall x :: 0 <= x < mem.Length ==> mem[x] == if destination <= x < destination + size then value else old(mem[x])
  {
    hide *;
    var out: nat, count: nat := destination, size;
    while count > 0 && !Aligned(w, out)
      invariant count <= size && out == destination + (size - count)
      invariant forall x :: 0 <= x < mem.Length ==> mem[x] == if destination <= x < out then value else old(mem[x])
    {
      mem[out] := value;
      out, count := out + 1, count - 1;
    }
    if count >= w.Size() {
      var fill := Filled(w, value);
      FilledMeaning(w, value);
      while count >= w.Size()
        invariant count == 0 || Aligned(w, out)
        invariant count <= size && out == destination + (size - count)
        invariant forall x :: 0 <= x < mem.Length ==> mem[x] == if destination <= x < out then value else old(mem[x])
      {
        ghost var before := mem[..];
        AlignedNext(w, out);
        StoreWord(w, mem, out, fill);
        PutBytes(before, mem[..], out, WordBytes(w, fill));
        out, count := out + w.Size(), count - w.Size();
      }
    }
    while count > 0
      invariant count <= size && out == destination + (size - count)
      invariant forall x :: 0 <= x < mem.Length ==> mem[x] == if destination <= x < out then value else old(mem[x])
    {
      mem[out] := value;
      out, count := out + 1, count - 1;
    }
  }

  lemma PutBytes(m: seq<byte>, m': seq<byte>, p: nat, bytes: seq<byte>)
    requires p + |bytes| <= |m| && m' == Put(m, p, bytes)
    ensures |m'| == |m| && forall x :: 0 <= x < |m| ==> m'[x] == if p <= x < p + |bytes| then bytes[x - p] else m[x]
  {
  }
}
