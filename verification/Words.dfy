/** Word-at-a-time byte tests (word.h) for 16- and 32-bit machines: they look at a whole word
and must say what a loop over its bytes would say, although carries and borrows spoil the
bytes after the first interesting one.  The first byte is at the low end of a word. */
module Words {
  import Bits

  type byte = bv8

  datatype Width = W16 | W32 {
    /** RISCC_WORD_SIZE */
    function Size(): (n: nat)
      ensures n == 2 || n == 4
    {
      if W16? then 2 else 4
    }
  }

  /** What a byte loop finds: the order of the first n bytes at p and q, where the first
  difference decides; with stop, a NUL that both have ends the comparison. */
  function Compared(m: seq<byte>, p: nat, q: nat, n: nat, stop: bool): int
    requires p + n <= |m| && q + n <= |m|
    decreases n
  {
    if n == 0 then 0
    else if m[p] != m[q] then Order(m[p], m[q])
    else if stop && m[p] == 0 then 0
    else Compared(m, p + 1, q + 1, n - 1, stop)
  }

  /** The byte at p + k ends the comparison. */
  predicate Event(m: seq<byte>, p: nat, q: nat, k: nat, stop: bool)
    requires p + k < |m| && q + k < |m|
  {
    m[p + k] != m[q + k] || (stop && m[p + k] == 0)
  }

  /** Bytes before the first event do not matter. */
  lemma {:induction false} ComparedSkip(m: seq<byte>, p: nat, q: nat, n: nat, stop: bool, k: nat)
    requires p + n <= |m| && q + n <= |m| && k <= n
    requires forall j :: 0 <= j < k ==> !Event(m, p, q, j, stop)
    ensures Compared(m, p, q, n, stop) == Compared(m, p + k, q + k, n - k, stop)
    decreases k
  {
    if k > 0 {
      assert !Event(m, p, q, 0, stop);
      forall j {:trigger Event(m, p + 1, q + 1, j, stop)} | 0 <= j < k - 1 ensures !Event(m, p + 1, q + 1, j, stop) {
        assert !Event(m, p, q, j + 1, stop);
      }
      ComparedSkip(m, p + 1, q + 1, n - 1, stop, k - 1);
    }
  }

  /** The comparison in full: lexicographic order by unsigned bytes, up to a common NUL. */
  lemma {:induction false} ComparedMeaning(m: seq<byte>, p: nat, q: nat, n: nat, stop: bool, k: nat)
    requires p + n <= |m| && q + n <= |m| && k <= n
    requires forall j :: 0 <= j < k ==> !Event(m, p, q, j, stop)
    requires k < n ==> Event(m, p, q, k, stop)
    ensures Compared(m, p, q, n, stop) == if k == n then 0 else Order(m[p + k], m[q + k])
  {
    ComparedSkip(m, p, q, n, stop, k);
  }

  lemma {:induction false} FirstEvent(m: seq<byte>, p: nat, q: nat, n: nat, stop: bool) returns (k: nat)
    requires p + n <= |m| && q + n <= |m|
    ensures k <= n && (forall j :: 0 <= j < k ==> !Event(m, p, q, j, stop)) && (k < n ==> Event(m, p, q, k, stop))
    decreases n
  {
    k := 0;
    while k < n && !Event(m, p, q, k, stop)
      invariant k <= n && forall j :: 0 <= j < k ==> !Event(m, p, q, j, stop)
    {
      k := k + 1;
    }
  }

  /** Once there has been an event, how far the comparison may go on does not matter. */
  lemma ComparedEnough(m: seq<byte>, p: nat, q: nat, n: nat, n': nat, stop: bool, k: nat)
    requires p + n <= |m| && q + n <= |m| && p + n' <= |m| && q + n' <= |m|
    requires k < n && k < n' && Event(m, p, q, k, stop)
    ensures Compared(m, p, q, n, stop) == Compared(m, p, q, n', stop)
  {
    var f := FirstEvent(m, p, q, k, stop);
    ComparedMeaning(m, p, q, n, stop, f);
    ComparedMeaning(m, p, q, n', stop, f);
  }

  // ----- words -----

  function Pack16(b0: byte, b1: byte): bv16 {
    (b0 as bv16) | ((b1 as bv16) << 8)
  }

  function Pack32(b0: byte, b1: byte, b2: byte, b3: byte): bv32 {
    (b0 as bv32) | ((b1 as bv32) << 8) | ((b2 as bv32) << 16) | ((b3 as bv32) << 24)
  }

  // RISCC_WORD_HAS_ZERO and riscc_word_compare, for both widths

  predicate HasZero16(v: bv16) { (v - 0x0101) & !v & 0x8080 != 0 }

  predicate HasZero32(v: bv32) { (v - 0x0101_0101) & !v & 0x8080_8080 != 0 }

  function Events16(a: bv16, b: bv16, stop: bool): bv16 {
    var diff := a ^ b;
    var events := (diff + 0x7f7f) | diff;
    (if stop then events | ((a - 0x0101) & !a) else events) & 0x8080
  }

  function Events32(a: bv32, b: bv32, stop: bool): bv32 {
    var diff := a ^ b;
    var events := (diff + 0x7f7f_7f7f) | diff;
    (if stop then events | ((a - 0x0101_0101) & !a) else events) & 0x8080_8080
  }

  function Mask16(a: bv16, b: bv16, stop: bool): bv16 {
    Events16(a, b, stop) ^ (Events16(a, b, stop) - 1)
  }

  function Mask32(a: bv32, b: bv32, stop: bool): bv32 {
    Events32(a, b, stop) ^ (Events32(a, b, stop) - 1)
  }

  function Compare16(a: bv16, b: bv16, stop: bool): int {
    var mask := Mask16(a, b, stop);
    (if Below16(b, a, mask) then 1 else 0) - (if Below16(a, b, mask) then 1 else 0)
  }

  /** Of the bytes that the mask keeps. */
  predicate Below16(a: bv16, b: bv16, mask: bv16) { a & mask < b & mask }

  predicate Below32(a: bv32, b: bv32, mask: bv32) { a & mask < b & mask }

  function Compare32(a: bv32, b: bv32, stop: bool): int {
    var mask := Mask32(a, b, stop);
    (if Below32(b, a, mask) then 1 else 0) - (if Below32(a, b, mask) then 1 else 0)
  }

  // ----- what the masks select -----

  /** The bytes of m differ, or stop the comparison. */
  predicate Hit16(a: bv16, b: bv16, stop: bool, m: bv16) { a & m != b & m || (stop && a & m == 0) }

  predicate Hit32(a: bv32, b: bv32, stop: bool, m: bv32) { a & m != b & m || (stop && a & m == 0) }

  lemma Mask16At(a: bv16, b: bv16, stop: bool)
    ensures Hit16(a, b, stop, 0xff) ==> Mask16(a, b, stop) == 0xff
    ensures !Hit16(a, b, stop, 0xff) ==> Mask16(a, b, stop) == 0xffff
  {
  }

  lemma Mask32At(a: bv32, b: bv32, stop: bool)
    ensures Mask32(a, b, stop) ==
            if Hit32(a, b, stop, 0xff) then 0xff else if Hit32(a, b, stop, 0xff00) then 0xffff
            else if Hit32(a, b, stop, 0xff_0000) then 0xff_ffff else 0xffff_ffff
  {
    Mask32First(a, b, stop);
    Mask32Second(a, b, stop);
    Mask32Third(a, b, stop);
    Mask32Rest(a, b, stop);
  }

  lemma Mask32First(a: bv32, b: bv32, stop: bool)
    ensures Hit32(a, b, stop, 0xff) ==> Mask32(a, b, stop) == 0xff
  {
  }

  lemma Mask32Second(a: bv32, b: bv32, stop: bool)
    ensures !Hit32(a, b, stop, 0xff) && Hit32(a, b, stop, 0xff00) ==> Mask32(a, b, stop) == 0xffff
  {
  }

  lemma Mask32Third(a: bv32, b: bv32, stop: bool)
    ensures !Hit32(a, b, stop, 0xff) && !Hit32(a, b, stop, 0xff00) && Hit32(a, b, stop, 0xff_0000) ==> Mask32(a, b, stop) == 0xff_ffff
  {
  }

  lemma Mask32Rest(a: bv32, b: bv32, stop: bool)
    ensures !Hit32(a, b, stop, 0xff) && !Hit32(a, b, stop, 0xff00) && !Hit32(a, b, stop, 0xff_0000) ==> Mask32(a, b, stop) == 0xffff_ffff
  {
  }

  predicate Less(a: byte, b: byte) { a < b }

  /** The order of two bytes. */
  function Order(a: byte, b: byte): int {
    (if Less(b, a) then 1 else 0) - (if Less(a, b) then 1 else 0)
  }

  lemma Hit16At(a0: byte, a1: byte, b0: byte, b1: byte, stop: bool)
    ensures Hit16(Pack16(a0, a1), Pack16(b0, b1), stop, 0xff) <==> a0 != b0 || (stop && a0 == 0)
  {
  }

  lemma Below16At(a0: byte, a1: byte, b0: byte, b1: byte)
    ensures Below16(Pack16(a0, a1), Pack16(b0, b1), 0xff) <==> Less(a0, b0)
    ensures a0 == b0 ==> (Below16(Pack16(a0, a1), Pack16(b0, b1), 0xffff) <==> Less(a1, b1))
  {
  }

  lemma Compare16Bytes(a0: byte, a1: byte, b0: byte, b1: byte, stop: bool)
    ensures Compare16(Pack16(a0, a1), Pack16(b0, b1), stop)
         == if a0 != b0 || (stop && a0 == 0) then Order(a0, b0) else Order(a1, b1)
  {
    hide Mask16, Hit16, Below16, Less, Pack16;
    Mask16At(Pack16(a0, a1), Pack16(b0, b1), stop);
    Hit16At(a0, a1, b0, b1, stop);
    Below16At(a0, a1, b0, b1);
    Below16At(b0, b1, a0, a1);
  }

  lemma Hit32At(a0: byte, a1: byte, a2: byte, a3: byte, b0: byte, b1: byte, b2: byte, b3: byte, stop: bool)
    ensures var a, b := Pack32(a0, a1, a2, a3), Pack32(b0, b1, b2, b3);
            && (Hit32(a, b, stop, 0xff) <==> a0 != b0 || (stop && a0 == 0))
            && (Hit32(a, b, stop, 0xff00) <==> a1 != b1 || (stop && a1 == 0))
            && (Hit32(a, b, stop, 0xff_0000) <==> a2 != b2 || (stop && a2 == 0))
  {
  }

  lemma Below32First(a0: byte, a1: byte, a2: byte, a3: byte, b0: byte, b1: byte, b2: byte, b3: byte)
    ensures Below32(Pack32(a0, a1, a2, a3), Pack32(b0, b1, b2, b3), 0xff) <==> Less(a0, b0)
  {
  }

  lemma Below32Second(a0: byte, a1: byte, a2: byte, a3: byte, b0: byte, b1: byte, b2: byte, b3: byte)
    requires a0 == b0
    ensures Below32(Pack32(a0, a1, a2, a3), Pack32(b0, b1, b2, b3), 0xffff) <==> Less(a1, b1)
  {
  }

  lemma Below32Third(a0: byte, a1: byte, a2: byte, a3: byte, b0: byte, b1: byte, b2: byte, b3: byte)
    requires a0 == b0 && a1 == b1
    ensures Below32(Pack32(a0, a1, a2, a3), Pack32(b0, b1, b2, b3), 0xff_ffff) <==> Less(a2, b2)
  {
  }

  lemma Below32Fourth(a0: byte, a1: byte, a2: byte, a3: byte, b0: byte, b1: byte, b2: byte, b3: byte)
    requires a0 == b0 && a1 == b1 && a2 == b2
    ensures Below32(Pack32(a0, a1, a2, a3), Pack32(b0, b1, b2, b3), 0xffff_ffff) <==> Less(a3, b3)
  {
    hide *;
    PackTop(a0, a1, a2, a3);
    PackTop(b0, b1, b2, b3);
    TopByte(Low24(a0, a1, a2), a3, b3);
  }

  predicate TopClear(low: bv32) { low < 0x100_0000 }

  function WithTop(low: bv32, top: byte): bv32 { low | ((top as bv32) << 24) }

  function Low24(b0: byte, b1: byte, b2: byte): bv32 {
    (b0 as bv32) | ((b1 as bv32) << 8) | ((b2 as bv32) << 16)
  }

  lemma PackTop(b0: byte, b1: byte, b2: byte, b3: byte)
    ensures Pack32(b0, b1, b2, b3) == WithTop(Low24(b0, b1, b2), b3)
    ensures TopClear(Low24(b0, b1, b2))
  {
  }

  lemma TopByte(low: bv32, a: byte, b: byte)
    requires TopClear(low)
    ensures Below32(WithTop(low, a), WithTop(low, b), 0xffff_ffff) <==> Less(a, b)
  {
    hide *;
    TopShift(low, a);
    TopShift(low, b);
    ShiftedOrder(WithTop(low, a), WithTop(low, b), low, a, b);
  }

  lemma TopShift(low: bv32, a: byte)
    requires TopClear(low)
    ensures HasTop(WithTop(low, a), low, a)
  {
  }

  predicate HasTop(x: bv32, low: bv32, a: byte) { x & 0xff_ffff == low && x >> 24 == a as bv32 }

  lemma ShiftedOrder(x: bv32, y: bv32, low: bv32, a: byte, b: byte)
    requires HasTop(x, low, a) && HasTop(y, low, b)
    ensures Below32(x, y, 0xffff_ffff) <==> Less(a, b)
  {
  }

  lemma Below32At(a0: byte, a1: byte, a2: byte, a3: byte, b0: byte, b1: byte, b2: byte, b3: byte)
    ensures Below32(Pack32(a0, a1, a2, a3), Pack32(b0, b1, b2, b3), 0xff) <==> Less(a0, b0)
    ensures a0 == b0 ==> (Below32(Pack32(a0, a1, a2, a3), Pack32(b0, b1, b2, b3), 0xffff) <==> Less(a1, b1))
    ensures a0 == b0 && a1 == b1 ==> (Below32(Pack32(a0, a1, a2, a3), Pack32(b0, b1, b2, b3), 0xff_ffff) <==> Less(a2, b2))
    ensures a0 == b0 && a1 == b1 && a2 == b2 ==> (Below32(Pack32(a0, a1, a2, a3), Pack32(b0, b1, b2, b3), 0xffff_ffff) <==> Less(a3, b3))
  {
    hide Below32, Less, Pack32;
    Below32First(a0, a1, a2, a3, b0, b1, b2, b3);
    if a0 == b0 {
      Below32Second(a0, a1, a2, a3, b0, b1, b2, b3);
      if a1 == b1 {
        Below32Third(a0, a1, a2, a3, b0, b1, b2, b3);
        if a2 == b2 { Below32Fourth(a0, a1, a2, a3, b0, b1, b2, b3); }
      }
    }
  }

  lemma Compare32Bytes(a0: byte, a1: byte, a2: byte, a3: byte, b0: byte, b1: byte, b2: byte, b3: byte, stop: bool)
    ensures Compare32(Pack32(a0, a1, a2, a3), Pack32(b0, b1, b2, b3), stop)
         == if a0 != b0 || (stop && a0 == 0) then Order(a0, b0)
            else if a1 != b1 || (stop && a1 == 0) then Order(a1, b1)
            else if a2 != b2 || (stop && a2 == 0) then Order(a2, b2)
            else Order(a3, b3)
  {
    hide Mask32, Hit32, Below32, Less, Pack32;
    Mask32At(Pack32(a0, a1, a2, a3), Pack32(b0, b1, b2, b3), stop);
    Hit32At(a0, a1, a2, a3, b0, b1, b2, b3, stop);
    Below32At(a0, a1, a2, a3, b0, b1, b2, b3);
    Below32At(b0, b1, b2, b3, a0, a1, a2, a3);
  }

  lemma HasZeroBytes(b0: byte, b1: byte, b2: byte, b3: byte)
    ensures HasZero16(Pack16(b0, b1)) <==> b0 == 0 || b1 == 0
    ensures HasZero32(Pack32(b0, b1, b2, b3)) <==> b0 == 0 || b1 == 0 || b2 == 0 || b3 == 0
  {
  }

  lemma SameBytes(a0: byte, a1: byte, a2: byte, a3: byte, b0: byte, b1: byte, b2: byte, b3: byte)
    ensures Pack16(a0, a1) == Pack16(b0, b1) <==> a0 == b0 && a1 == b1
    ensures Pack32(a0, a1, a2, a3) == Pack32(b0, b1, b2, b3) <==> a0 == b0 && a1 == b1 && a2 == b2 && a3 == b3
  {
  }

  // ----- for either width -----

  /** A native word, in the low bits. */
  function Load(w: Width, m: seq<byte>, p: nat): bv32
    requires p + w.Size() <= |m|
  {
    if w.W16? then Widen(Pack16(m[p], m[p + 1])) else Pack32(m[p], m[p + 1], m[p + 2], m[p + 3])
  }

  function Widen(v: bv16): bv32 { v as bv32 }

  function Narrow(v: bv32): bv16 {
    (v & 0xffff) as bv16
  }

  predicate HasZero(w: Width, v: bv32) {
    if w.W16? then HasZero16(Narrow(v)) else HasZero32(v)
  }

  function Compare(w: Width, a: bv32, b: bv32, stop: bool): int {
    if w.W16? then Compare16(Narrow(a), Narrow(b), stop) else Compare32(a, b, stop)
  }

  lemma Narrowed(b0: byte, b1: byte)
    ensures Narrow(Widen(Pack16(b0, b1))) == Pack16(b0, b1)
  {
  }

  lemma Widened(a: bv16, b: bv16)
    ensures Widen(a) == Widen(b) <==> a == b
  {
  }

  predicate NulAt(m: seq<byte>, p: nat, k: nat)
    requires p + k < |m|
  {
    m[p + k] == 0
  }

  predicate SameAt(m: seq<byte>, p: nat, q: nat, k: nat)
    requires p + k < |m| && q + k < |m|
  {
    m[p + k] == m[q + k]
  }

  /** The word test sees a NUL exactly when a byte loop would. */
  lemma HasZeroMeaning(w: Width, m: seq<byte>, p: nat)
    requires p + w.Size() <= |m|
    ensures HasZero(w, Load(w, m, p)) <==> exists k :: 0 <= k < w.Size() && NulAt(m, p, k)
  {
    hide *;
    LoadIs(w, m, p);
    CompareIs(w, Load(w, m, p), 0, false);
    Narrowed(m[p], m[p + 1]);
    NulBytesAt(w, m, p);
    if w.W16? {
      HasZeroBytes(m[p], m[p + 1], 0, 0);
    } else {
      HasZeroBytes(m[p], m[p + 1], m[p + 2], m[p + 3]);
    }
  }

  /** Words are equal exactly when their bytes are. */
  lemma EqualMeaning(w: Width, m: seq<byte>, p: nat, q: nat)
    requires p + w.Size() <= |m| && q + w.Size() <= |m|
    ensures Load(w, m, p) == Load(w, m, q) <==> forall k :: 0 <= k < w.Size() ==> SameAt(m, p, q, k)
  {
    hide *;
    LoadIs(w, m, p);
    LoadIs(w, m, q);
    SameBytesAt(w, m, p, q);
    if w.W16? {
      Widened(Pack16(m[p], m[p + 1]), Pack16(m[q], m[q + 1]));
      SameBytes(m[p], m[p + 1], 0, 0, m[q], m[q + 1], 0, 0);
    } else {
      SameBytes(m[p], m[p + 1], m[p + 2], m[p + 3], m[q], m[q + 1], m[q + 2], m[q + 3]);
    }
  }

  lemma LoadIs(w: Width, m: seq<byte>, p: nat)
    requires p + w.Size() <= |m|
    ensures w.Size() == if w.W16? then 2 else 4
    ensures w.W16? ==> Load(w, m, p) == Widen(Pack16(m[p], m[p + 1]))
    ensures w.W32? ==> Load(w, m, p) == Pack32(m[p], m[p + 1], m[p + 2], m[p + 3])
  {
  }

  lemma SameBytesAt(w: Width, m: seq<byte>, p: nat, q: nat)
    requires p + w.Size() <= |m| && q + w.Size() <= |m|
    ensures (forall k :: 0 <= k < w.Size() ==> SameAt(m, p, q, k)) <==>
              && m[p] == m[q] && m[p + 1] == m[q + 1]
              && (w.W32? ==> m[p + 2] == m[q + 2] && m[p + 3] == m[q + 3])
  {
    assert SameAt(m, p, q, 0) <==> m[p] == m[q];
    assert SameAt(m, p, q, 1) <==> m[p + 1] == m[q + 1];
    if w.W32? {
      assert SameAt(m, p, q, 2) <==> m[p + 2] == m[q + 2];
      assert SameAt(m, p, q, 3) <==> m[p + 3] == m[q + 3];
    }
  }

  lemma NulBytesAt(w: Width, m: seq<byte>, p: nat)
    requires p + w.Size() <= |m|
    ensures (exists k :: 0 <= k < w.Size() && NulAt(m, p, k)) <==>
              m[p] == 0 || m[p + 1] == 0 || (w.W32? && (m[p + 2] == 0 || m[p + 3] == 0))
  {
    assert NulAt(m, p, 0) <==> m[p] == 0;
    assert NulAt(m, p, 1) <==> m[p + 1] == 0;
    if w.W32? {
      assert NulAt(m, p, 2) <==> m[p + 2] == 0;
      assert NulAt(m, p, 3) <==> m[p + 3] == 0;
    }
  }

  /** The events among the bytes of a word. */
  lemma EventsAt(w: Width, m: seq<byte>, p: nat, q: nat, stop: bool, k: nat)
    requires p + w.Size() <= |m| && q + w.Size() <= |m| && k < w.Size()
    ensures Event(m, p, q, k, stop) <==> m[p + k] != m[q + k] || (stop && m[p + k] == 0)
  {
  }

  lemma CompareIs(w: Width, a: bv32, b: bv32, stop: bool)
    ensures Compare(w, a, b, stop) == if w.W16? then Compare16(Narrow(a), Narrow(b), stop) else Compare32(a, b, stop)
    ensures HasZero(w, a) <==> if w.W16? then HasZero16(Narrow(a)) else HasZero32(a)
  {
  }

  /** riscc_word_compare orders two words as a loop over their bytes does, whatever the
  carries and borrows do to the bytes after the first event. */
  lemma CompareMeaning(w: Width, m: seq<byte>, p: nat, q: nat, stop: bool)
    requires p + w.Size() <= |m| && q + w.Size() <= |m|
    ensures Compare(w, Load(w, m, p), Load(w, m, q), stop) == Compared(m, p, q, w.Size(), stop)
  {
    hide *;
    var f := FirstEvent(m, p, q, w.Size(), stop);
    ComparedMeaning(m, p, q, w.Size(), stop, f);
    LoadIs(w, m, p);
    LoadIs(w, m, q);
    CompareIs(w, Load(w, m, p), Load(w, m, q), stop);
    OrderSame(m[p + w.Size() - 1]);
    EventsAt(w, m, p, q, stop, 0);
    EventsAt(w, m, p, q, stop, 1);
    if w.W16? {
      Narrowed(m[p], m[p + 1]);
      Narrowed(m[q], m[q + 1]);
      Compare16Bytes(m[p], m[p + 1], m[q], m[q + 1], stop);
    } else {
      EventsAt(w, m, p, q, stop, 2);
      EventsAt(w, m, p, q, stop, 3);
      Compare32Bytes(m[p], m[p + 1], m[p + 2], m[p + 3], m[q], m[q + 1], m[q + 2], m[q + 3], stop);
    }
  }

  lemma OrderSame(a: byte)
    ensures Order(a, a) == 0
  {
  }

  // ----- stores and alignment -----

  /** The bytes a word store writes. */
  function WordBytes(w: Width, v: bv32): (bytes: seq<byte>)
    ensures |bytes| == w.Size()
  {
    if w.W16? then [Byte0(v), Byte1(v)] else [Byte0(v), Byte1(v), Byte2(v), Byte3(v)]
  }

  function Byte0(v: bv32): byte { (v & 0xff) as byte }

  function Byte1(v: bv32): byte { ((v >> 8) & 0xff) as byte }

  function Byte2(v: bv32): byte { ((v >> 16) & 0xff) as byte }

  function Byte3(v: bv32): byte { ((v >> 24) & 0xff) as byte }

  lemma BytesOfPack(b0: byte, b1: byte, b2: byte, b3: byte)
    ensures Byte0(Widen(Pack16(b0, b1))) == b0 && Byte1(Widen(Pack16(b0, b1))) == b1
    ensures Byte0(Pack32(b0, b1, b2, b3)) == b0 && Byte1(Pack32(b0, b1, b2, b3)) == b1
    ensures Byte2(Pack32(b0, b1, b2, b3)) == b2 && Byte3(Pack32(b0, b1, b2, b3)) == b3
  {
  }

  /** Storing what was loaded copies the bytes. */
  lemma LoadedBytes(w: Width, m: seq<byte>, p: nat)
    requires p + w.Size() <= |m|
    ensures WordBytes(w, Load(w, m, p)) == m[p..p + w.Size()]
  {
    hide Byte0, Byte1, Byte2, Byte3, Pack16, Pack32, Widen;
    if w.W16? {
      BytesOfPack(m[p], m[p + 1], 0, 0);
    } else {
      BytesOfPack(m[p], m[p + 1], m[p + 2], m[p + 3]);
    }
  }

  /** value * RISCC_WORD_ONES */
  function Filled(w: Width, v: byte): bv32 {
    if w.W16? then Widen((v as bv16) * 0x0101) else (v as bv32) * 0x0101_0101
  }

  lemma FilledBytes(v: byte)
    ensures Byte0(Widen((v as bv16) * 0x0101)) == v && Byte1(Widen((v as bv16) * 0x0101)) == v
    ensures Byte0((v as bv32) * 0x0101_0101) == v && Byte1((v as bv32) * 0x0101_0101) == v
    ensures Byte2((v as bv32) * 0x0101_0101) == v && Byte3((v as bv32) * 0x0101_0101) == v
  {
  }

  lemma FilledMeaning(w: Width, v: byte)
    ensures forall k :: 0 <= k < w.Size() ==> WordBytes(w, Filled(w, v))[k] == v
  {
    hide Byte0, Byte1, Byte2, Byte3;
    FilledBytes(v);
  }

  /** RISCC_WORD_ALIGNED */
  predicate Aligned(w: Width, p: nat) {
    Bits.And(p, w.Size() - 1) == 0
  }

  /** ((p ^ q) & RISCC_WORD_ALIGN_MASK) == 0 */
  predicate Congruent(w: Width, p: nat, q: nat) {
    Bits.And(Bits.Xor(p, q), w.Size() - 1) == 0
  }

  lemma AlignMask(w: Width, p: nat, q: nat)
    ensures Bits.And(p, w.Size() - 1) == p % w.Size()
    ensures Bits.And(Bits.Xor(p, q), w.Size() - 1) == 0 <==> p % w.Size() == q % w.Size()
  {
    hide Bits.And, Bits.Xor;
    Bits.Pow2Values();
    var k := if w.W16? then 1 else 2;
    Bits.AndMask(p, w.Size() - 1, k);
    Bits.XorLowBits(p, q, k);
  }

  lemma AlignedNext(w: Width, p: nat)
    ensures Aligned(w, p + w.Size()) <==> Aligned(w, p)
    ensures p >= w.Size() ==> (Aligned(w, p - w.Size()) <==> Aligned(w, p))
  {
    hide *;
    var d := w.Size();
    CongruentIs(w, p, p + d);
    if p >= d { CongruentIs(w, p, p - d); }
    Bits.DivModBasic(p, d);
    Bits.DivModUnique(p + d, d, p / d + 1, p % d);
    if p >= d { Bits.DivModUnique(p - d, d, p / d - 1, p % d); }
  }

  /** Pointers that move together stay congruent. */
  lemma CongruentNext(w: Width, p: nat, q: nat)
    ensures Congruent(w, p + 1, q + 1) <==> Congruent(w, p, q)
    ensures Congruent(w, p, q) && Aligned(w, p) ==> Aligned(w, q)
  {
    hide *;
    var d := w.Size();
    NextRemainder(p, d);
    NextRemainder(q, d);
    CongruentIs(w, p, q);
    CongruentIs(w, p + 1, q + 1);
  }

  lemma CongruentIs(w: Width, p: nat, q: nat)
    ensures w.Size() > 1 && (Congruent(w, p, q) <==> p % w.Size() == q % w.Size())
    ensures (Aligned(w, p) <==> p % w.Size() == 0) && (Aligned(w, q) <==> q % w.Size() == 0)
  {
    hide Bits.And, Bits.Xor;
    AlignMask(w, p, q);
    AlignMask(w, q, p);
  }

  lemma NextRemainder(p: nat, d: nat)
    requires d > 1
    ensures 0 <= p % d < d && (p + 1) % d == if p % d == d - 1 then 0 else p % d + 1
  {
    Bits.DivModBasic(p, d);
    if p % d == d - 1 {
      Bits.DivModUnique(p + 1, d, p / d + 1, 0);
    } else {
      Bits.DivModUnique(p + 1, d, p / d, p % d + 1);
    }
  }
}
