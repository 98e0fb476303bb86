/** Byte-addressed memory holding little-endian words: what a size_t or pointer field of a
struct in raw memory reads and writes. */
module RawMemory {

  type u8 = x: int | 0 <= x < 256

  /** Number of values of a w-byte word. */
  function Range(w: nat): (r: nat)
    ensures r > 0
  {
    if w == 0 then 1 else 256 * Range(w - 1)
  }

  function LoadWord(m: seq<u8>, a: nat, w: nat): nat
    requires a + w <= |m|
    decreases w
  {
    if w == 0 then 0 else m[a] + 256 * LoadWord(m, a + 1, w - 1)
  }

  function StoreWord(m: seq<u8>, a: nat, w: nat, x: nat): (m': seq<u8>)
    requires a + w <= |m|
    ensures |m'| == |m| && forall i :: 0 <= i < |m| && !(a <= i < a + w) ==> m'[i] == m[i]
    decreases w
  {
    if w == 0 then m else StoreWord(m[a := x % 256], a + 1, w - 1, x / 256)
  }

  /** The word depends only on its own bytes. */
  lemma {:induction false} LoadSame(m: seq<u8>, m': seq<u8>, a: nat, w: nat)
    requires a + w <= |m| && a + w <= |m'|
    requires forall i :: a <= i < a + w ==> m[i] == m'[i]
    ensures LoadWord(m, a, w) == LoadWord(m', a, w)
    decreases w
  {
    if w > 0 { LoadSame(m, m', a + 1, w - 1); }
  }

  lemma {:induction false} LoadStored(m: seq<u8>, a: nat, w: nat, x: nat)
    requires a + w <= |m| && x < Range(w)
    ensures LoadWord(StoreWord(m, a, w, x), a, w) == x
    decreases w
  {
    if w > 0 {
      LoadStored(m[a := x % 256], a + 1, w - 1, x / 256);
    }
  }

  /** Only bytes lo..hi differ. */
  ghost predicate SameOutside(m: seq<u8>, m': seq<u8>, lo: nat, hi: nat) {
    |m'| == |m| && forall i :: 0 <= i < |m| && !(lo <= i < hi) ==> m'[i] == m[i]
  }
}
