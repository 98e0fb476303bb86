/** strtol and strtoul (convert.c).  A C string is a sequence of characters; reading at its end
yields NUL.  long is 32 bits wide on every target. */
module Convert {
  import opened CStrings
  import Bits
  import Rounding

  const LONG_MAX: int := 0x7fff_ffff
  const LONG_MIN: int := -0x8000_0000
  const ULONG_MAX: int := 0xffff_ffff
  const EINVAL: int := 22
  const ERANGE: int := 34

  /** isspace of ctype.c */
  predicate IsSpace(c: char) {
    c == ' ' || '\t' <= c <= '\r'
  }

  /** What a digit is worth in the largest base; -1 for other characters. */
  function DigitValue(c: char): (d: int)
    ensures -1 <= d < 36
  {
    if '0' <= c <= '9' then c as int - '0' as int
    else if 'a' <= c <= 'z' then c as int - 'a' as int + 10
    else if 'A' <= c <= 'Z' then c as int - 'A' as int + 10
    else -1
  }

  /** A character is worth d exactly when it is the digit d, a letter in either case. */
  lemma DigitMeaning(c: char, d: nat)
    requires d < 36
    ensures DigitValue(c) == d <==> c == DigitChar(d, false) || c == DigitChar(d, true)
  {
    DigitWorth(d, false);
    DigitWorth(d, true);
    if DigitValue(c) == d {
      assert c as int == (if '0' <= c <= '9' then '0' as int + d else if 'a' <= c <= 'z' then 'a' as int + d - 10 else 'A' as int + d - 10);
    }
  }

  lemma DigitWorth(d: nat, upper: bool)
    requires d < 36
    ensures DigitValue(DigitChar(d, upper)) == d
    ensures DigitChar(d, upper) as int == if d < 10 then '0' as int + d else (if upper then 'A' as int else 'a' as int) + d - 10
  {
  }

  predicate IsDigit(c: char, base: int) {
    0 <= DigitValue(c) < base
  }

  // ----- the subject sequence -----

  /** Index of the first character at or after i that is not white space. */
  function SpacesEnd(s: string, i: nat): (j: nat)
    ensures j >= i && !IsSpace(At(s, j)) && forall k :: i <= k < j ==> IsSpace(At(s, k))
    decreases |s| - i
  {
    if i < |s| && IsSpace(s[i]) then SpacesEnd(s, i + 1) else i
  }

  /** Index of the first character at or after i that is not a digit of the base. */
  function DigitsEnd(s: string, i: nat, base: int): (j: nat)
    ensures j >= i && !IsDigit(At(s, j), base) && forall k :: i <= k < j ==> IsDigit(At(s, k), base)
    decreases |s| - i
  {
    if i < |s| && IsDigit(s[i], base) then DigitsEnd(s, i + 1, base) else i
  }

  lemma {:induction false} SpacesEndIs(s: string, i: nat, j: nat)
    requires i <= j && !IsSpace(At(s, j)) && forall k :: i <= k < j ==> IsSpace(At(s, k))
    ensures SpacesEnd(s, i) == j
    decreases j - i
  {
    if i < j {
      assert IsSpace(At(s, i));
      SpacesEndIs(s, i + 1, j);
    }
  }

  lemma {:induction false} DigitsEndIs(s: string, i: nat, j: nat, base: int)
    requires i <= j && !IsDigit(At(s, j), base) && forall k :: i <= k < j ==> IsDigit(At(s, k), base)
    ensures DigitsEnd(s, i, base) == j
    decreases j - i
  {
    if i < j {
      assert IsDigit(At(s, i), base);
      DigitsEndIs(s, i + 1, j, base);
    }
  }

  /** The number written by the digits i..j. */
  function Value(s: string, i: nat, j: nat, base: nat): nat
    requires i <= j <= |s| && forall k :: i <= k < j ==> IsDigit(s[k], base)
    decreases j - i
  {
    if i == j then 0
    else
      assert IsDigit(s[j - 1], base);
      Scaled(Value(s, i, j - 1, base), base) + DigitValue(s[j - 1])
  }

  function Scaled(v: nat, base: nat): nat {
    Positive(v, base);
    v * base
  }

  lemma Positive(a: nat, b: nat)
    ensures a * b >= 0
  {
  }

  predicate HexPrefix(s: string, i: nat) {
    At(s, i) == '0' && (At(s, i + 1) == 'x' || At(s, i + 1) == 'X') && IsDigit(At(s, i + 2), 16)
  }

  /** What the characters after the sign say about the base, and where the digits start. */
  function BaseOf(s: string, i: nat, base: int): (t: (int, nat))
    requires base == 0 || 2 <= base <= 36
    ensures 2 <= t.0 <= 36 && i <= t.1
  {
    if base == 0 then
      if HexPrefix(s, i) then (16, i + 2) else if At(s, i) == '0' then (8, i) else (10, i)
    else if base == 16 && HexPrefix(s, i) then (16, i + 2)
    else (base, i)
  }

  /** The sign, the base, and the digits first..end of a numeral. */
  datatype Subject = Subject(negative: bool, base: nat, first: nat, end: nat)

  function SubjectOf(s: string, base: int): (r: Subject)
    requires base == 0 || 2 <= base <= 36
    ensures r.first <= r.end && 2 <= r.base <= 36
    ensures r.first < r.end ==> r.end <= |s| && forall k :: r.first <= k < r.end ==> IsDigit(s[k], r.base)
  {
    var i := SpacesEnd(s, 0);
    var signed := At(s, i) == '-' || At(s, i) == '+';
    var (b, first) := BaseOf(s, if signed then i + 1 else i, base);
    var end := DigitsEnd(s, first, b);
    assert !IsDigit('\0', b);
    assert first < end ==> IsDigit(At(s, end - 1), b);
    assert forall k :: first <= k < end ==> IsDigit(At(s, k), b) && At(s, k) == s[k];
    Subject(At(s, i) == '-', b, first, end)
  }

  /** The integer a string starts with, if it starts with one. */
  function Numeral(s: string, base: int): nat
    requires base == 0 || 2 <= base <= 36
  {
    var r := SubjectOf(s, base);
    if r.first == r.end then 0 else Value(s, r.first, r.end, r.base)
  }

  // ----- the parser -----

  lemma {:induction false} ValueMonotone(s: string, i: nat, j: nat, n: nat, base: nat)
    requires i <= j <= n <= |s| && base >= 1 && forall k :: i <= k < n ==> IsDigit(s[k], base)
    ensures Value(s, i, j, base) <= Value(s, i, n, base)
    decreases n - j
  {
    if j < n {
      ValueMonotone(s, i, j, n - 1, base);
      Grows(Value(s, i, n - 1, base), base);
    }
  }

  lemma Grows(v: nat, base: nat)
    requires base >= 1
    ensures Scaled(v, base) >= v
  {
  }

  /** value > (limit - digit) / base exactly when value * base + digit exceeds the limit. */
  lemma WouldOverflow(value: nat, digit: nat, base: nat, limit: nat)
    requires base >= 1 && digit <= limit
    ensures value > (limit - digit) / base <==> Scaled(value, base) + digit > limit
  {
    hide *;
    var n := limit - digit;
    Bits.DivModBasic(n, base);
    QuotientExceeded(value, n, base, n / base, n % base);
    ScaledIs(value, base);
  }

  lemma ScaledIs(v: nat, base: nat)
    ensures Scaled(v, base) == v * base
  {
  }

  lemma QuotientExceeded(value: nat, n: nat, base: nat, q: int, r: int)
    requires n == base * q + r && 0 <= r < base
    ensures value > q <==> value * base > n
  {
    hide *;
    if value > q {
      Rounding.ProductLe(q + 1, value, base);
      NextProduct(q, base);
    } else {
      Rounding.ProductLe(value, q, base);
    }
  }

  lemma NextProduct(q: int, base: int)
    ensures (q + 1) * base == q * base + base
  {
  }

  /** parse_unsigned: the value of the numeral, cut off at the largest unsigned long. */
  method ParseUnsigned(s: string, base0: int, errno0: int) returns (value: int, end: nat, negative: bool, overflow: bool, errno: int)
    requires base0 == 0 || 2 <= base0 <= 36
    ensures negative == SubjectOf(s, base0).negative
    ensures end == if SubjectOf(s, base0).first == SubjectOf(s, base0).end then 0 else SubjectOf(s, base0).end
    ensures overflow <==> Numeral(s, base0) > ULONG_MAX
    ensures value == if overflow then ULONG_MAX else Numeral(s, base0)
    ensures errno == if overflow then ERANGE else errno0
  {
    hide IsSpace, IsDigit, Value, Scaled;
    errno := errno0;
    var scan, base := 0, base0;
    while IsSpace(At(s, scan))
      invariant SpacesEnd(s, scan) == SpacesEnd(s, 0)
      decreases |s| - scan
    {
      NulEndsScan(s, scan);
      scan := scan + 1;
    }
    negative := false;
    if At(s, scan) == '-' || At(s, scan) == '+' {
      negative := At(s, scan) == '-';
      scan := scan + 1;
    }
    if base == 0 {
      if HexPrefix(s, scan) {
        base, scan := 16, scan + 2;
      } else if At(s, scan) == '0' {
        base := 8;
      } else {
        base := 10;
      }
    } else if base == 16 && HexPrefix(s, scan) {
      scan := scan + 2;
    }
    var first := scan;
    ghost var r := SubjectOf(s, base0);
    assert first == r.first && base == r.base;
    value, scan, overflow := Accumulate(s, first, base);
    if first == scan {
      return 0, 0, negative, false, errno;
    }
    end := scan;
    if overflow {
      errno := ERANGE;
      value := ULONG_MAX;
    }
  }

  lemma NulEndsScan(s: string, i: nat)
    ensures IsSpace(At(s, i)) ==> i < |s|
    ensures forall base: int :: IsDigit(At(s, i), base) ==> i < |s|
  {
  }

  /** The digit loop. */
  method Accumulate(s: string, first: nat, base: nat) returns (value: int, scan: nat, overflow: bool)
    requires 2 <= base <= 36
    ensures scan == DigitsEnd(s, first, base)
    ensures first == scan || (first <= scan <= |s| && forall k :: first <= k < scan ==> IsDigit(s[k], base))
    ensures first == scan ==> value == 0 && !overflow
    ensures first < scan ==> (overflow <==> Value(s, first, scan, base) > ULONG_MAX)
    ensures first < scan && !overflow ==> value == Value(s, first, scan, base)
  {
    value, scan, overflow := 0, first, false;
    if first > |s| {
      return;
    }
    while IsDigit(At(s, scan), base)
      invariant first <= scan <= |s| && forall k :: first <= k < scan ==> IsDigit(s[k], base)
      invariant DigitsEnd(s, scan, base) == DigitsEnd(s, first, base)
      invariant 0 <= value <= ULONG_MAX
      invariant overflow <==> Value(s, first, scan, base) > ULONG_MAX
      invariant !overflow ==> value == Value(s, first, scan, base)
      decreases |s| - scan
    {
      var digit := DigitValue(At(s, scan));
      WouldOverflow(value, digit, base, ULONG_MAX);
      ValueMonotone(s, first, scan, scan + 1, base);
      if value > (ULONG_MAX - digit) / base {
        overflow := true;
      } else {
        value := Scaled(value, base) + digit;
      }
      scan := scan + 1;
    }
  }

  // ----- strtol and strtoul -----

  function Clamp(x: int, low: int, high: int): int {
    if x < low then low else if x > high then high else x
  }

  /** What a parse consumed: nothing without digits. */
  function Consumed(s: string, base: int): nat
    requires base == 0 || 2 <= base <= 36
  {
    var r := SubjectOf(s, base);
    if r.first == r.end then 0 else r.end
  }

  /** The integer with its sign. */
  function SignedNumeral(s: string, base: int): int
    requires base == 0 || 2 <= base <= 36
  {
    if SubjectOf(s, base).negative then -(Numeral(s, base) as int) else Numeral(s, base)
  }

  predicate ValidBase(base: int) {
    base == 0 || 2 <= base <= 36
  }

  /** The nearest long to the integer written; ERANGE exactly when it is not the integer itself. */
  method Strtol(s: string, base: int, errno0: int) returns (r: int, end: nat, errno: int)
    ensures !ValidBase(base) ==> r == 0 && end == 0 && errno == EINVAL
    ensures ValidBase(base) ==> r == Clamp(SignedNumeral(s, base), LONG_MIN, LONG_MAX) && end == Consumed(s, base)
    ensures ValidBase(base) ==> errno == if r == SignedNumeral(s, base) then errno0 else ERANGE
    ensures ValidBase(base) ==> var v := SignedNumeral(s, base);
              LONG_MIN <= r <= LONG_MAX && (r < v ==> r == LONG_MAX) && (r > v ==> r == LONG_MIN)
  {
    if base < 0 || base == 1 || base > 36 {
      return 0, 0, EINVAL;
    }
    var value, end', negative, overflow, errno' := ParseUnsigned(s, base, errno0);
    end, errno := end', errno';
    var positiveLimit := LONG_MAX;
    var negativeLimit := positiveLimit + 1;
    if overflow {
      r := if negative then LONG_MIN else LONG_MAX;
      return;
    }
    if negative {
      if value > negativeLimit {
        errno := ERANGE;
        r := LONG_MIN;
        return;
      }
      r := ToLong((0 - value) % 0x1_0000_0000);
      return;
    }
    if value > positiveLimit {
      errno := ERANGE;
      r := LONG_MAX;
      return;
    }
    r := ToLong(value);
  }

  /** The conversion of an unsigned long to long. */
  function ToLong(x: int): int {
    if x > LONG_MAX then x - 0x1_0000_0000 else x
  }

  /** The integer modulo 2^32 when its magnitude fits, and otherwise the largest value and ERANGE. */
  method Strtoul(s: string, base: int, errno0: int) returns (r: int, end: nat, errno: int)
    ensures !ValidBase(base) ==> r == 0 && end == 0 && errno == EINVAL
    ensures ValidBase(base) && Numeral(s, base) <= ULONG_MAX ==>
              r == SignedNumeral(s, base) % 0x1_0000_0000 && end == Consumed(s, base) && errno == errno0
    ensures ValidBase(base) && Numeral(s, base) > ULONG_MAX ==> r == ULONG_MAX && end == Consumed(s, base) && errno == ERANGE
  {
    if base < 0 || base == 1 || base > 36 {
      return 0, 0, EINVAL;
    }
    var value, end', negative, overflow, errno' := ParseUnsigned(s, base, errno0);
    end, errno := end', errno';
    if overflow {
      return ULONG_MAX, end, errno;
    }
    r := if negative then (0 - value) % 0x1_0000_0000 else value;
  }
}
