/** What printf prints, strtol and strtoul read back. */
module PrintParse {
  import opened CStrings
  import opened Convert
  import opened Printf

  lemma DigitCharValue(d: nat, upper: bool)
    requires d < 16
    ensures DigitValue(DigitChar(d, upper)) == d && !IsSpace(DigitChar(d, upper))
    ensures DigitChar(d, upper) !in "-+xX"
  {
  }

  /** A numeral consists of digits of its base. */
  lemma {:induction false} DigitsAreDigits(value: nat, base: nat, upper: bool)
    requires 2 <= base <= 16
    ensures forall i :: 0 <= i < |Digits(value, base, upper)| ==> DigitOf(Digits(value, base, upper)[i], base, upper)
    decreases value
  {
    if value >= base {
      Smaller(value, base);
      Bits.DivModBasic(value, base);
      DigitsAreDigits(value / base, base, upper);
    }
  }

  ghost predicate DigitOf(c: char, base: nat, upper: bool) {
    exists d: nat :: d < base <= 16 && c == DigitChar(d, upper)
  }

  lemma DigitFacts(c: char, base: nat, upper: bool)
    requires DigitOf(c, base, upper)
    ensures IsDigit(c, base) && !IsSpace(c) && c !in "-+xX"
  {
    var d: nat :| d < base <= 16 && c == DigitChar(d, upper);
    DigitCharValue(d, upper);
  }

  /** Reading a numeral gives the value it was made from. */
  lemma {:induction false} ValueOfDigits(s: string, i: nat, value: nat, base: nat, upper: bool)
    requires 2 <= base <= 16
    requires var n := |Digits(value, base, upper)|; i + n <= |s| && s[i..i + n] == Digits(value, base, upper)
    requires forall k :: i <= k < i + |Digits(value, base, upper)| ==> IsDigit(s[k], base)
    ensures Value(s, i, i + |Digits(value, base, upper)|, base) == value
    decreases value
  {
    hide IsDigit, DigitChar, DigitValue;
    var all := Digits(value, base, upper);
    var n := |all|;
    assert s[i + n - 1] == s[i..i + n][n - 1] == all[n - 1];
    Bits.DivModBasic(value, base);
    if value < base {
      DigitCharValue(value, upper);
      assert Value(s, i, i, base) == 0;
    } else {
      Smaller(value, base);
      var rest := Digits(value / base, base, upper);
      assert all == rest + [DigitChar(value % base, upper)];
      assert s[i..i + n - 1] == s[i..i + n][..n - 1] == rest;
      ValueOfDigits(s, i, value / base, base, upper);
      DigitCharValue(value % base, upper);
      QuotientTimes(value, base);
    }
  }

  lemma QuotientTimes(value: nat, base: nat)
    requires base > 0
    ensures value / base >= 0 && Scaled(value / base, base) == base * (value / base)
  {
    Bits.DivNonnegative(value, base);
  }

  /** Leading zeros do not count. */
  lemma {:induction false} ZerosBefore(s: string, i: nat, j: nat, n: nat, base: nat)
    requires i <= j <= n <= |s| && base >= 2 && (forall k :: i <= k < n ==> IsDigit(s[k], base)) && forall k :: i <= k < j ==> s[k] == '0'
    ensures Value(s, i, n, base) == Value(s, j, n, base)
    decreases n
  {
    if i < n {
      if n > j {
        ZerosBefore(s, i, j, n - 1, base);
      } else {
        ZerosBefore(s, i, n - 1, n - 1, base);
        assert Value(s, n - 1, n - 1, base) == 0 && s[n - 1] == '0';
      }
    }
  }

  /** The parts of a printed number: `spaces` spaces, perhaps a minus sign, zeros, digits, spaces. */
  ghost predicate Laid(t: string, spaces: nat, negative: bool, zeros: nat, digits: string, base: nat, upper: bool) {
    var first := spaces + if negative then 1 else 0;
    var end := first + zeros + |digits|;
    && end <= |t| && |digits| >= 1
    && (forall k :: 0 <= k < spaces ==> t[k] == ' ')
    && (negative ==> t[spaces] == '-')
    && (forall k :: first <= k < first + zeros ==> t[k] == '0')
    && t[first + zeros..end] == digits
    && (forall k :: 0 <= k < |digits| ==> DigitOf(digits[k], base, upper))
    && (forall k :: end <= k < |t| ==> t[k] == ' ')
  }

  lemma NumberIsLaid(value: nat, base: nat, upper: bool, width: int, left: bool, zero: bool, negative: bool)
      returns (spaces: nat, zeros: nat)
    requires 2 <= base <= 16
    ensures Laid(NumberText(value, base, upper, width, left, zero, negative), spaces, negative, zeros, Digits(value, base, upper), base, upper)
  {
    hide Digits, DigitOf, Repeat, SignText, Laid, Padding;
    DigitsAreDigits(value, base, upper);
    var digits := Digits(value, base, upper);
    var padding := Padding(width, |SignText(negative)| + |digits|);
    spaces := if left || zero then 0 else padding;
    zeros := if !left && zero then padding else 0;
    var trail := if left then padding else 0;
    assert NumberText(value, base, upper, width, left, zero, negative)
        == Repeat(' ', spaces) + SignText(negative) + Repeat('0', zeros) + digits + Repeat(' ', trail);
    ConcatLaid(spaces, negative, zeros, digits, trail, base, upper);
  }

  lemma ConcatLaid(spaces: nat, negative: bool, zeros: nat, digits: string, trail: nat, base: nat, upper: bool)
    requires |digits| >= 1 && forall k :: 0 <= k < |digits| ==> DigitOf(digits[k], base, upper)
    ensures Laid(Repeat(' ', spaces) + SignText(negative) + Repeat('0', zeros) + digits + Repeat(' ', trail),
      spaces, negative, zeros, digits, base, upper)
  {
    hide DigitOf, Repeat;
  }

  /** Parsing what is laid out so. */
  lemma LaidParses(t: string, spaces: nat, negative: bool, zeros: nat, value: nat, base: nat, upper: bool)
    requires 2 <= base <= 16 && Laid(t, spaces, negative, zeros, Digits(value, base, upper), base, upper)
    ensures Numeral(t, base) == value && SubjectOf(t, base).negative == negative
    ensures Consumed(t, base) == spaces + (if negative then 1 else 0) + zeros + |Digits(value, base, upper)|
  {
    hide Digits, Value, DigitOf, IsDigit, IsSpace;
    var digits := Digits(value, base, upper);
    var first := spaces + if negative then 1 else 0;
    var end := first + zeros + |digits|;
    SpaceFacts(base);
    forall k | first <= k < end ensures IsDigit(t[k], base) && !IsSpace(t[k]) && t[k] !in "-+xX" {
      if k < first + zeros {
        ZeroFacts(base);
      } else {
        assert t[k] == t[first + zeros..end][k - first - zeros];
        DigitFacts(t[k], base, upper);
      }
    }
    SpacesEndIs(t, 0, spaces);
    DigitsEndIs(t, first, end, base);
    assert !HexPrefix(t, first);
    ZerosBefore(t, first, first + zeros, end, base);
    ValueOfDigits(t, first + zeros, value, base, upper);
  }

  lemma SpaceFacts(base: nat)
    ensures IsSpace(' ') && !IsSpace('-') && !IsSpace('\0') && !IsDigit(' ', base) && !IsDigit('\0', base)
  {
  }

  lemma ZeroFacts(base: nat)
    requires base >= 2
    ensures IsDigit('0', base) && !IsSpace('0') && '0' !in "-+xX"
  {
  }

  // ----- the round trips -----

  /** The index after the last digit of a printed number. */
  ghost predicate AfterLastDigit(t: string, end: nat) {
    0 < end <= |t| && t[end - 1] != ' ' && forall k :: end <= k < |t| ==> t[k] == ' '
  }

  /** strtol reads back every long that %ld prints, whatever the flags and the width. */
  lemma LongRoundTrip(v: int, width: int, left: bool, zero: bool)
    requires LONG_MIN <= v <= LONG_MAX
    ensures var t := NumberText(Magnitude(v), 10, false, width, left, zero, v < 0);
            && Clamp(SignedNumeral(t, 10), LONG_MIN, LONG_MAX) == SignedNumeral(t, 10) == v
            && AfterLastDigit(t, Consumed(t, 10))
  {
    hide NumberText, Numeral, SubjectOf, Digits;
    var t := NumberText(Magnitude(v), 10, false, width, left, zero, v < 0);
    var spaces, zeros := NumberIsLaid(Magnitude(v), 10, false, width, left, zero, v < 0);
    LaidParses(t, spaces, v < 0, zeros, Magnitude(v), 10, false);
    LaidEnd(t, spaces, v < 0, zeros, Digits(Magnitude(v), 10, false), 10, false);
  }

  lemma LaidEnd(t: string, spaces: nat, negative: bool, zeros: nat, digits: string, base: nat, upper: bool)
    requires Laid(t, spaces, negative, zeros, digits, base, upper)
    ensures AfterLastDigit(t, spaces + (if negative then 1 else 0) + zeros + |digits|)
  {
    var end := spaces + (if negative then 1 else 0) + zeros + |digits|;
    assert t[end - 1] == t[end - |digits|..end][|digits| - 1];
    DigitFacts(digits[|digits| - 1], base, upper);
  }

  /** strtoul reads back every unsigned long that %lx, %lX or %lu prints. */
  lemma UnsignedRoundTrip(v: nat, base: nat, upper: bool, width: int, left: bool, zero: bool)
    requires v <= ULONG_MAX && (base == 10 || base == 16)
    ensures var t := NumberText(v, base, upper, width, left, zero, false);
            && Numeral(t, base) <= ULONG_MAX && SignedNumeral(t, base) % 0x1_0000_0000 == v
            && AfterLastDigit(t, Consumed(t, base))
  {
    hide NumberText, Numeral, SubjectOf, Digits;
    var t := NumberText(v, base, upper, width, left, zero, false);
    var spaces, zeros := NumberIsLaid(v, base, upper, width, left, zero, false);
    LaidParses(t, spaces, false, zeros, v, base, upper);
    LaidEnd(t, spaces, false, zeros, Digits(v, base, upper), base, upper);
  }

  /** A format that is one conversion prints just that. */
  lemma OneConversion(f: string, args: seq<Argument>)
    requires |f| > 0 && f[0] == '%' && ReadDirective(f, 1).end == |f| && Takes(ReadDirective(f, 1), args)
    ensures WellTyped(f, 0, args) && Expansion(f, 0, args) == Rendered(ReadDirective(f, 1), args)
  {
    hide ReadDirective, Rendered, Takes;
    var d := ReadDirective(f, 1);
    TakesEnough(d, args);
    assert WellTyped(f, |f|, args[Consumes(d.conversion)..]);
    assert Rendered(d, args) + "" == Rendered(d, args);
  }

  lemma TakesEnough(d: Directive, args: seq<Argument>)
    requires Takes(d, args)
    ensures Consumes(d.conversion) <= |args|
  {
  }

  /** Any format with the one conversion %ld or %li, with any flags and width, followed by strtol. */
  lemma PrintedLongParses(f: string, v: int)
    requires SingleConversion(f, "di")
    requires LONG_MIN <= v <= LONG_MAX
    ensures var t := (WellTypedOne(f, Number(v)); Expansion(f, 0, [Number(v)]));
            SignedNumeral(t, 10) == v && AfterLastDigit(t, Consumed(t, 10))
  {
    hide ReadDirective, Expansion;
    var d := ReadDirective(f, 1);
    OneConversion(f, [Number(v)]);
    LongRoundTrip(v, d.width, d.left, d.zero);
  }

  lemma WellTypedOne(f: string, a: Argument)
    requires |f| > 0 && f[0] == '%' && ReadDirective(f, 1).end == |f| && Takes(ReadDirective(f, 1), [a])
    ensures WellTyped(f, 0, [a])
  {
    OneConversion(f, [a]);
  }

  /** Any format with the one conversion %lu, %lx or %lX, followed by strtoul. */
  lemma PrintedUnsignedParses(f: string, v: nat)
    requires SingleConversion(f, "uxX") && v <= ULONG_MAX
    ensures var t := (WellTypedOne(f, Number(v)); Expansion(f, 0, [Number(v)]));
            var base := if ReadDirective(f, 1).conversion == 'u' then 10 else 16;
            SignedNumeral(t, base) % 0x1_0000_0000 == v && Numeral(t, base) <= ULONG_MAX && AfterLastDigit(t, Consumed(t, base))
  {
    hide ReadDirective, Expansion;
    var d := ReadDirective(f, 1);
    OneConversion(f, [Number(v)]);
    UnsignedRoundTrip(v, if d.conversion == 'u' then 10 else 16, d.conversion == 'X', d.width, d.left, d.zero);
  }

  // ----- through a buffer -----

  /** The length of the string at the start of a buffer. */
  function TextLength(s: seq<char>): (n: nat)
    ensures n <= |s| && (n < |s| ==> s[n] == '\0') && forall k :: 0 <= k < n ==> s[k] != '\0'
  {
    if s == [] || s[0] == '\0' then 0 else 1 + TextLength(s[1..])
  }

  /** Nothing but spaces, a sign and digits: no NUL. */
  lemma LaidText(t: string, spaces: nat, negative: bool, zeros: nat, digits: string, base: nat, upper: bool)
    requires Laid(t, spaces, negative, zeros, digits, base, upper)
    ensures forall k :: 0 <= k < |t| ==> t[k] != '\0'
  {
    var first := spaces + if negative then 1 else 0;
    var end := first + zeros + |digits|;
    forall k | 0 <= k < |t| ensures t[k] != '\0' {
      if first + zeros <= k < end {
        var i := k - first - zeros;
        assert t[k] == t[first + zeros..end][i] == digits[i];
        DigitFacts(digits[i], base, upper);
      }
    }
  }

  lemma NumberHasNoNul(value: nat, base: nat, upper: bool, width: int, left: bool, zero: bool, negative: bool)
    requires 2 <= base <= 16
    ensures forall k :: 0 <= k < |NumberText(value, base, upper, width, left, zero, negative)| ==>
              NumberText(value, base, upper, width, left, zero, negative)[k] != '\0'
  {
    hide NumberText, Laid, Digits;
    var spaces, zeros := NumberIsLaid(value, base, upper, width, left, zero, negative);
    LaidText(NumberText(value, base, upper, width, left, zero, negative), spaces, negative, zeros, Digits(value, base, upper), base, upper);
  }

  /** A format with one conversion and nothing else. */
  predicate SingleConversion(f: string, conversions: string) {
    |f| > 0 && f[0] == '%' && ReadDirective(f, 1).end == |f| && ReadDirective(f, 1).conversion in conversions
  }

  /** The text that fits is the string at the start of the buffer. */
  lemma BufferText(buffer: seq<char>, text: string, size: nat)
    requires 0 < size <= |buffer| && |text| < size && Stores(buffer, text, size)
    requires forall k :: 0 <= k < |text| ==> text[k] != '\0'
    ensures TextLength(buffer) == |text| && buffer[..|text|] == text
  {
    forall k | 0 <= k < |text| ensures buffer[k] == text[k] {
      assert buffer[..|text|][k] == text[k];
    }
  }

  lemma SingleNumber(f: string, n: int)
    requires SingleConversion(f, "diuxX") && Takes(ReadDirective(f, 1), [Number(n)])
    ensures WellTyped(f, 0, [Number(n)])
    ensures forall k :: 0 <= k < |Expansion(f, 0, [Number(n)])| ==> Expansion(f, 0, [Number(n)])[k] != '\0'
  {
    hide ReadDirective, Expansion, NumberText;
    var d := ReadDirective(f, 1);
    OneConversion(f, [Number(n)]);
    NumberHasNoNul(Magnitude(n), if d.conversion in "xX" then 16 else 10, d.conversion == 'X', d.width, d.left, d.zero, n < 0);
  }

  /** A long through a buffer: when the text fits, strtol on the buffer returns what was printed,
  without an error, and stops after the last digit. */
  method LongThroughBuffer(buffer: array<char>, size: nat, f: string, v: int, errno0: int)
    returns (n: int, r: int, end: nat, errno: int)
    requires size <= buffer.Length && SingleConversion(f, "di") && LONG_MIN <= v <= LONG_MAX
    modifies buffer
    ensures WellTyped(f, 0, [Number(v)]) && n == |Expansion(f, 0, [Number(v)])|
    ensures n < size ==> r == v && errno == errno0 && TextLength(buffer[..]) == n && AfterLastDigit(buffer[..n], end)
  {
    hide ReadDirective, Expansion, Stores, WellTyped, Numeral, SubjectOf, AfterLastDigit;
    SingleNumber(f, v);
    n := Vsnprintf(buffer, size, f, [Number(v)]);
    r, end, errno := 0, 0, errno0;
    if n < size {
      PrintedLongParses(f, v);
      BufferText(buffer[..], Expansion(f, 0, [Number(v)]), size);
      r, end, errno := Strtol(buffer[..TextLength(buffer[..])], 10, errno0);
    }
  }

  /** An unsigned long through a buffer. */
  method UnsignedThroughBuffer(buffer: array<char>, size: nat, f: string, v: nat, errno0: int)
    returns (n: int, r: int, end: nat, errno: int)
    requires size <= buffer.Length && SingleConversion(f, "uxX") && v <= ULONG_MAX
    modifies buffer
    ensures WellTyped(f, 0, [Number(v)]) && n == |Expansion(f, 0, [Number(v)])|
    ensures n < size ==> r == v && errno == errno0 && TextLength(buffer[..]) == n && AfterLastDigit(buffer[..n], end)
  {
    hide ReadDirective, Expansion, Stores, WellTyped, Numeral, SubjectOf, SignedNumeral, AfterLastDigit;
    SingleNumber(f, v);
    n := Vsnprintf(buffer, size, f, [Number(v)]);
    r, end, errno := 0, 0, errno0;
    if n < size {
      PrintedUnsignedParses(f, v);
      BufferText(buffer[..], Expansion(f, 0, [Number(v)]), size);
      var base := if ReadDirective(f, 1).conversion == 'u' then 10 else 16;
      r, end, errno := Strtoul(buffer[..TextLength(buffer[..])], base, errno0);
    }
  }
}
