/** The formatter behind printf, with the bounded sink of vsnprintf (printf.c). */
module Printf {
  import opened CStrings
  import Bits
  import Rounding

  // ----- what a number looks like -----

  /** The numeral of a value, most significant digit first. */
  function Digits(value: nat, base: nat, upper: bool): (s: string)
    requires 2 <= base <= 16
    ensures |s| >= 1
  {
    if value < base then [DigitChar(value, upper)]
    else
      Bits.DivModBasic(value, base);
      Smaller(value, base);
      Digits(value / base, base, upper) + [DigitChar(value % base, upper)]
  }

  lemma Smaller(value: nat, base: nat)
    requires 2 <= base <= value
    ensures 0 < value / base < value
  {
    Bits.DivModBasic(value, base);
    var q := value / base;
    if q <= 0 { Rounding.NotPositive(base, q); }
    Rounding.ProductLe(2, base, q);
  }

  function Repeat(c: char, n: nat): (s: string)
    ensures |s| == n && forall i :: 0 <= i < n ==> s[i] == c
  {
    seq(n, i => c)
  }

  function Padding(width: int, length: nat): nat {
    if width < length then 0 else width - length
  }

  function SignText(negative: bool): string {
    if negative then "-" else ""
  }

  /** What comes before the digits: the sign, with the padding before it or, as zeros, after it. */
  function Lead(padding: nat, left: bool, zero: bool, negative: bool): string {
    if left then SignText(negative)
    else if zero then SignText(negative) + Repeat('0', padding)
    else Repeat(' ', padding) + SignText(negative)
  }

  /** Padded on the right with spaces, or on the left with spaces or with zeros after the sign. */
  function NumberText(value: nat, base: nat, upper: bool, width: int, left: bool, zero: bool, negative: bool): string
    requires 2 <= base <= 16
  {
    var digits := Digits(value, base, upper);
    var padding := Padding(width, |SignText(negative)| + |digits|);
    Lead(padding, left, zero, negative) + digits + Repeat(' ', if left then padding else 0)
  }

  /** A value below base^n has at most n digits. */
  lemma {:induction false} DigitCount(value: nat, base: nat, upper: bool, n: nat)
    requires 2 <= base <= 16 && n >= 1 && value < Power(base, n)
    ensures |Digits(value, base, upper)| <= n
  {
    assert Power(base, 1) == base * Power(base, 0);
    if value >= base && n > 1 {
      Smaller(value, base);
      Bits.DivModBasic(value, base);
      Quotient(value, base, Power(base, n - 1));
      DigitCount(value / base, base, upper, n - 1);
    }
  }

  function Power(base: nat, n: nat): (p: nat)
    ensures base > 0 ==> p > 0
  {
    if n == 0 then 1 else
      Rounding.Nonnegative(base, Power(base, n - 1));
      if base > 0 then
        Bits.MulAtLeast(base, Power(base, n - 1));
        base * Power(base, n - 1)
      else 0
  }

  lemma Quotient(value: nat, base: nat, p: nat)
    requires base > 0 && value < base * p
    ensures value / base < p
  {
    Bits.DivModBasic(value, base);
    if value / base >= p { Rounding.ProductLe(p, value / base, base); }
  }

  /** Ten characters hold every 32-bit number in base 10 and base 16. */
  lemma TenDigits(value: nat, base: nat, upper: bool)
    requires value < 0x1_0000_0000 && (base == 10 || base == 16)
    ensures |Digits(value, base, upper)| <= 10
  {
    PowersOfTen();
    PowersOfSixteen();
    if base == 10 { DigitCount(value, 10, upper, 10); } else { DigitCount(value, 16, upper, 8); }
  }

  lemma PowersOfTen()
    ensures Power(10, 10) == 10_000_000_000
  {
    assert Power(10, 3) == 1000;
    assert Power(10, 6) == 1_000_000;
    assert Power(10, 9) == 1_000_000_000;
  }

  lemma PowersOfSixteen()
    ensures Power(16, 8) == 0x1_0000_0000
  {
    assert Power(16, 3) == 0x1000;
    assert Power(16, 6) == 0x100_0000;
  }

  // ----- the bounded sink -----

  class BoundedSink {
    const buffer: array<char>
    const size: nat
    var stored: nat
    /** Every character put so far, stored or not. */
    ghost var output: string
    /** The buffer as it was. */
    ghost const initial: seq<char>

    ghost predicate Valid()
      reads this, buffer
    {
      && size <= buffer.Length
      && stored == (if size == 0 then 0 else Bits.Min(|output|, size - 1))
      && |initial| == buffer.Length
      && (forall i :: 0 <= i < stored ==> buffer[i] == output[i])
      && (forall i :: stored <= i < buffer.Length ==> buffer[i] == initial[i])
    }

    constructor (buffer: array<char>, size: nat)
      requires size <= buffer.Length
      ensures Valid() && output == "" && this.buffer == buffer && this.size == size && initial == buffer[..]
    {
      this.buffer, this.size, stored, output, initial := buffer, size, 0, "", buffer[..];
    }

    /** bounded_put */
    method Put(c: char)
      requires Valid()
      modifies this`stored, this`output, buffer
      ensures Valid() && output == old(output) + [c]
    {
      if size != 0 && stored + 1 < size {
        buffer[stored] := c;
        stored := stored + 1;
      }
      output := output + [c];
    }

    /** put_character */
    method PutCharacter(c: char, count: int) returns (count': int)
      requires Valid()
      modifies this`stored, this`output, buffer
      ensures Valid() && output == old(output) + [c] && count' == count + 1
    {
      Put(c);
      count' := count + 1;
    }

    method PutRepeat(c: char, count: nat, written: int) returns (written': int)
      requires Valid()
      modifies this`stored, this`output, buffer
      ensures Valid() && output == old(output) + Repeat(c, count) && written' == written + count
    {
      written' := written;
      var left := count;
      assert output == old(output) + Repeat(c, 0);
      while left > 0
        invariant 0 <= left <= count && Valid() && written' == written + (count - left)
        invariant output == old(output) + Repeat(c, count - left)
      {
        written' := PutCharacter(c, written');
        left := left - 1;
        assert Repeat(c, count - left) == Repeat(c, count - left - 1) + [c];
      }
    }

    method PutNumber(number: nat, base: nat, upper: bool, width: int, left: bool, zero: bool, negative: bool, written: int)
      returns (written': int)
      requires Valid() && number < 0x1_0000_0000 && (base == 10 || base == 16)
      modifies this`stored, this`output, buffer
      ensures Valid() && written' - written == |output| - |old(output)|
      ensures output == old(output) + NumberText(number, base, upper, width, left, zero, negative)
    {
      hide *;
      var digits := new char[10];
      ghost var all, start := Digits(number, base, upper), output;
      var count := FillDigits(digits, number, base, upper);
      var padding: int := width - count - if negative then 1 else 0;
      if padding < 0 {
        padding := 0;
      }
      NumberTextIs(number, base, upper, width, left, zero, negative, padding);
      written' := PutLead(padding, left, zero, negative, written);
      written' := PutDigits(digits, count, all, written');
      ghost var lead := Lead(padding, left, zero, negative);
      assert output == start + (lead + all);
      if left {
        written' := PutRepeat(' ', padding, written');
        assert output == start + (lead + all + Repeat(' ', padding));
      } else {
        assert lead + all == lead + all + Repeat(' ', 0);
      }
    }

    /** The sign and the padding before the digits. */
    method PutLead(padding: nat, left: bool, zero: bool, negative: bool, written: int) returns (written': int)
      requires Valid()
      modifies this`stored, this`output, buffer
      ensures Valid() && output == old(output) + Lead(padding, left, zero, negative)
      ensures written' == written + |Lead(padding, left, zero, negative)|
    {
      hide Valid;
      ghost var start := output;
      written' := written;
      if !left && !zero {
        written' := PutRepeat(' ', padding, written');
      }
      if negative {
        written' := PutCharacter('-', written');
      }
      if !left && zero {
        written' := PutRepeat('0', padding, written');
      }
      assert output == start + Lead(padding, left, zero, negative);
    }

    /** A string, or one character, padded to the width. */
    method PutPadded(text: string, width: nat, left: bool, written: int) returns (written': int)
      requires Valid()
      modifies this`stored, this`output, buffer
      ensures Valid() && output == old(output) + Padded(text, width, left) && written' == written + |Padded(text, width, left)|
    {
      hide Valid;
      ghost var start := output;
      var padding: int := width - |text|;
      if padding < 0 {
        padding := 0;
      }
      written' := written;
      if !left {
        written' := PutRepeat(' ', padding, written');
      }
      ghost var middle := output;
      for i := 0 to |text|
        invariant Valid() && output == middle + text[..i] && written' == written + |middle| - |start| + i
      {
        written' := PutCharacter(text[i], written');
        assert text[..i + 1] == text[..i] + [text[i]];
      }
      assert text[..|text|] == text;
      if left {
        written' := PutRepeat(' ', padding, written');
      }
      assert output == start + Padded(text, width, left);
    }

    /** One conversion. */
    method PutConversion(d: Directive, args: seq<Argument>, written: int) returns (written': int)
      requires Valid() && Takes(d, args)
      modifies this`stored, this`output, buffer
      ensures Valid() && output == old(output) + Rendered(d, args) && written' == written + |Rendered(d, args)|
    {
      hide Valid, NumberText, Padded;
      if d.conversion == '%' {
        written' := PutPadded("%", d.width, d.left, written);
      } else if d.conversion == 'c' {
        written' := PutPadded([(args[0].n % 256) as char], d.width, d.left, written);
      } else if d.conversion == 's' {
        written' := PutPadded(if args[0].Null? then "(null)" else args[0].s, d.width, d.left, written);
      } else if d.conversion == 'd' || d.conversion == 'i' {
        var negative := args[0].n < 0;
        var value := if negative then 0 - args[0].n else args[0].n;
        written' := PutNumber(value, 10, false, d.width, d.left, d.zero, negative, written);
      } else if d.conversion == 'u' || d.conversion == 'x' || d.conversion == 'X' {
        var base := if d.conversion == 'u' then 10 else 16;
        written' := PutNumber(args[0].n, base, d.conversion == 'X', d.width, d.left, d.zero, false, written);
      } else if d.conversion == 'p' {
        var width, zero := d.width, d.zero;
        if width == 0 {
          width, zero := 4, true;
        }
        written' := PutNumber(args[0].n, 16, false, width, d.left, zero, false, written);
      } else {
        written' := PutCharacter('%', written);
        if d.conversion != '\0' {
          written' := PutCharacter(d.conversion, written');
        }
      }
    }

    /** vformat */
    method VFormat(format: string, arguments: seq<Argument>) returns (written: int)
      requires Valid() && WellTyped(format, 0, arguments)
      modifies this`stored, this`output, buffer
      ensures Valid() && output == old(output) + Expansion(format, 0, arguments) && written == |Expansion(format, 0, arguments)|
    {
      hide *;
      ghost var start, all := output, Expansion(format, 0, arguments);
      written := 0;
      var i, args := 0, arguments;
      assert output == start + [];
      ghost var done := "";
      NothingExpanded(all);
      while At(format, i) != '\0'
        invariant i <= |format| && Valid() && WellTyped(format, i, args)
        invariant output == start + done && written == |done| && all == done + Expansion(format, i, args)
        decreases |format| - i
      {
        ExpandStep(format, i, args);
        ghost var rest := Expansion(format, i, args);
        if format[i] != '%' {
          written := PutCharacter(format[i], written);
          AppendPiece(all, done, rest, [format[i]], Expansion(format, i + 1, args), start, output);
          done := done + [format[i]];
          i := i + 1;
        } else {
          var d := Scan(format, i + 1);
          written := PutConversion(d, args, written);
          AppendPiece(all, done, rest, Rendered(d, args), Expansion(format, d.end, args[Consumes(d.conversion)..]), start, output);
          done := done + Rendered(d, args);
          i, args := d.end, args[Consumes(d.conversion)..];
        }
      }
      ExpandEnd(format, i, args);
      assert done + "" == done;
    }

    method PutDigits(digits: array<char>, count0: nat, ghost all: string, written: int) returns (written': int)
      requires Valid() && digits != buffer && count0 <= digits.Length && count0 == |all|
      requires forall i :: 0 <= i < count0 ==> digits[i] == all[count0 - 1 - i]
      modifies this`stored, this`output, buffer
      ensures Valid() && output == old(output) + all && written' == written + |all|
    {
      written' := written;
      var count := count0;
      while count > 0
        invariant 0 <= count <= count0 && Valid() && written' == written + (count0 - count)
        invariant output == old(output) + all[..count0 - count]
        invariant forall i :: 0 <= i < count0 ==> digits[i] == all[count0 - 1 - i]
      {
        count := count - 1;
        written' := PutCharacter(digits[count], written');
        assert all[..count0 - count] == all[..count0 - count - 1] + [all[count0 - count - 1]];
      }
    }
  }

  lemma NumberTextIs(value: nat, base: nat, upper: bool, width: int, left: bool, zero: bool, negative: bool, padding: nat)
    requires 2 <= base <= 16
    requires padding == var p := width - |Digits(value, base, upper)| - (if negative then 1 else 0); if p < 0 then 0 else p
    ensures NumberText(value, base, upper, width, left, zero, negative)
         == Lead(padding, left, zero, negative) + Digits(value, base, upper) + Repeat(' ', if left then padding else 0)
  {
    hide Digits, Lead;
  }

  /** The digit that the loop stores, and what is left to do. */
  lemma LastDigit(value: nat, base: nat, upper: bool, all: string, count: nat)
    requires base == 10 || base == 16
    requires count < |all| && |Digits(value, base, upper)| == |all| - count && all[..|all| - count] == Digits(value, base, upper)
    ensures 0 <= value % base < base && all[|all| - 1 - count] == DigitChar(value % base, upper)
    ensures value / base == 0 ==> count + 1 == |all|
    ensures value / base > 0 ==>
              && value / base < value && count + 1 < |all|
              && |Digits(value / base, base, upper)| == |all| - count - 1
              && all[..|all| - count - 1] == Digits(value / base, base, upper)
    ensures value / base >= 0
  {
    hide DigitChar;
    var rest := Digits(value, base, upper);
    assert all[|all| - 1 - count] == rest[|rest| - 1];
    Bits.DivModBasic(value, base);
    if value < base {
      Bits.DivModUnique(value, base, 0, value);
    } else {
      Smaller(value, base);
      assert all[..|all| - count - 1] == rest[..|rest| - 1] == Digits(value / base, base, upper);
    }
  }

  /** The digit loop of put_number: digits in reverse order. */
  method FillDigits(digits: array<char>, number: nat, base: nat, upper: bool) returns (count: nat)
    requires number < 0x1_0000_0000 && (base == 10 || base == 16) && digits.Length == 10
    modifies digits
    ensures count == |Digits(number, base, upper)| <= 10
    ensures forall i :: 0 <= i < count ==> digits[i] == Digits(number, base, upper)[count - 1 - i]
  {
    hide Digits;
    ghost var all := Digits(number, base, upper);
    TenDigits(number, base, upper);
    var value := number;
    count := 0;
    while true
      invariant 0 <= value && |Digits(value, base, upper)| == |all| - count && count < |all|
      invariant all[..|all| - count] == Digits(value, base, upper)
      invariant forall i :: 0 <= i < count ==> digits[i] == all[|all| - 1 - i]
      decreases value
    {
      LastDigit(value, base, upper, all, count);
      var digit := value % base;
      digits[count] := if digit < 10 then '0' + digit as char else (if upper then 'A' else 'a') + (digit - 10) as char;
      count := count + 1;
      value := value / base;
      if value == 0 {
        break;
      }
    }
  }

  // ----- format strings -----

  datatype Argument = Number(n: int) | Text(s: string) | Null

  /** A conversion specification, and the index after it. */
  datatype Directive = Directive(left: bool, zero: bool, width: nat, isLong: bool, conversion: char, end: nat)

  function FlagsEnd(f: string, i: nat): (j: nat)
    ensures i <= j && (i <= |f| ==> j <= |f|)
    decreases |f| - i
  {
    if At(f, i) == '-' || At(f, i) == '0' then FlagsEnd(f, i + 1) else i
  }

  predicate HasFlag(f: string, i: nat, j: nat, c: char) {
    exists k :: i <= k < j && At(f, k) == c
  }

  function WidthEnd(f: string, i: nat): (j: nat)
    ensures i <= j && (i <= |f| ==> j <= |f|)
    decreases |f| - i
  {
    if '0' <= At(f, i) <= '9' then WidthEnd(f, i + 1) else i
  }

  predicate IsWidth(f: string, i: nat, j: nat) {
    forall k :: i <= k < j ==> '0' <= At(f, k) <= '9'
  }

  function WidthValue(f: string, i: nat, j: nat): nat
    requires i <= j && IsWidth(f, i, j)
    decreases j - i
  {
    if i == j then 0
    else
      assert '0' <= At(f, j - 1) <= '9';
      WidthValue(f, i, j - 1) * 10 + (At(f, j - 1) as int - '0' as int)
  }

  lemma {:induction false} WidthDigits(f: string, i: nat)
    ensures IsWidth(f, i, WidthEnd(f, i))
    decreases |f| - i
  {
    if '0' <= At(f, i) <= '9' { WidthDigits(f, i + 1); }
  }

  /** The specification after a % at index i - 1. */
  function ReadDirective(f: string, i: nat): (d: Directive)
    requires i <= |f|
    ensures i <= d.end <= |f|
  {
    var j := FlagsEnd(f, i);
    var k := WidthEnd(f, j);
    WidthDigits(f, j);
    var m := if At(f, k) == 'l' then k + 1 else k;
    var left := HasFlag(f, i, j, '-');
    Directive(left, HasFlag(f, i, j, '0') && !left, WidthValue(f, j, k), At(f, k) == 'l', At(f, m), if At(f, m) != '\0' then m + 1 else m)
  }

  /** The arguments that follow are what the specification asks for. */
  predicate Takes(d: Directive, args: seq<Argument>) {
    match d.conversion
    case 'c' => |args| > 0 && args[0].Number?
    case 's' => |args| > 0 && !args[0].Number?
    case 'd' => |args| > 0 && args[0].Number? && -0x8000_0000 <= args[0].n < 0x8000_0000
    case 'i' => |args| > 0 && args[0].Number? && -0x8000_0000 <= args[0].n < 0x8000_0000
    case 'u' => |args| > 0 && args[0].Number? && 0 <= args[0].n < 0x1_0000_0000
    case 'x' => |args| > 0 && args[0].Number? && 0 <= args[0].n < 0x1_0000_0000
    case 'X' => |args| > 0 && args[0].Number? && 0 <= args[0].n < 0x1_0000_0000
    case 'p' => |args| > 0 && args[0].Number? && 0 <= args[0].n < 0x1_0000_0000
    case _ => true
  }

  function Consumes(conversion: char): nat {
    if conversion in "csdiuxXp" then 1 else 0
  }

  function Padded(s: string, width: nat, left: bool): string {
    if left then s + Repeat(' ', Padding(width, |s|)) else Repeat(' ', Padding(width, |s|)) + s
  }

  function Magnitude(n: int): nat { if n < 0 then -n else n }

  /** What the specification prints. */
  function Rendered(d: Directive, args: seq<Argument>): string
    requires Takes(d, args)
  {
    match d.conversion
    case '%' => Padded("%", d.width, d.left)
    case 'c' => Padded([(args[0].n % 256) as char], d.width, d.left)
    case 's' => Padded(if args[0].Null? then "(null)" else args[0].s, d.width, d.left)
    case 'd' => NumberText(Magnitude(args[0].n), 10, false, d.width, d.left, d.zero, args[0].n < 0)
    case 'i' => NumberText(Magnitude(args[0].n), 10, false, d.width, d.left, d.zero, args[0].n < 0)
    case 'u' => NumberText(args[0].n, 10, false, d.width, d.left, d.zero, false)
    case 'x' => NumberText(args[0].n, 16, false, d.width, d.left, d.zero, false)
    case 'X' => NumberText(args[0].n, 16, true, d.width, d.left, d.zero, false)
    case 'p' => NumberText(args[0].n, 16, false, if d.width == 0 then 4 else d.width, d.left, d.zero || d.width == 0, false)
    case '\0' => "%"
    case other => "%" + [other]
  }

  /** The arguments fit the format from index i on. */
  predicate WellTyped(f: string, i: nat, args: seq<Argument>)
    requires i <= |f|
    decreases |f| - i
  {
    At(f, i) == '\0'
    || (f[i] != '%' && WellTyped(f, i + 1, args))
    || (f[i] == '%' && var d := ReadDirective(f, i + 1);
                       Takes(d, args) && WellTyped(f, d.end, args[Consumes(d.conversion)..]))
  }

  function Expansion(f: string, i: nat, args: seq<Argument>): string
    requires i <= |f| && WellTyped(f, i, args)
    decreases |f| - i
  {
    if At(f, i) == '\0' then ""
    else if f[i] != '%' then [f[i]] + Expansion(f, i + 1, args)
    else
      var d := ReadDirective(f, i + 1);
      Rendered(d, args) + Expansion(f, d.end, args[Consumes(d.conversion)..])
  }

  lemma NothingExpanded(all: string)
    ensures "" + all == all
  {
  }

  lemma ExpandEnd(f: string, i: nat, args: seq<Argument>)
    requires i <= |f| && WellTyped(f, i, args) && At(f, i) == '\0'
    ensures Expansion(f, i, args) == ""
  {
  }

  lemma ExpandStep(f: string, i: nat, args: seq<Argument>)
    requires i <= |f| && WellTyped(f, i, args) && At(f, i) != '\0'
    ensures i < |f|
    ensures f[i] != '%' ==> WellTyped(f, i + 1, args) && Expansion(f, i, args) == [f[i]] + Expansion(f, i + 1, args)
    ensures f[i] == '%' ==>
              var d := ReadDirective(f, i + 1);
              && Takes(d, args) && Consumes(d.conversion) <= |args| && i < d.end && WellTyped(f, d.end, args[Consumes(d.conversion)..])
              && Expansion(f, i, args) == Rendered(d, args) + Expansion(f, d.end, args[Consumes(d.conversion)..])
  {
    hide ReadDirective, Rendered;
  }

  lemma AppendPiece(all: string, done: string, rest: string, piece: string, rest': string, start: string, output: string)
    requires all == done + rest && rest == piece + rest' && output == (start + done) + piece
    ensures all == (done + piece) + rest' && output == start + (done + piece)
  {
  }

  /** Reads a conversion specification: the flag, width and l loops of vformat. */
  method Scan(f: string, i0: nat) returns (d: Directive)
    requires i0 <= |f|
    ensures d == ReadDirective(f, i0)
  {
    var left, zero, width, isLong := false, false, 0, false;
    var i := i0;
    while At(f, i) == '-' || At(f, i) == '0'
      invariant i0 <= i <= |f| && FlagsEnd(f, i) == FlagsEnd(f, i0)
      invariant left <==> HasFlag(f, i0, i, '-')
      invariant zero <==> HasFlag(f, i0, i, '0')
      decreases |f| - i
    {
      OneMoreFlag(f, i0, i);
      if At(f, i) == '-' {
        left := true;
      } else {
        zero := true;
      }
      i := i + 1;
    }
    ghost var j := i;
    WidthDigits(f, j);
    while '0' <= At(f, i) <= '9'
      invariant j <= i <= |f| && WidthEnd(f, i) == WidthEnd(f, j)
      invariant IsWidth(f, j, i) && width == WidthValue(f, j, i)
      decreases |f| - i
    {
      width := width * 10 + (At(f, i) as int - '0' as int);
      i := i + 1;
    }
    if At(f, i) == 'l' {
      isLong := true;
      i := i + 1;
    }
    var conversion := At(f, i);
    if conversion != '\0' {
      i := i + 1;
    }
    if left {
      zero := false;
    }
    d := Directive(left, zero, width, isLong, conversion, i);
  }

  lemma OneMoreFlag(f: string, i: nat, j: nat)
    requires i <= j
    ensures forall c :: HasFlag(f, i, j + 1, c) <==> HasFlag(f, i, j, c) || At(f, j) == c
  {
    forall c ensures HasFlag(f, i, j + 1, c) <==> HasFlag(f, i, j, c) || At(f, j) == c {
      if HasFlag(f, i, j, c) {
        var k :| i <= k < j && At(f, k) == c;
        assert i <= k < j + 1 && At(f, k) == c;
      }
      if At(f, j) == c { assert i <= j < j + 1 && At(f, j) == c; }
    }
  }

  /** vsnprintf: the length of the whole text, and as much of it as fits, with a NUL; nothing after the NUL
  is written. */
  method Vsnprintf(buffer: array<char>, size: nat, format: string, arguments: seq<Argument>) returns (r: int)
    requires size <= buffer.Length && WellTyped(format, 0, arguments)
    modifies buffer
    ensures r == |Expansion(format, 0, arguments)|
    ensures size > 0 ==> Stores(buffer[..], Expansion(format, 0, arguments), size)
    ensures forall i :: (if size == 0 then 0 else Bits.Min(r, size - 1) + 1) <= i < buffer.Length ==> buffer[i] == old(buffer[i])
  {
    var sink := new BoundedSink(buffer, size);
    r := sink.VFormat(format, arguments);
    assert sink.output == Expansion(format, 0, arguments);
    if size != 0 {
      buffer[sink.stored] := '\0';
    }
  }

  /** The longest prefix that leaves room for the NUL, and the NUL. */
  ghost predicate Stores(buffer: seq<char>, text: string, size: nat)
    requires 0 < size <= |buffer|
  {
    var n := Bits.Min(|text|, size - 1);
    buffer[..n] == text[..n] && buffer[n] == '\0'
  }
}
