/** What printf prints, said of the characters of the format and of the output: how a format is cut into
pieces, and on which side and with what each conversion is padded (section 7.21.6.1 of C11). */
module PrintLaws {
  import opened CStrings
  import opened Convert
  import opened Printf
  import opened PrintParse
  import ParseLaws

  /** A conversion specification as it is written. */
  datatype Spec = Spec(flags: string, width: string, isLong: bool, conversion: char) {
    function Text(): string {
      "%" + flags + width + (if isLong then "l" else "") + [conversion]
    }

    /** The parts are what they are called: nothing of one can be taken for another. */
    predicate Valid() {
      && (forall k :: 0 <= k < |flags| ==> flags[k] in "-0")
      && (forall k :: 0 <= k < |width| ==> '0' <= width[k] <= '9') && (width == "" || width[0] != '0')
      && conversion != '\0' && (isLong || (conversion !in "-l" && !('0' <= conversion <= '9')))
    }

    predicate Left() { '-' in flags }

    predicate Zero() { '0' in flags && '-' !in flags }

    /** The decimal number that the width is. */
    function Width(): nat
      requires Valid()
    {
      DecimalDigits(width);
      Value(width, 0, |width|, 10)
    }

    predicate TakesOne() { conversion in "csdiuxXp" }
  }

  lemma DecimalDigits(s: string)
    ensures forall k :: 0 <= k < |s| && '0' <= s[k] <= '9' ==> IsDigit(s[k], 10)
  {
  }

  // ----- indices into longer formats -----

  lemma {:induction false} FlagsShift(a: string, b: string, i: nat)
    ensures FlagsEnd(a + b, |a| + i) == |a| + FlagsEnd(b, i) && WidthEnd(a + b, |a| + i) == |a| + WidthEnd(b, i)
    decreases |b| - i
  {
    assert At(a + b, |a| + i) == At(b, i);
    if i < |b| { FlagsShift(a, b, i + 1); }
  }

  lemma FlagShift(a: string, b: string, i: nat, j: nat, c: char)
    ensures HasFlag(a + b, |a| + i, |a| + j, c) <==> HasFlag(b, i, j, c)
  {
    if HasFlag(b, i, j, c) {
      var k :| i <= k < j && At(b, k) == c;
      assert At(a + b, |a| + k) == c;
    }
    if HasFlag(a + b, |a| + i, |a| + j, c) {
      var k :| |a| + i <= k < |a| + j && At(a + b, k) == c;
      assert At(b, k - |a|) == c;
    }
  }

  lemma {:induction false} WidthShift(a: string, b: string, i: nat, j: nat)
    requires i <= j && IsWidth(b, i, j)
    ensures IsWidth(a + b, |a| + i, |a| + j) && WidthValue(a + b, |a| + i, |a| + j) == WidthValue(b, i, j)
    decreases j
  {
    forall k | |a| + i <= k < |a| + j ensures '0' <= At(a + b, k) <= '9' { assert At(b, k - |a|) == At(a + b, k); }
    if i < j {
      WidthShift(a, b, i, j - 1);
      assert At(b, j - 1) == At(a + b, |a| + j - 1);
    }
  }

  lemma DirectiveShift(a: string, b: string, i: nat)
    requires i <= |b|
    ensures var d := ReadDirective(b, i); ReadDirective(a + b, |a| + i) == d.(end := |a| + d.end)
  {
    hide FlagsEnd, WidthEnd, HasFlag, WidthValue, IsWidth;
    var j := FlagsEnd(b, i);
    var k := WidthEnd(b, j);
    FlagsShift(a, b, i);
    FlagsShift(a, b, j);
    FlagShift(a, b, i, j, '-');
    FlagShift(a, b, i, j, '0');
    WidthDigits(b, j);
    WidthShift(a, b, j, k);
    assert At(a + b, |a| + k) == At(b, k) && At(a + b, |a| + k + 1) == At(b, k + 1);
  }

  /** What follows index |a| is printed as it is alone. */
  lemma {:induction false} ExpansionShift(a: string, b: string, i: nat, args: seq<Argument>)
    requires i <= |b|
    ensures WellTyped(a + b, |a| + i, args) <==> WellTyped(b, i, args)
    ensures WellTyped(b, i, args) ==> Expansion(a + b, |a| + i, args) == Expansion(b, i, args)
    decreases |b| - i
  {
    hide ReadDirective, Rendered, Takes;
    assert At(a + b, |a| + i) == At(b, i);
    if At(b, i) != '\0' {
      if b[i] != '%' {
        ExpansionShift(a, b, i + 1, args);
      } else {
        DirectiveShift(a, b, i + 1);
        var d := ReadDirective(b, i + 1);
        EndIgnored(d, |a| + d.end, args);
        if Takes(d, args) {
          TakesEnough(d, args);
          ExpansionShift(a, b, d.end, args[Consumes(d.conversion)..]);
        }
      }
    }
  }

  lemma EndIgnored(d: Directive, end: nat, args: seq<Argument>)
    ensures Takes(d.(end := end), args) <==> Takes(d, args)
    ensures Takes(d, args) ==> Rendered(d.(end := end), args) == Rendered(d, args)
  {
    hide NumberText, Padded;
  }

  // ----- reading a specification -----

  lemma {:induction false} FlagsEndAt(f: string, i: nat, j: nat)
    requires i <= j && At(f, j) !in "-0" && forall k :: i <= k < j ==> At(f, k) in "-0"
    ensures FlagsEnd(f, i) == j
    decreases j - i
  {
    if i < j { FlagsEndAt(f, i + 1, j); }
  }

  lemma {:induction false} WidthEndAt(f: string, i: nat, j: nat)
    requires i <= j && !('0' <= At(f, j) <= '9') && forall k :: i <= k < j ==> '0' <= At(f, k) <= '9'
    ensures WidthEnd(f, i) == j
    decreases j - i
  {
    if i < j { WidthEndAt(f, i + 1, j); }
  }

  lemma {:induction false} WidthIsDecimal(f: string, i: nat, j: nat)
    requires i <= j <= |f| && IsWidth(f, i, j)
    ensures forall k :: i <= k < j ==> IsDigit(f[k], 10)
    ensures WidthValue(f, i, j) == Value(f, i, j, 10)
    decreases j - i
  {
    forall k | i <= k < j ensures IsDigit(f[k], 10) { assert '0' <= At(f, k) <= '9'; }
    if i < j {
      WidthIsDecimal(f, i, j - 1);
      assert '0' <= At(f, j - 1) <= '9';
    }
  }

  /** A specification is read as it is written, wherever it ends and whatever follows. */
  lemma SpecRead(spec: Spec, rest: string)
    requires spec.Valid()
    ensures var f := spec.Text() + rest;
            ReadDirective(f, 1) == Directive(spec.Left(), spec.Zero(), spec.Width(), spec.isLong, spec.conversion, |spec.Text()|)
  {
    hide FlagsEnd, WidthEnd, HasFlag, WidthValue, IsWidth, Value, IsDigit;
    var f := spec.Text() + rest;
    var j, k := 1 + |spec.flags|, 1 + |spec.flags| + |spec.width|;
    forall i | 1 <= i < j ensures At(f, i) == spec.flags[i - 1] {
    }
    forall i | j <= i < k ensures At(f, i) == spec.width[i - j] {
    }
    assert At(f, k) == if spec.isLong then 'l' else spec.conversion;
    assert spec.isLong ==> At(f, k + 1) == spec.conversion;
    assert At(f, j) == if spec.width != "" then spec.width[0] else At(f, k);
    FlagsEndAt(f, 1, j);
    WidthEndAt(f, j, k);
    FlagsWritten(f, spec.flags, '-');
    FlagsWritten(f, spec.flags, '0');
    WidthWritten(f, j, spec.width);
    WidthDigits(f, j);
  }

  lemma FlagsWritten(f: string, flags: string, c: char)
    requires forall i :: 1 <= i < 1 + |flags| ==> At(f, i) == flags[i - 1]
    ensures HasFlag(f, 1, 1 + |flags|, c) <==> c in flags
  {
    if c in flags {
      var k :| 0 <= k < |flags| && flags[k] == c;
      assert At(f, k + 1) == c;
    }
  }

  lemma WidthWritten(f: string, j: nat, width: string)
    requires j + |width| <= |f| && f[j..j + |width|] == width && forall k :: 0 <= k < |width| ==> '0' <= width[k] <= '9'
    ensures IsWidth(f, j, j + |width|) && (forall k :: 0 <= k < |width| ==> IsDigit(width[k], 10))
    ensures WidthValue(f, j, j + |width|) == Value(width, 0, |width|, 10)
  {
    hide IsDigit;
    forall k | j <= k < j + |width| ensures '0' <= At(f, k) <= '9' { assert f[j..j + |width|][k - j] == width[k - j]; }
    DecimalDigits(width);
    WidthIsDecimal(f, j, j + |width|);
    ParseLaws.ValueSame(f, j, width, 10);
  }

  // ----- cutting a format into pieces -----

  /** The arguments that a specification takes. */
  function Taken(spec: Spec, args: seq<Argument>): seq<Argument> {
    if spec.TakesOne() && |args| > 0 then args[..1] else []
  }

  /** A format that starts with a specification prints what the specification alone prints of its argument, and then
  the rest of the format with the arguments that are left. */
  lemma SpecFirst(spec: Spec, rest: string, args: seq<Argument>)
    requires spec.Valid() && WellTyped(spec.Text() + rest, 0, args)
    ensures var own := Taken(spec, args);
            && (spec.TakesOne() ==> |own| == 1) && WellTyped(spec.Text(), 0, own) && WellTyped(rest, 0, args[|own|..])
            && Expansion(spec.Text() + rest, 0, args) == Expansion(spec.Text(), 0, own) + Expansion(rest, 0, args[|own|..])
  {
    hide ReadDirective, Rendered, Takes, Spec.Text, Spec.Left, Spec.Zero, Spec.Width;
    var t, own := spec.Text(), Taken(spec, args);
    SpecStarts(spec, rest);
    SpecRead(spec, rest);
    SpecRead(spec, "");
    assert t + "" == t;
    var d := ReadDirective(t + rest, 1);
    TakesEnough(d, args);
    OwnEnough(d, args, own);
    OneConversion(t, own);
    ExpansionShift(t, rest, 0, args[|own|..]);
  }

  lemma SpecStarts(spec: Spec, rest: string)
    ensures var f := spec.Text() + rest; |spec.Text()| >= 2 && f[0] == '%' && At(f, 0) == '%' && spec.Text()[0] == '%'
  {
  }

  lemma OwnEnough(d: Directive, args: seq<Argument>, own: seq<Argument>)
    requires Takes(d, args) && own == if Consumes(d.conversion) == 1 && |args| > 0 then args[..1] else []
    ensures |own| == Consumes(d.conversion) && Takes(d, own) && Rendered(d, own) == Rendered(d, args)
  {
    hide NumberText, Padded;
  }

  /** Text without a % stands for itself. */
  lemma {:induction false} TextFirst(text: string, rest: string, args: seq<Argument>)
    requires '%' !in text && '\0' !in text && WellTyped(text + rest, 0, args)
    ensures WellTyped(rest, 0, args) && Expansion(text + rest, 0, args) == text + Expansion(rest, 0, args)
  {
    hide Expansion, WellTyped;
    if text == "" {
      assert text + rest == rest;
    } else {
      var f := text + rest;
      assert [text[0]] + (text[1..] + rest) == f && f[0] == text[0];
      ExpandStep(f, 0, args);
      ExpansionShift([text[0]], text[1..] + rest, 0, args);
      TextFirst(text[1..], rest, args);
    }
  }

  /** A format that has ended prints nothing, and one that ends within a specification prints the % alone. */
  lemma EndPrinted(flags: string, width: string, isLong: bool, args: seq<Argument>)
    requires (forall k :: 0 <= k < |flags| ==> flags[k] in "-0")
    requires (forall k :: 0 <= k < |width| ==> '0' <= width[k] <= '9') && (width == "" || width[0] != '0')
    ensures var cut := "%" + flags + width + if isLong then "l" else "";
            && WellTyped("", 0, args) && Expansion("", 0, args) == ""
            && WellTyped(cut, 0, args) && Expansion(cut, 0, args) == "%"
  {
    hide FlagsEnd, WidthEnd, HasFlag, WidthValue, IsWidth;
    var f := "%" + flags + width + if isLong then "l" else "";
    var j, k := 1 + |flags|, 1 + |flags| + |width|;
    forall i | 1 <= i < j ensures At(f, i) == flags[i - 1] {
    }
    forall i | j <= i < k ensures At(f, i) == width[i - j] {
    }
    assert At(f, j) == if width != "" then width[0] else At(f, k);
    FlagsEndAt(f, 1, j);
    WidthEndAt(f, j, k);
    assert ReadDirective(f, 1).conversion == '\0';
    OneConversion(f, args);
  }

  // ----- what a conversion prints -----

  /** piece is the text, with spaces on the left or, if `left`, on the right, up to the width. */
  predicate Pads(piece: string, text: string, width: nat, left: bool) {
    var n := |text|;
    && |piece| == (if width > n then width else n)
    && (left ==> piece[..n] == text && forall k :: n <= k < |piece| ==> piece[k] == ' ')
    && (!left ==> piece[|piece| - n..] == text && forall k :: 0 <= k < |piece| - n ==> piece[k] == ' ')
  }

  /** What %%, %c and %s print. */
  lemma TextPrinted(spec: Spec, args: seq<Argument>)
    requires spec.Valid() && spec.conversion in "%cs" && WellTyped(spec.Text(), 0, args)
    ensures spec.conversion != '%' ==> |args| > 0
    ensures var text := if spec.conversion == '%' then "%"
                        else match args[0] case Number(n) => [(n % 256) as char] case Text(s) => s case Null => "(null)";
            Pads(Expansion(spec.Text(), 0, args), text, spec.Width(), spec.Left())
  {
    hide ReadDirective, Spec.Text, Spec.Left, Spec.Zero, Spec.Width, Padded, Pads, NumberText, Expansion, WellTyped, Spec.Valid;
    AloneRendered(spec, args);
    var text := if spec.conversion == '%' then "%"
                else match args[0] case Number(n) => [(n % 256) as char] case Text(s) => s case Null => "(null)";
    PaddedPads(text, spec.Width(), spec.Left());
  }

  lemma PaddedPads(text: string, width: nat, left: bool)
    ensures Pads(Padded(text, width, left), text, width, left)
  {
  }

  lemma AloneRendered(spec: Spec, args: seq<Argument>)
    requires spec.Valid() && WellTyped(spec.Text(), 0, args)
    ensures var d := Directive(spec.Left(), spec.Zero(), spec.Width(), spec.isLong, spec.conversion, |spec.Text()|);
            Takes(d, args) && Expansion(spec.Text(), 0, args) == Rendered(d, args)
  {
    hide ReadDirective, Rendered, Takes, Spec.Text, Spec.Left, Spec.Zero, Spec.Width;
    SpecStarts(spec, "");
    SpecRead(spec, "");
    assert spec.Text() + "" == spec.Text();
    OneConversion(spec.Text(), args);
  }

  /** The numeral of v: digits of the base in one case, no zero in front unless it is all there is, with the value v. */
  predicate Writes(digits: string, v: nat, base: nat, upper: bool) {
    && digits != "" && (forall k :: 0 <= k < |digits| ==> IsDigit(digits[k], base))
    && (forall k :: 0 <= k < |digits| ==> if upper then !('a' <= digits[k] <= 'z') else !('A' <= digits[k] <= 'Z'))
    && (|digits| > 1 ==> digits[0] != '0') && Value(digits, 0, |digits|, base) == v
  }

  /** piece is the sign and the digits, up to the width with spaces on the left, with spaces on the right if `left`,
  or with zeros between the sign and the digits if `zero`. */
  predicate PadsNumber(piece: string, sign: string, digits: string, width: nat, left: bool, zero: bool) {
    var n := |digits|;
    if left || !zero then Pads(piece, sign + digits, width, left)
    else
      && |piece| == (if width > |sign| + n then width else |sign| + n)
      && piece[..|sign|] == sign && piece[|piece| - n..] == digits && forall k :: |sign| <= k < |piece| - n ==> piece[k] == '0'
  }

  lemma {:induction false} NumeralWrites(v: nat, base: nat, upper: bool)
    requires base == 10 || base == 16
    ensures Writes(Digits(v, base, upper), v, base, upper)
  {
    hide IsDigit, Digits, Value;
    var digits := Digits(v, base, upper);
    DigitsAreDigits(v, base, upper);
    forall k | 0 <= k < |digits| ensures IsDigit(digits[k], base) && if upper then !('a' <= digits[k] <= 'z') else !('A' <= digits[k] <= 'Z') {
      DigitFacts(digits[k], base, upper);
      DigitCase(digits[k], base, upper);
    }
    assert digits[0..0 + |digits|] == digits;
    ValueOfDigits(digits, 0, v, base, upper);
    NoZeroInFront(v, base, upper);
  }

  lemma DigitCase(c: char, base: nat, upper: bool)
    requires DigitOf(c, base, upper)
    ensures if upper then !('a' <= c <= 'z') else !('A' <= c <= 'Z')
  {
    var d: nat :| d < base <= 16 && c == DigitChar(d, upper);
  }

  lemma {:induction false} NoZeroInFront(v: nat, base: nat, upper: bool)
    requires 2 <= base <= 16
    ensures v > 0 ==> Digits(v, base, upper)[0] != '0'
    ensures v < base ==> |Digits(v, base, upper)| == 1
    decreases v
  {
    hide DigitChar;
    if v < base {
      if v > 0 { FrontDigit(v, upper); }
    } else {
      Smaller(v, base);
      Bits.DivModBasic(v, base);
      NoZeroInFront(v / base, base, upper);
    }
  }

  lemma FrontDigit(d: nat, upper: bool)
    requires 0 < d < 36
    ensures DigitChar(d, upper) != '0'
  {
  }

  lemma NumberTextPads(v: nat, base: nat, upper: bool, width: nat, left: bool, zero: bool, negative: bool)
    requires 2 <= base <= 16
    ensures PadsNumber(NumberText(v, base, upper, width, left, zero, negative), SignText(negative), Digits(v, base, upper), width, left, zero)
  {
    hide *;
    var sign, digits := SignText(negative), Digits(v, base, upper);
    PadsNumberIs(sign, digits, width, left, zero);
    if left || !zero {
      PaddedPads(sign + digits, width, left);
      SpacedNumber(v, base, upper, width, left, zero, negative);
    } else {
      ZeroedNumber(v, base, upper, width, negative);
    }
  }

  lemma SpacedNumber(v: nat, base: nat, upper: bool, width: nat, left: bool, zero: bool, negative: bool)
    requires 2 <= base <= 16 && (left || !zero)
    ensures NumberText(v, base, upper, width, left, zero, negative) == Padded(SignText(negative) + Digits(v, base, upper), width, left)
  {
    hide Digits, SignText, Padding, Repeat;
    var sign, digits := SignText(negative), Digits(v, base, upper);
    var spaces := Repeat(' ', Padding(width, |sign + digits|));
    if !left { assert (spaces + sign) + digits + Repeat(' ', 0) == spaces + (sign + digits); }
  }

  lemma ZeroedNumber(v: nat, base: nat, upper: bool, width: nat, negative: bool)
    requires 2 <= base <= 16
    ensures var sign, digits := SignText(negative), Digits(v, base, upper);
            NumberText(v, base, upper, width, false, true, negative) == sign + Repeat('0', Padding(width, |sign| + |digits|)) + digits
  {
    hide Digits, SignText, Padding, Repeat;
    var lead := Lead(Padding(width, |SignText(negative)| + |Digits(v, base, upper)|), false, true, negative);
    assert lead + Digits(v, base, upper) + Repeat(' ', 0) == lead + Digits(v, base, upper);
  }

  lemma PadsNumberIs(sign: string, digits: string, width: nat, left: bool, zero: bool)
    ensures left || !zero ==>
              forall piece :: Pads(piece, sign + digits, width, left) ==> PadsNumber(piece, sign, digits, width, left, zero)
    ensures !left && zero ==> PadsNumber(sign + Repeat('0', Padding(width, |sign| + |digits|)) + digits, sign, digits, width, left, zero)
  {
    hide Pads;
  }

  /** What %d, %i, %u, %x and %X print. */
  lemma NumberPrinted(spec: Spec, args: seq<Argument>) returns (digits: string)
    requires spec.Valid() && spec.conversion in "diuxX" && WellTyped(spec.Text(), 0, args)
    ensures |args| > 0 && args[0].Number?
    ensures var n := args[0].n;
            && Writes(digits, if n < 0 then -n else n, if spec.conversion in "xX" then 16 else 10, spec.conversion == 'X')
            && PadsNumber(Expansion(spec.Text(), 0, args), if n < 0 then "-" else "", digits, spec.Width(), spec.Left(), spec.Zero())
  {
    hide ReadDirective, Spec.Text, Spec.Left, Spec.Zero, Spec.Width, PadsNumber, NumberText, Expansion, WellTyped, Spec.Valid, Writes, Digits;
    AloneRendered(spec, args);
    var n, base, upper := args[0].n, if spec.conversion in "xX" then 16 else 10, spec.conversion == 'X';
    digits := Digits(Magnitude(n), base, upper);
    NumeralWrites(Magnitude(n), base, upper);
    NumberTextPads(Magnitude(n), base, upper, spec.Width(), spec.Left(), spec.Zero(), n < 0);
  }

  /** %p is hexadecimal, and without a width it has at least four digits. */
  lemma PointerPrinted(spec: Spec, args: seq<Argument>) returns (digits: string)
    requires spec.Valid() && spec.conversion == 'p' && WellTyped(spec.Text(), 0, args)
    ensures |args| > 0 && args[0].Number? && args[0].n >= 0 && Writes(digits, args[0].n, 16, false)
    ensures var width := spec.Width();
            PadsNumber(Expansion(spec.Text(), 0, args), "", digits, if width == 0 then 4 else width, spec.Left(), spec.Zero() || width == 0)
  {
    hide ReadDirective, Spec.Text, Spec.Left, Spec.Zero, Spec.Width, PadsNumber, NumberText, Expansion, WellTyped, Spec.Valid, Writes, Digits;
    AloneRendered(spec, args);
    digits := Digits(args[0].n, 16, false);
    NumeralWrites(args[0].n, 16, false);
    NumberTextPads(args[0].n, 16, false, if spec.Width() == 0 then 4 else spec.Width(), spec.Left(), spec.Zero() || spec.Width() == 0, false);
  }

  /** Any other conversion is echoed behind a %, without flags and width. */
  lemma OtherPrinted(spec: Spec, args: seq<Argument>)
    requires spec.Valid() && spec.conversion !in "%csdiuxXp" && WellTyped(spec.Text(), 0, args)
    ensures Expansion(spec.Text(), 0, args) == ['%', spec.conversion]
  {
    hide ReadDirective, Spec.Text, Spec.Left, Spec.Zero, Spec.Width, Expansion, WellTyped;
    AloneRendered(spec, args);
  }
}
