/** What strtol and strtoul read, said of the characters of the string: white space, a sign, a base prefix
and digits (sections 7.22.1.3 and 7.22.1.4 of C11). */
module ParseLaws {
  import opened CStrings
  import opened Convert
  import Printf

  // ----- the value of digits -----

  /** A digit alone is worth what it is, and a digit behind others makes them count base times. */
  lemma {:induction false} ValueJoined(s: string, i: nat, m: nat, j: nat, base: nat)
    requires i <= m <= j <= |s| && forall k :: i <= k < j ==> IsDigit(s[k], base)
    ensures Value(s, i, j, base) == Value(s, i, m, base) * Printf.Power(base, j - m) + Value(s, m, j, base)
    ensures j == i + 1 ==> Value(s, i, j, base) == DigitValue(s[i])
    decreases j - m
  {
    hide *;
    if m == j {
      NoMoreDigits(s, i, m, base);
    } else {
      ValueJoined(s, i, m, j - 1, base);
      LastDigitValue(s, i, j, base);
      LastDigitValue(s, m, j, base);
      OneMorePower(base, j - 1 - m);
      Distribute(Value(s, i, m, base), Printf.Power(base, j - 1 - m), Value(s, m, j - 1, base), base);
    }
    if j == i + 1 { FirstDigit(s, i, base); }
  }

  lemma NoMoreDigits(s: string, i: nat, m: nat, base: nat)
    requires i <= m <= |s| && forall k :: i <= k < m ==> IsDigit(s[k], base)
    ensures Value(s, i, m, base) * Printf.Power(base, 0) + Value(s, m, m, base) == Value(s, i, m, base)
  {
    hide IsDigit;
    assert Printf.Power(base, 0) == 1;
  }

  lemma LastDigitValue(s: string, i: nat, j: nat, base: nat)
    requires i < j <= |s| && forall k :: i <= k < j ==> IsDigit(s[k], base)
    ensures Value(s, i, j, base) == Value(s, i, j - 1, base) * base + DigitValue(s[j - 1])
  {
    hide IsDigit, DigitValue, Scaled;
    ScaledIs(Value(s, i, j - 1, base), base);
  }

  lemma OneMorePower(base: nat, n: nat)
    ensures Printf.Power(base, n + 1) == base * Printf.Power(base, n)
  {
  }

  lemma FirstDigit(s: string, i: nat, base: nat)
    requires i < |s| && IsDigit(s[i], base)
    ensures Value(s, i, i + 1, base) == DigitValue(s[i])
  {
    assert Value(s, i, i, base) == 0;
  }

  lemma Distribute(high: nat, p: nat, low: nat, base: nat)
    ensures high * p >= 0 && (high * p + low) * base == high * (base * p) + low * base
  {
    Positive(high, p);
  }

  /** The value depends on the digits only. */
  lemma {:induction false} ValueSame(s: string, i: nat, t: string, base: nat)
    requires i + |t| <= |s| && s[i..i + |t|] == t && forall k :: 0 <= k < |t| ==> IsDigit(t[k], base)
    ensures (forall k :: i <= k < i + |t| ==> IsDigit(s[k], base)) && Value(s, i, i + |t|, base) == Value(t, 0, |t|, base)
    decreases |t|
  {
    forall k | i <= k < i + |t| ensures s[k] == t[k - i] {
      assert s[i..i + |t|][k - i] == t[k - i];
    }
    if |t| > 0 {
      ValuePrefix(t, |t| - 1, base);
      assert s[i..i + |t| - 1] == t[..|t| - 1];
      ValueSame(s, i, t[..|t| - 1], base);
    }
  }

  lemma {:induction false} ValuePrefix(t: string, n: nat, base: nat)
    requires n <= |t| && forall k :: 0 <= k < |t| ==> IsDigit(t[k], base)
    ensures Value(t[..n], 0, n, base) == Value(t, 0, n, base)
    decreases n
  {
    if n > 0 {
      ValuePrefix(t, n - 1, base);
      ValuePrefix(t[..n], n - 1, base);
      assert t[..n][..n - 1] == t[..n - 1];
    }
  }

  // ----- whole strings -----

  predicate IsWhite(c: char) {
    c in " \t\n\r\U{00000B}\U{00000C}"
  }

  /** What the characters after the sign say about the base b of the digits. */
  predicate Chooses(prefix: string, digits: string, rest: string, base: int, b: nat) {
    && |digits| > 0 && prefix in ["", "0x", "0X"]
    && (base == 0 || 2 <= base <= 36)
    && (prefix != "" ==> (base == 0 || base == 16) && b == 16)
    && (prefix == "" ==> b == if base != 0 then base else if digits[0] == '0' then 8 else 10)
    && (prefix == "" && (base == 0 || base == 16) ==>
          !(digits == "0" && |rest| >= 2 && rest[0] in "xX" && IsDigit(rest[1], 16)))
  }

  /** Any numeral, written with white space, a sign, a prefix and digits before something else, is read as what
  it says in the base it chooses, and reading stops after its last digit. */
  lemma ReadsNumeral(space: string, sign: string, prefix: string, digits: string, rest: string, base: int, b: nat)
    requires (forall k :: 0 <= k < |space| ==> IsWhite(space[k])) && sign in ["", "+", "-"]
    requires Chooses(prefix, digits, rest, base, b) && (forall k :: 0 <= k < |digits| ==> IsDigit(digits[k], b))
    requires rest == "" || !IsDigit(rest[0], b)
    ensures var s := space + sign + prefix + digits + rest;
            && SignedNumeral(s, base) == (if sign == "-" then -(Value(digits, 0, |digits|, b) as int) else Value(digits, 0, |digits|, b))
            && Consumed(s, base) == |space| + |sign| + |prefix| + |digits|
  {
    hide IsDigit, IsWhite, SubjectOf, Chooses;
    var s := space + sign + prefix + digits + rest;
    var first := |space| + |sign| + |prefix|;
    ReadsSubject(space, sign, prefix, digits, rest, base, b);
    assert s[first..first + |digits|] == digits;
    ValueSame(s, first, digits, b);
  }

  lemma ReadsSubject(space: string, sign: string, prefix: string, digits: string, rest: string, base: int, b: nat)
    requires (forall k :: 0 <= k < |space| ==> IsWhite(space[k])) && sign in ["", "+", "-"]
    requires Chooses(prefix, digits, rest, base, b) && (forall k :: 0 <= k < |digits| ==> IsDigit(digits[k], b))
    requires rest == "" || !IsDigit(rest[0], b)
    ensures |digits| > 0 && (base == 0 || 2 <= base <= 36)
    ensures var first := |space| + |sign| + |prefix|;
            SubjectOf(space + sign + prefix + digits + rest, base) == Subject(sign == "-", b, first, first + |digits|)
  {
    hide *;
    var s := space + sign + prefix + digits + rest;
    var j, first := |space| + |sign|, |space| + |sign| + |prefix|;
    SpaceBefore(space, sign, prefix, digits, rest, base, b);
    SpacesEndIs(s, 0, |space|);
    assert s == (space + sign) + (prefix + digits + rest) == (space + sign + prefix) + (digits + rest);
    Behind(space + sign, prefix + digits + rest);
    Behind(space + sign + prefix, digits + rest);
    BaseChosen(s, j, prefix, digits, rest, base, b);
    DigitsUpTo(s, first, digits, rest, b);
    SubjectIs(s, base, |space|, j, b, first, first + |digits|);
  }

  lemma Behind(front: string, back: string)
    ensures (front + back)[|front|..] == back
  {
  }

  lemma DigitsUpTo(s: string, first: nat, digits: string, rest: string, b: nat)
    requires first <= |s| && s[first..] == digits + rest
    requires (forall k :: 0 <= k < |digits| ==> IsDigit(digits[k], b)) && (rest == "" || !IsDigit(rest[0], b))
    ensures DigitsEnd(s, first, b) == first + |digits|
  {
    hide IsDigit;
    var t := digits + rest;
    forall k | first <= k < first + |digits| ensures IsDigit(At(s, k), b) { assert At(s, k) == s[first..][k - first] == digits[k - first]; }
    NoDigitAtEnd(b);
    assert At(s, first + |digits|) == At(t, |digits|) == At(rest, 0);
    DigitsEndIs(s, first, first + |digits|, b);
  }

  lemma SubjectIs(s: string, base: int, i: nat, j: nat, b: nat, first: nat, end: nat)
    requires (base == 0 || 2 <= base <= 36) && SpacesEnd(s, 0) == i && j == (if At(s, i) == '-' || At(s, i) == '+' then i + 1 else i)
    requires BaseOf(s, j, base) == (b, first) && DigitsEnd(s, first, b) == end
    ensures SubjectOf(s, base) == Subject(At(s, i) == '-', b, first, end)
  {
    hide IsDigit, IsSpace, BaseOf;
  }

  lemma NoDigitAtEnd(b: nat)
    ensures !IsDigit('\0', b)
  {
  }

  /** A character that starts a numeral is neither white space nor a sign. */
  lemma DigitsAreNotSigns(c: char, b: nat)
    ensures IsDigit(c, b) ==> !IsSpace(c) && c != '+' && c != '-'
    ensures IsWhite(c) <==> IsSpace(c)
    ensures !IsSpace('+') && !IsSpace('-') && !IsSpace('0')
  {
  }

  lemma SpaceBefore(space: string, sign: string, prefix: string, digits: string, rest: string, base: int, b: nat)
    requires (forall k :: 0 <= k < |space| ==> IsWhite(space[k])) && sign in ["", "+", "-"]
    requires Chooses(prefix, digits, rest, base, b) && (forall k :: 0 <= k < |digits| ==> IsDigit(digits[k], b))
    ensures var s, i := space + sign + prefix + digits + rest, |space|;
            && !IsSpace(At(s, i)) && (forall k :: 0 <= k < i ==> IsSpace(At(s, k)))
            && (At(s, i) == '-' <==> sign == "-") && (At(s, i) == '+' <==> sign == "+")
            && |digits| > 0 && (base == 0 || 2 <= base <= 36) && |sign| == (if At(s, i) == '-' || At(s, i) == '+' then 1 else 0)
  {
    hide IsDigit, IsSpace, IsWhite;
    var s, i := space + sign + prefix + digits + rest, |space|;
    forall k | 0 <= k < i ensures IsSpace(At(s, k)) {
      assert At(s, k) == space[k];
      DigitsAreNotSigns(space[k], b);
    }
    DigitsAreNotSigns(digits[0], b);
    assert At(s, i) == if sign != "" then sign[0] else if prefix != "" then prefix[0] else digits[0];
  }

  lemma BaseChosen(s: string, j: nat, prefix: string, digits: string, rest: string, base: int, b: nat)
    requires j <= |s| && s[j..] == prefix + digits + rest && Chooses(prefix, digits, rest, base, b)
    requires forall k :: 0 <= k < |digits| ==> IsDigit(digits[k], b)
    ensures BaseOf(s, j, base) == (b, j + |prefix|)
  {
    hide IsDigit;
    var t := prefix + digits + rest;
    assert At(s, j) == At(t, 0) && At(s, j + 1) == At(t, 1) && At(s, j + 2) == At(t, 2);
    if prefix != "" {
      assert t[2] == digits[0];
    } else if base == 0 || base == 16 {
      ForbiddenPrefix(digits, rest, b);
    }
  }

  lemma ForbiddenPrefix(digits: string, rest: string, b: nat)
    requires b <= 16 && |digits| > 0 && forall k :: 0 <= k < |digits| ==> IsDigit(digits[k], b)
    requires !(digits == "0" && |rest| >= 2 && rest[0] in "xX" && IsDigit(rest[1], 16))
    ensures !HexPrefix(digits + rest, 0)
  {
    var t := digits + rest;
    if |digits| > 1 {
      assert t[1] == digits[1];
    } else {
      assert digits == [t[0]];
      assert At(t, 1) == At(rest, 0) && At(t, 2) == At(rest, 1);
    }
  }

  /** Without a digit nothing is read. */
  lemma ReadsNothing(space: string, sign: string, rest: string, base: int)
    requires (forall k :: 0 <= k < |space| ==> IsWhite(space[k])) && sign in ["", "+", "-"] && (base == 0 || 2 <= base <= 36)
    requires rest == "" || (!IsDigit(rest[0], if base == 0 then 10 else base) && (sign == "" ==> !IsWhite(rest[0]) && rest[0] !in "+-"))
    ensures SignedNumeral(space + sign + rest, base) == 0 && Consumed(space + sign + rest, base) == 0
  {
    hide IsDigit, DigitValue, Value, IsSpace, IsWhite;
    var s := space + sign + rest;
    var i, j := |space|, |space| + |sign|;
    forall k | 0 <= k < i ensures IsSpace(At(s, k)) {
      assert At(s, k) == space[k];
      DigitsAreNotSigns(space[k], 10);
    }
    assert At(s, i) == if sign != "" then sign[0] else At(rest, 0);
    assert At(s, j) == At(rest, 0);
    EndIsNothing(At(rest, 0), base);
    DigitsAreNotSigns(At(rest, 0), 10);
    SpacesEndIs(s, 0, i);
    DigitsEndIs(s, j, j, if base == 0 then 10 else base);
  }

  lemma EndIsNothing(c: char, base: int)
    requires base == 0 || 2 <= base <= 36
    ensures !IsSpace('\0') && !IsDigit('\0', base) && !IsDigit('\0', 10) && (!IsDigit(c, if base == 0 then 10 else base) ==> c != '0')
  {
  }

  // ----- base 0 -----

  /** In base 0 a string is read in base 16 behind a prefix with a hexadecimal digit, else in base 8 if its first
  character is 0, and in base 10 if not. */
  lemma BaseZero(s: string, i: nat, j: nat)
    requires (forall k :: 0 <= k < i ==> IsWhite(At(s, k))) && !IsWhite(At(s, i)) && j == if At(s, i) in "+-" then i + 1 else i
    ensures var prefixed := At(s, j) == '0' && At(s, j + 1) in "xX" && IsDigit(At(s, j + 2), 16);
            var b := if prefixed then 16 else if At(s, j) == '0' then 8 else 10;
            SignedNumeral(s, 0) == SignedNumeral(s, b) && Consumed(s, 0) == Consumed(s, b)
  {
    hide IsDigit, DigitValue, Value, IsSpace, IsWhite;
    forall k | 0 <= k <= i ensures IsWhite(At(s, k)) <==> IsSpace(At(s, k)) { DigitsAreNotSigns(At(s, k), 10); }
    SpacesEndIs(s, 0, i);
  }
}
