/** Decimal texts of unsigned numbers: printing, and the reading of std::stoul. */
module Decimals {
  import opened Words

  function Digit(d: nat): (c: char)
    requires d < 10
    ensures IsDigit(c) && c as int - ('0' as int) == d
  {
    ('0' as int + d) as char
  }

  predicate IsDigit(c: char) { '0' <= c <= '9' }

  function DigitValue(c: char): (d: nat)
    requires IsDigit(c)
    ensures d < 10 && Digit(d) == c
  {
    c as int - '0' as int
  }

  /** The text of std::to_string and of each part of a dotted quad. */
  function Decimal(n: nat): string {
    if n < 10 then [Digit(n)] else Decimal(n / 10) + [Digit(n % 10)]
  }

  predicate AllDigits(text: string) { forall i :: 0 <= i < |text| ==> IsDigit(text[i]) }

  function Value(text: string): nat
    requires AllDigits(text)
  {
    if text == "" then 0 else 10 * Value(text[..|text| - 1]) + DigitValue(text[|text| - 1])
  }

  predicate Plain(text: string) { AllDigits(text) && text != "" && (|text| > 1 ==> text[0] != '0') }

  /** Plain texts and numbers correspond one to one. */
  lemma {:induction false} DecimalRoundTrip(n: nat)
    ensures Plain(Decimal(n)) && Value(Decimal(n)) == n && (n > 0 ==> Decimal(n)[0] != '0')
  {
    if n < 10 {
      assert Value([Digit(n)]) == 10 * Value([Digit(n)][..0]) + n;
    } else {
      DecimalRoundTrip(n / 10);
      var front := Decimal(n / 10);
      assert (front + [Digit(n % 10)])[..|front|] == front;
    }
  }

  lemma {:induction false} ValueRoundTrip(text: string)
    requires Plain(text)
    ensures Decimal(Value(text)) == text && (|text| > 1 ==> Value(text) >= 10)
  {
    var front, last := text[..|text| - 1], text[|text| - 1];
    if |text| > 1 {
      ValueRoundTrip(front);
      Leading(front);
      LastDigit(Value(front), DigitValue(last));
      assert text == front + [last];
    } else {
      assert front == "" && text == [last];
    }
  }

  lemma LastDigit(n: nat, d: nat)
    requires n > 0 && d < 10
    ensures Decimal(10 * n + d) == Decimal(n) + [Digit(d)]
  {
    assert (10 * n + d) / 10 == n && (10 * n + d) % 10 == d;
  }

  lemma Leading(text: string)
    requires Plain(text) && text[0] != '0'
    ensures Value(text) > 0
    decreases |text|
  {
    if |text| > 1 {
      Leading(text[..|text| - 1]);
    }
  }

  /** std::stoul returns a 64-bit value or throws std::invalid_argument or std::out_of_range. */
  datatype Stoul = Read(value: nat) | Invalid | OutOfRange

  predicate IsSpace(c: char) { c == ' ' || '\t' <= c <= '\r' }

  function SkipSpace(text: string): string {
    if text != "" && IsSpace(text[0]) then SkipSpace(text[1..]) else text
  }

  /** The longest front of digits. */
  function LeadingDigits(text: string): (digits: string)
    ensures AllDigits(digits)
  {
    if text != "" && IsDigit(text[0]) then [text[0]] + LeadingDigits(text[1..]) else ""
  }

  /** White space, a sign, digits, and anything behind them. A minus negates the 64-bit value. */
  function ReadUnsigned(text: string): Stoul {
    var start := SkipSpace(text);
    var signed := start != "" && (start[0] == '+' || start[0] == '-');
    var digits := LeadingDigits(if signed then start[1..] else start);
    if digits == "" then Invalid
    else if Value(digits) >= TWO_64 then OutOfRange
    else Read(if signed && start[0] == '-' then (TWO_64 - Value(digits)) % TWO_64 else Value(digits))
  }

  predicate AllSpaces(text: string) { forall i :: 0 <= i < |text| ==> IsSpace(text[i]) }

  /** A text that std::stoul reads: white space, at most one sign, digits, and behind them anything but a digit. */
  predicate Numeric(spaces: string, sign: string, digits: string, rest: string) {
    && AllSpaces(spaces) && (sign == "" || sign == "+" || sign == "-") && digits != "" && AllDigits(digits)
    && (rest == "" || !IsDigit(rest[0]))
  }

  lemma {:induction false} SkipsSpaces(spaces: string, rest: string)
    requires AllSpaces(spaces) && (rest == "" || !IsSpace(rest[0]))
    ensures SkipSpace(spaces + rest) == rest
  {
    if spaces == "" {
      assert spaces + rest == rest;
    } else {
      SkipsSpaces(spaces[1..], rest);
      assert (spaces + rest)[1..] == spaces[1..] + rest;
    }
  }

  lemma {:induction false} TakesDigits(digits: string, rest: string)
    requires AllDigits(digits) && (rest == "" || !IsDigit(rest[0]))
    ensures LeadingDigits(digits + rest) == digits
  {
    if digits == "" {
      assert digits + rest == rest;
    } else {
      TakesDigits(digits[1..], rest);
      assert (digits + rest)[1..] == digits[1..] + rest;
    }
  }

  /** What is read: the value of the digits, negated in 64 bits after a minus; too large a value is out of range. */
  lemma ReadsNumeric(spaces: string, sign: string, digits: string, rest: string)
    requires Numeric(spaces, sign, digits, rest)
    ensures ReadUnsigned(spaces + sign + digits + rest) ==
            if Value(digits) >= TWO_64 then OutOfRange
            else if sign == "-" && Value(digits) > 0 then Read(TWO_64 - Value(digits))
            else Read(Value(digits))
  {
    hide SkipSpace, LeadingDigits, Value;
    var start := sign + (digits + rest);
    assert spaces + sign + digits + rest == spaces + start;
    assert IsDigit(digits[0]) && start[0] == if sign == "" then digits[0] else sign[0];
    SkipsSpaces(spaces, start);
    TakesDigits(digits, rest);
    if sign == "" {
      assert start == digits + rest;
    } else {
      assert start[1..] == digits + rest;
    }
  }

  lemma {:induction false} SpacesOf(text: string) returns (spaces: string)
    ensures AllSpaces(spaces) && text == spaces + SkipSpace(text)
  {
    hide IsSpace;
    if text != "" && IsSpace(text[0]) {
      var inner := SpacesOf(text[1..]);
      var rest := SkipSpace(text);
      spaces := [text[0]] + inner;
      InFront(text, inner, rest);
    } else {
      spaces := "";
      assert "" + text == text;
    }
  }

  lemma InFront(text: string, front: string, rest: string)
    requires text != "" && text[1..] == front + rest
    ensures text == ([text[0]] + front) + rest
  {
    assert text == [text[0]] + text[1..];
  }

  lemma {:induction false} DigitsOf(text: string) returns (rest: string)
    ensures text == LeadingDigits(text) + rest && (rest == "" || !IsDigit(rest[0]))
  {
    hide IsDigit;
    if text != "" && IsDigit(text[0]) {
      rest := DigitsOf(text[1..]);
      InFront(text, LeadingDigits(text[1..]), rest);
    } else {
      rest := text;
      assert "" + text == text;
    }
  }

  /** Every other text throws std::invalid_argument. */
  lemma InvalidIff(text: string)
    ensures ReadUnsigned(text) != Invalid <==>
            exists spaces, sign, digits, rest ::
              Numeric(spaces, sign, digits, rest) && text == spaces + sign + digits + rest
  {
    hide ReadUnsigned, Numeric;
    if ReadUnsigned(text) != Invalid {
      var spaces, sign, digits, rest := PartsOf(text);
    } else if spaces, sign, digits, rest :|
        Numeric(spaces, sign, digits, rest) && text == spaces + sign + digits + rest {
      HasValue(spaces, sign, digits, rest);
    }
  }

  lemma HasValue(spaces: string, sign: string, digits: string, rest: string)
    requires Numeric(spaces, sign, digits, rest)
    ensures ReadUnsigned(spaces + sign + digits + rest) != Invalid
  {
    hide ReadUnsigned;
    ReadsNumeric(spaces, sign, digits, rest);
  }

  lemma PartsOf(text: string) returns (spaces: string, sign: string, digits: string, rest: string)
    requires ReadUnsigned(text) != Invalid
    ensures Numeric(spaces, sign, digits, rest) && text == spaces + sign + digits + rest
  {
    hide SkipSpace, LeadingDigits, Value, AllSpaces, AllDigits;
    spaces := SpacesOf(text);
    var start := SkipSpace(text);
    var signed := start != "" && (start[0] == '+' || start[0] == '-');
    var behind := if signed then start[1..] else start;
    sign, digits := if signed then [start[0]] else "", LeadingDigits(behind);
    rest := DigitsOf(behind);
    SignFirst(start, sign, behind);
    Regroup(spaces, sign, digits, rest);
  }

  lemma SignFirst(start: string, sign: string, behind: string)
    requires sign == "" ==> behind == start
    requires sign != "" ==> |sign| == 1 && start != "" && sign[0] == start[0] && behind == start[1..]
    ensures start == sign + behind
  {
  }

  lemma Regroup(a: string, b: string, c: string, d: string)
    ensures a + (b + (c + d)) == a + b + c + d
  {
  }

  lemma {:induction false} DigitsOnly(text: string)
    requires AllDigits(text)
    ensures LeadingDigits(text) == text
  {
    if text != "" {
      DigitsOnly(text[1..]);
    }
  }

  /** A printed number is read back. */
  lemma ReadDecimal(n: nat)
    requires n < TWO_64
    ensures ReadUnsigned(Decimal(n)) == Read(n)
  {
    DecimalRoundTrip(n);
    var text := Decimal(n);
    assert IsDigit(text[0]);
    DigitsOnly(text);
  }

  lemma Longer(text: string)
    requires Plain(text)
    ensures Value(text) < 1000 <==> |text| <= 3
  {
    var n := Value(text);
    ValueRoundTrip(text);
    if |text| > 3 {
      var a := text[..|text| - 1];
      var b := a[..|a| - 1];
      ValueRoundTrip(b);
      assert Plain(b) && |b| > 1;
      assert Value(a) >= 10 * Value(b) && n >= 10 * Value(a);
    } else if |text| == 3 {
      var a := text[..2];
      assert a[..1] == [a[0]] && Value(a[..1]) < 10 by { assert a[..1][..0] == ""; }
      assert Value(a) < 100;
    } else if |text| == 2 {
      assert text[..1][..0] == "";
    } else {
      assert text[..0] == "";
    }
  }
}
