/** `int.TryParse(string, out int)` as the progress-bar test uses it: `NumberStyles.Integer`
    (leading and trailing white space, one leading sign), ASCII digits, and failure on a null
    text or on a value outside the 32-bit range. Culture-specific signs are taken to be the
    invariant culture's `+` and `-`. */
module IntParsing {
  import opened Outcomes

  const Int32Min: int := -0x8000_0000
  const Int32Max: int := 0x7FFF_FFFF

  /** The white space `AllowLeadingWhite` and `AllowTrailingWhite` admit: U+0009 to U+000D and
      U+0020. */
  predicate IsWhite(c: char)
  {
    c == ' ' || ('\t' <= c <= '\r')
  }

  predicate IsDigit(c: char)
  {
    '0' <= c <= '9'
  }

  /** Every character is a decimal digit (checked from the last character back). */
  predicate AllDigits(s: string)
  {
    s == [] || (IsDigit(s[|s| - 1]) && AllDigits(s[..|s| - 1]))
  }

  lemma {:induction false} AllDigitsAt(s: string)
    ensures AllDigits(s) <==> forall i :: 0 <= i < |s| ==> IsDigit(s[i])
  {
    if s != [] {
      AllDigitsAt(s[..|s| - 1]);
      assert forall i :: 0 <= i < |s| - 1 ==> s[i] == s[..|s| - 1][i];
    }
  }

  /** Drops the leading white space. */
  function TrimStart(s: string): string
  {
    if s != [] && IsWhite(s[0]) then TrimStart(s[1..]) else s
  }

  /** `TrimStart` drops exactly the leading white space: what is left is a suffix that does not
      start with white space, and everything dropped is white space. */
  lemma {:induction false} TrimStartSpec(s: string)
    ensures var r := TrimStart(s);
      && |r| <= |s| && r == s[|s| - |r|..]
      && (r == [] || !IsWhite(r[0]))
      && forall i :: 0 <= i < |s| - |r| ==> IsWhite(s[i])
  {
    if s != [] && IsWhite(s[0]) {
      TrimStartSpec(s[1..]);
      var r := TrimStart(s[1..]);
      assert s[1..][|s| - 1 - |r|..] == s[|s| - |r|..];
      forall i | 0 <= i < |s| - |r| ensures IsWhite(s[i]) {
        if i > 0 {
          assert s[i] == s[1..][i - 1];
        }
      }
    }
  }

  /** Drops the trailing white space. */
  function TrimEnd(s: string): string
  {
    if s != [] && IsWhite(s[|s| - 1]) then TrimEnd(s[..|s| - 1]) else s
  }

  /** `TrimEnd` drops exactly the trailing white space: what is left is a prefix that does not
      end with white space, and everything dropped is white space. */
  lemma {:induction false} TrimEndSpec(s: string)
    ensures var r := TrimEnd(s);
      && |r| <= |s| && r == s[..|r|]
      && (r == [] || !IsWhite(r[|r| - 1]))
      && forall i :: |r| <= i < |s| ==> IsWhite(s[i])
  {
    if s != [] && IsWhite(s[|s| - 1]) {
      TrimEndSpec(s[..|s| - 1]);
      var r := TrimEnd(s[..|s| - 1]);
      assert s[..|s| - 1][..|r|] == s[..|r|];
    }
  }

  function Trim(s: string): string
  {
    TrimEnd(TrimStart(s))
  }

  /** The number a run of decimal digits denotes, most significant digit first. */
  function DigitsValue(digits: string): nat
    requires AllDigits(digits)
  {
    if digits == [] then 0
    else DigitsValue(digits[..|digits| - 1]) * 10 + (digits[|digits| - 1] as int - '0' as int)
  }

  /** The parse of a text whose surrounding white space is already gone: one optional sign,
      then at least one digit and nothing else, within the 32-bit range. */
  function ParseTrimmed(t: string): (r: Option<int>)
    ensures r.Some? ==> Int32Min <= r.value <= Int32Max
  {
    var signed := |t| > 0 && (t[0] == '-' || t[0] == '+');
    var digits := if signed then t[1..] else t;
    if digits == [] || !AllDigits(digits) then None
    else
      var magnitude: int := DigitsValue(digits);
      var value: int := if signed && t[0] == '-' then -magnitude else magnitude;
      if Int32Min <= value <= Int32Max then Some(value) else None
  }

  /** Every character of the trimmed text comes from the text. */
  lemma TrimInside(s: string)
    ensures forall i :: 0 <= i < |Trim(s)| ==> Trim(s)[i] in s
  {
    var front := TrimStart(s);
    TrimStartSpec(s);
    TrimEndSpec(front);
    forall i | 0 <= i < |Trim(s)| ensures Trim(s)[i] in s {
      assert Trim(s)[i] == front[i] == s[|s| - |front| + i];
    }
  }

  /** `int.TryParse(text, out value)`: `None` where it returns false. */
  function TryParseInt32(text: Option<string>): (r: Option<int>)
    ensures r.Some? ==> Int32Min <= r.value <= Int32Max
  {
    match text
    case None => None
    case Some(s) => ParseTrimmed(Trim(s))
  }

  /** A null text never parses, and a text that parses holds at least one digit. */
  lemma ParsedTextHasDigit(text: Option<string>)
    ensures TryParseInt32(text).Some? ==> text.Some? && exists i :: 0 <= i < |text.value| && IsDigit(text.value[i])
  {
    if TryParseInt32(text).Some? {
      var t := Trim(text.value);
      TrimInside(text.value);
      var signed := |t| > 0 && (t[0] == '-' || t[0] == '+');
      var digits := if signed then t[1..] else t;
      AllDigitsAt(digits);
      var k := if signed then 1 else 0;
      assert IsDigit(t[k]) && t[k] in text.value;
    }
  }

  /** A text with a character that is neither white space, a digit nor a sign never parses. */
  lemma RejectsNonNumeric(s: string, i: nat)
    requires i < |s| && !IsWhite(s[i]) && !IsDigit(s[i]) && s[i] != '-' && s[i] != '+'
    ensures TryParseInt32(Some(s)) == None
  {
    var front := TrimStart(s);
    TrimStartSpec(s);
    var offset := |s| - |front|;
    assert front[i - offset] == s[i];
    var t := TrimEnd(front);
    TrimEndSpec(front);
    assert t[i - offset] == s[i];
    var digits := if |t| > 0 && (t[0] == '-' || t[0] == '+') then t[1..] else t;
    AllDigitsAt(digits);
    if i - offset > 0 || !(t[0] == '-' || t[0] == '+') {
      assert !IsDigit(digits[if digits == t then i - offset else i - offset - 1]);
    }
  }

  function DigitChar(d: nat): (c: char)
    requires d < 10
    ensures IsDigit(c) && c as int - '0' as int == d
  {
    ('0' as int + d) as char
  }

  /** The decimal digits of `n`, without leading zeros. */
  function Decimal(n: nat): (s: string)
  {
    if n < 10 then [DigitChar(n)] else Decimal(n / 10) + [DigitChar(n % 10)]
  }

  lemma {:induction false} DecimalDenotes(n: nat)
    ensures Decimal(n) != [] && AllDigits(Decimal(n))
    ensures DigitsValue(Decimal(n)) == n
  {
    AllDigitsAt(Decimal(n));
    if n >= 10 {
      DecimalDenotes(n / 10);
      AllDigitsAt(Decimal(n / 10));
      var s := Decimal(n);
      assert s[..|s| - 1] == Decimal(n / 10);
    }
  }

  /** `n.ToString()` in the invariant culture. */
  function Int32Text(n: int): string
  {
    if n < 0 then "-" + Decimal(-n) else Decimal(n)
  }

  lemma Int32TextCharacters(n: int)
    ensures forall i :: 0 <= i < |Int32Text(n)| ==> IsDigit(Int32Text(n)[i]) || Int32Text(n)[i] == '-'
  {
    var m := if n < 0 then -n else n;
    DecimalDenotes(m);
    AllDigitsAt(Decimal(m));
    if n < 0 {
      assert forall i :: 1 <= i < |Int32Text(n)| ==> Int32Text(n)[i] == Decimal(m)[i - 1];
    }
  }

  /** A text that starts and ends with something other than white space is its own trim. */
  lemma TrimUntouched(s: string)
    requires s != [] && !IsWhite(s[0]) && !IsWhite(s[|s| - 1])
    ensures Trim(s) == s
  {
    assert TrimStart(s) == s;
    TrimEndSpec(s);
  }

  lemma ParsesDecimal(m: nat)
    requires m <= Int32Max
    ensures ParseTrimmed(Decimal(m)) == Some(m)
  {
    DecimalDenotes(m);
    AllDigitsAt(Decimal(m));
  }

  lemma ParsesNegativeDecimal(m: nat)
    requires m <= -Int32Min
    ensures ParseTrimmed("-" + Decimal(m)) == Some(-(m as int))
  {
    DecimalDenotes(m);
    var t := "-" + Decimal(m);
    assert t[1..] == Decimal(m);
  }

  /** Every 32-bit value parses back from its own text. */
  lemma ParsesInt32Text(n: int)
    requires Int32Min <= n <= Int32Max
    ensures TryParseInt32(Some(Int32Text(n))) == Some(n)
  {
    var m := if n < 0 then -n else n;
    DecimalDenotes(m);
    AllDigitsAt(Decimal(m));
    var s := Int32Text(n);
    assert s[|s| - 1] == Decimal(m)[|Decimal(m)| - 1];
    TrimUntouched(s);
    if n < 0 {
      ParsesNegativeDecimal(m);
    } else {
      ParsesDecimal(m);
    }
  }
}
