/** JavaScript's `parseInt(s, 10)`, used by the Prisma listings to turn the
    `offset` and `limit` query strings into numbers: leading white space is
    skipped, one optional sign is read, then the longest run of decimal
    digits; with no digit the result is NaN (here `None`). */
module JsParseInt {
  import opened Wrappers

  predicate IsDigit(c: char)
  {
    '0' <= c <= '9'
  }

  /** The white space `parseInt` skips: ECMAScript's WhiteSpace (tab,
      vertical tab, form feed, the byte-order mark and every Unicode space
      separator) and its LineTerminator characters. */
  predicate IsSpace(c: char)
  {
    c == '\t' || c == '\n' || c == '\U{000B}' || c == '\U{000C}' || c == '\r' || c == ' '
      || c == '\U{00A0}' || c == '\U{1680}' || ('\U{2000}' <= c <= '\U{200A}')
      || c == '\U{2028}' || c == '\U{2029}' || c == '\U{202F}' || c == '\U{205F}'
      || c == '\U{3000}' || c == '\U{FEFF}'
  }

  predicate AllDigits(d: string)
  {
    forall i :: 0 <= i < |d| ==> IsDigit(d[i])
  }

  function SkipSpaces(s: string): (r: string)
    ensures |r| <= |s|
    ensures r == [] || !IsSpace(r[0])
  {
    if |s| > 0 && IsSpace(s[0]) then SkipSpaces(s[1..]) else s
  }

  /** The longest prefix of decimal digits. */
  function DigitPrefix(s: string): (r: string)
    ensures AllDigits(r)
    ensures |r| <= |s| && r == s[..|r|]
    ensures |r| < |s| ==> !IsDigit(s[|r|])
  {
    if |s| > 0 && IsDigit(s[0]) then [s[0]] + DigitPrefix(s[1..]) else []
  }

  /** The number a digit string denotes. */
  function DigitsValue(d: string): nat
    requires AllDigits(d)
  {
    if d == [] then 0
    else DigitsValue(d[..|d| - 1]) * 10 + (d[|d| - 1] as int - '0' as int)
  }

  /** `parseInt(s, 10)`; `None` is NaN. Numbers too large for a double are
      not rounded here. */
  function ParseInt(s: string): (r: Option<int>)
  {
    var t := SkipSpaces(s);
    var negative := |t| > 0 && t[0] == '-';
    var unsigned := if |t| > 0 && (t[0] == '-' || t[0] == '+') then t[1..] else t;
    var digits := DigitPrefix(unsigned);
    if digits == [] then None
    else
      var magnitude: int := DigitsValue(digits);
      Some(if negative then -magnitude else magnitude)
  }

  /** Skipping white space drops a prefix. */
  lemma {:induction false} SkipSpacesIsSuffix(s: string)
    ensures SkipSpaces(s) == s[|s| - |SkipSpaces(s)|..]
  {
    if |s| > 0 && IsSpace(s[0]) {
      SkipSpacesIsSuffix(s[1..]);
    }
  }

  /** A number comes only from a string holding a digit, and a string that
      starts with a digit always gives a non-negative number. */
  lemma ParseIntFacts(s: string)
    ensures ParseInt(s).Some? ==> exists i :: 0 <= i < |s| && IsDigit(s[i])
    ensures |s| > 0 && IsDigit(s[0]) ==> ParseInt(s).Some? && ParseInt(s).value >= 0
  {
    var t := SkipSpaces(s);
    SkipSpacesIsSuffix(s);
    var unsigned := if |t| > 0 && (t[0] == '-' || t[0] == '+') then t[1..] else t;
    var digits := DigitPrefix(unsigned);
    if digits != [] {
      var k := |s| - |unsigned|;
      assert s[k] == unsigned[0] == digits[0];
    }
  }

  function DigitChar(d: nat): (c: char)
    requires d < 10
    ensures IsDigit(c) && c as int - '0' as int == d
  {
    ('0' as int + d) as char
  }

  /** The usual decimal numeral of `n`. */
  function Decimal(n: nat): (r: string)
    ensures AllDigits(r) && |r| > 0
  {
    if n < 10 then [DigitChar(n)] else Decimal(n / 10) + [DigitChar(n % 10)]
  }

  lemma {:induction false} DecimalValue(n: nat)
    ensures DigitsValue(Decimal(n)) == n
  {
    if n >= 10 {
      DecimalValue(n / 10);
      var d := Decimal(n);
      assert d[..|d| - 1] == Decimal(n / 10);
    }
  }

  lemma {:induction false} DigitPrefixOfDigits(d: string, rest: string)
    requires AllDigits(d)
    requires rest == [] || !IsDigit(rest[0])
    ensures DigitPrefix(d + rest) == d
  {
    if d != [] {
      assert (d + rest)[1..] == d[1..] + rest;
      DigitPrefixOfDigits(d[1..], rest);
    } else {
      assert d + rest == rest;
    }
  }

  /** A numeral followed by anything that does not start with a digit parses
      as that number (`parseInt("20")` is 20, `parseInt("20abc")` is 20). */
  lemma ParseNumeral(n: nat, rest: string)
    requires rest == [] || !IsDigit(rest[0])
    ensures ParseInt(Decimal(n) + rest) == Some(n)
    ensures ParseInt("-" + Decimal(n) + rest) == Some(-(n as int))
  {
    var d := Decimal(n);
    DecimalValue(n);
    DigitPrefixOfDigits(d, rest);
    assert SkipSpaces(d + rest) == d + rest;
    var m := "-" + d + rest;
    assert SkipSpaces(m) == m;
    assert m[1..] == d + rest;
  }

  /** A string with no digit after its sign is NaN (`parseInt("abc")`). */
  lemma NoDigitIsNaN(s: string)
    requires |s| > 0 && !IsDigit(s[0]) && !IsSpace(s[0]) && s[0] != '-' && s[0] != '+'
    ensures ParseInt(s) == None
  {
  }
}
