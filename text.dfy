/**
 * The JavaScript string built-ins the query engine relies on, restated over
 * `string` (a `seq<char>`): `trim`, `split`, `join`, the quote doubling of
 * `replace(/'/g, "''")`, and `parseFloat`, `Number` and `String(number)`
 * restricted to integers.
 */
module Text {
  import opened Wrappers

  // ---------------------------------------------------------------------------
  // trim
  // ---------------------------------------------------------------------------

  /** The WhiteSpace and LineTerminator code points that `trim` and `parseFloat` skip. */
  predicate IsWhitespace(c: char) {
    || c == ' ' || c == '\t' || c == '\n' || c == '\r' || c == '\U{000B}' || c == '\U{000C}'
    || c == '\U{00A0}' || c == '\U{FEFF}' || c == '\U{1680}' || ('\U{2000}' <= c <= '\U{200A}')
    || c == '\U{2028}' || c == '\U{2029}' || c == '\U{202F}' || c == '\U{205F}' || c == '\U{3000}'
  }

  /** `s` without its leading white space. */
  function TrimStart(s: string): (r: string)
    ensures |r| <= |s|
  {
    if s != [] && IsWhitespace(s[0]) then TrimStart(s[1..]) else s
  }

  /** `TrimStart` removes exactly the leading white space: what it drops is white space, and it stops at the first other character. */
  lemma {:induction false} TrimStartSpec(s: string)
    ensures var r := TrimStart(s);
            && r == s[|s| - |r|..]
            && (forall k :: 0 <= k < |s| - |r| ==> IsWhitespace(s[k]))
            && (r == [] || !IsWhitespace(r[0]))
  {
    if s != [] && IsWhitespace(s[0]) {
      TrimStartSpec(s[1..]);
    }
  }

  /** `s` without its trailing white space. */
  function TrimEnd(s: string): (r: string)
    ensures |r| <= |s|
  {
    if s != [] && IsWhitespace(s[|s| - 1]) then TrimEnd(s[..|s| - 1]) else s
  }

  /** `TrimEnd` removes exactly the trailing white space. */
  lemma {:induction false} TrimEndSpec(s: string)
    ensures var r := TrimEnd(s);
            && r == s[..|r|]
            && (forall k :: |r| <= k < |s| ==> IsWhitespace(s[k]))
            && (r == [] || !IsWhitespace(r[|r| - 1]))
  {
    if s != [] && IsWhitespace(s[|s| - 1]) {
      TrimEndSpec(s[..|s| - 1]);
    }
  }

  /** `String.prototype.trim`: both ends' white space removed. */
  function Trim(s: string): (r: string)
    ensures |r| <= |s|
  {
    TrimEnd(TrimStart(s))
  }

  /** The trimmed text has no white space at either end, and it is empty exactly when `s` is all white space. */
  lemma TrimSpec(s: string)
    ensures var r := Trim(s);
            && (r == [] || (!IsWhitespace(r[0]) && !IsWhitespace(r[|r| - 1])))
            && (r == [] <==> forall k :: 0 <= k < |s| ==> IsWhitespace(s[k]))
  {
    var t := TrimStart(s);
    TrimStartSpec(s);
    TrimEndSpec(t);
    var r := TrimEnd(t);
    if r != [] {
      assert r[0] == t[0];
    }
    if r == [] {
      assert |t| == 0;
    } else {
      assert !IsWhitespace(s[|s| - |t|]);
    }
  }

  /** Trimming a string that neither starts nor ends with white space changes nothing. */
  lemma TrimOfTrimmed(s: string)
    requires s == [] || (!IsWhitespace(s[0]) && !IsWhitespace(s[|s| - 1]))
    ensures Trim(s) == s
  {
  }

  // ---------------------------------------------------------------------------
  // split and join
  // ---------------------------------------------------------------------------

  /** `s.split(sep)` for a one-character separator: never empty. */
  function Split(s: string, sep: char): (parts: seq<string>)
    ensures |parts| >= 1
  {
    if s == [] then [""]
    else
      var rest := Split(s[1..], sep);
      if s[0] == sep then [""] + rest else [[s[0]] + rest[0]] + rest[1..]
  }

  /** No part of a split holds the separator. */
  lemma {:induction false} SplitHasNoSeparator(s: string, sep: char)
    ensures forall i :: 0 <= i < |Split(s, sep)| ==> sep !in Split(s, sep)[i]
  {
    if s != [] {
      SplitHasNoSeparator(s[1..], sep);
      var rest := Split(s[1..], sep);
      if s[0] != sep {
        assert sep !in [s[0]] + rest[0];
      }
    }
  }

  /** `parts.join(sep)`. */
  function Join(parts: seq<string>, sep: string): string
  {
    if parts == [] then ""
    else if |parts| == 1 then parts[0]
    else parts[0] + sep + Join(parts[1..], sep)
  }

  /** Joining the parts of a split with the separator gives back the original string. */
  lemma {:induction false} JoinSplit(s: string, sep: char)
    ensures Join(Split(s, sep), [sep]) == s
  {
    if s != [] {
      var rest := Split(s[1..], sep);
      JoinSplit(s[1..], sep);
      if s[0] == sep {
        assert Split(s, sep) == [""] + rest;
        assert ([""] + rest)[1..] == rest;
      } else {
        var parts := Split(s, sep);
        assert parts == [[s[0]] + rest[0]] + rest[1..];
        if |rest| == 1 {
          assert Join(parts, [sep]) == [s[0]] + rest[0];
        } else {
          assert parts[1..] == rest[1..];
          assert Join(rest, [sep]) == rest[0] + [sep] + Join(rest[1..], [sep]);
        }
      }
    }
  }

  /** A string without the separator splits into itself alone. */
  lemma {:induction false} SplitWithoutSeparator(s: string, sep: char)
    requires sep !in s
    ensures Split(s, sep) == [s]
  {
    if s != [] {
      SplitWithoutSeparator(s[1..], sep);
      assert s[0] != sep;
      assert [s[0]] + s[1..] == s;
    }
  }

  /** Splitting `a + sep + b`, where `a` has no separator, yields `a` and then the parts of `b`. */
  lemma {:induction false} SplitAfterFirst(a: string, sep: char, b: string)
    requires sep !in a
    ensures Split(a + [sep] + b, sep) == [a] + Split(b, sep)
  {
    var s := a + [sep] + b;
    if a == [] {
      assert s[1..] == b;
    } else {
      assert s[1..] == a[1..] + [sep] + b;
      SplitAfterFirst(a[1..], sep, b);
      assert [a[0]] + a[1..] == a;
    }
  }

  /** Splitting a join of separator-free parts gives the parts back. */
  lemma {:induction false} SplitJoin(parts: seq<string>, sep: char)
    requires |parts| >= 1
    requires forall i :: 0 <= i < |parts| ==> sep !in parts[i]
    ensures Split(Join(parts, [sep]), sep) == parts
  {
    if |parts| == 1 {
      SplitWithoutSeparator(parts[0], sep);
    } else {
      SplitJoin(parts[1..], sep);
      SplitAfterFirst(parts[0], sep, Join(parts[1..], [sep]));
      assert [parts[0]] + parts[1..] == parts;
    }
  }

  // ---------------------------------------------------------------------------
  // SQL-style single quoting
  // ---------------------------------------------------------------------------

  /** `s.replace(/'/g, "''")`: every single quote doubled. */
  function DoubleQuotes(s: string): (r: string)
    ensures |r| >= |s|
  {
    if s == [] then ""
    else (if s[0] == '\'' then "''" else [s[0]]) + DoubleQuotes(s[1..])
  }

  /** The inverse of `DoubleQuotes`: fails on a quote that is not doubled. */
  function UndoubleQuotes(t: string): Option<string>
  {
    if t == [] then Some("")
    else if t[0] == '\'' then
      if |t| >= 2 && t[1] == '\'' then
        match UndoubleQuotes(t[2..])
        case Some(r) => Some("'" + r)
        case None => None
      else None
    else
      match UndoubleQuotes(t[1..])
      case Some(r) => Some([t[0]] + r)
      case None => None
  }

  /** The SQL string literal for `s`: quotes around, embedded quotes doubled. */
  function QuoteSql(s: string): (r: string)
    ensures |r| >= 2 && r[0] == '\'' && r[|r| - 1] == '\''
  {
    "'" + DoubleQuotes(s) + "'"
  }

  /** Reads an SQL string literal back. */
  function UnquoteSql(t: string): Option<string>
  {
    if |t| >= 2 && t[0] == '\'' && t[|t| - 1] == '\'' then UndoubleQuotes(t[1..|t| - 1]) else None
  }

  lemma {:induction false} UndoubleDouble(s: string)
    ensures UndoubleQuotes(DoubleQuotes(s)) == Some(s)
  {
    if s != [] {
      UndoubleDouble(s[1..]);
      var t := DoubleQuotes(s);
      if s[0] == '\'' {
        assert t == "''" + DoubleQuotes(s[1..]);
        assert t[2..] == DoubleQuotes(s[1..]);
      } else {
        assert t == [s[0]] + DoubleQuotes(s[1..]);
        assert t[1..] == DoubleQuotes(s[1..]);
      }
      assert [s[0]] + s[1..] == s;
    }
  }

  /** Quoting is reversible: the literal reads back as the original text. */
  lemma QuoteRoundTrip(s: string)
    ensures UnquoteSql(QuoteSql(s)) == Some(s)
  {
    var t := QuoteSql(s);
    assert t[1..|t| - 1] == DoubleQuotes(s);
    UndoubleDouble(s);
  }

  /** Doubling quotes works piece by piece. */
  lemma {:induction false} DoubleQuotesAppend(a: string, b: string)
    ensures DoubleQuotes(a + b) == DoubleQuotes(a) + DoubleQuotes(b)
  {
    if a == [] {
      assert a + b == b;
    } else {
      var h := if a[0] == '\'' then "''" else [a[0]];
      var ab := a + b;
      assert ab[0] == a[0] && ab[1..] == a[1..] + b;
      DoubleQuotesAppend(a[1..], b);
      calc {
        DoubleQuotes(ab);
        h + DoubleQuotes(a[1..] + b);
        h + (DoubleQuotes(a[1..]) + DoubleQuotes(b));
        (h + DoubleQuotes(a[1..])) + DoubleQuotes(b);
        DoubleQuotes(a) + DoubleQuotes(b);
      }
    }
  }

  /** A single quote between two quote-free texts is the only one doubled. */
  lemma QuoteBetween(a: string, b: string)
    requires '\'' !in a && '\'' !in b
    ensures QuoteSql(a + "'" + b) == "'" + a + "''" + b + "'"
  {
    var rest := "'" + b;
    QuoteThenText(b);
    DoubleQuotesAppend(a, rest);
    QuoteWithoutQuotes(a);
    assert DoubleQuotes(a + rest) == a + ("''" + b);
    assert a + "'" + b == a + rest;
  }

  /** A leading quote is doubled and quote-free text after it is kept. */
  lemma QuoteThenText(b: string)
    requires '\'' !in b
    ensures DoubleQuotes("'" + b) == "''" + b
  {
    DoubleQuotesAppend("'", b);
    QuoteWithoutQuotes(b);
    assert DoubleQuotes("'") == "''";
  }

  /** Text without a single quote is quoted by wrapping alone. */
  lemma {:induction false} QuoteWithoutQuotes(s: string)
    requires '\'' !in s
    ensures QuoteSql(s) == "'" + s + "'"
    ensures DoubleQuotes(s) == s
  {
    if s != [] {
      QuoteWithoutQuotes(s[1..]);
      assert [s[0]] + s[1..] == s;
    }
  }

  // ---------------------------------------------------------------------------
  // integers: String(n), parseFloat and Number
  // ---------------------------------------------------------------------------

  predicate IsDigit(c: char) { '0' <= c <= '9' }

  predicate AllDigits(s: string) { forall i :: 0 <= i < |s| ==> IsDigit(s[i]) }

  function DigitChar(d: nat): (c: char)
    requires d < 10
    ensures IsDigit(c) && (c as int) - ('0' as int) == d
  {
    (('0' as int) + d) as char
  }

  /** Decimal digits of `n`, most significant first, no leading zeros. */
  function NatToString(n: nat): (s: string)
    ensures |s| >= 1 && AllDigits(s)
  {
    if n < 10 then [DigitChar(n)] else NatToString(n / 10) + [DigitChar(n % 10)]
  }

  /** `String(n)` for an integer `n`. */
  function IntToString(n: int): (s: string)
    ensures |s| >= 1
  {
    if n < 0 then "-" + NatToString(-n) else NatToString(n)
  }

  /** The number a string of decimal digits denotes. */
  function DigitsValue(s: string): nat
    requires AllDigits(s)
  {
    if s == [] then 0 else DigitsValue(s[..|s| - 1]) * 10 + ((s[|s| - 1] as int) - ('0' as int))
  }

  lemma {:induction false} DigitsValueOfNatToString(n: nat)
    ensures DigitsValue(NatToString(n)) == n
  {
    if n >= 10 {
      var s := NatToString(n);
      var p := NatToString(n / 10);
      assert s == p + [DigitChar(n % 10)];
      assert s[..|s| - 1] == p;
      DigitsValueOfNatToString(n / 10);
    }
  }

  /** The longest prefix of `s` made of decimal digits. */
  function LeadingDigits(s: string): (d: string)
    ensures |d| <= |s| && d == s[..|d|] && AllDigits(d)
    ensures |d| < |s| ==> !IsDigit(s[|d|])
  {
    if s != [] && IsDigit(s[0]) then [s[0]] + LeadingDigits(s[1..]) else ""
  }

  lemma LeadingDigitsOfDigits(s: string)
    requires AllDigits(s)
    ensures LeadingDigits(s) == s
  {
  }

  /**
   * `parseFloat(s)` over integers: leading white space is skipped, an optional
   * sign is read, then the longest run of decimal digits; without a digit the
   * result is NaN (`None`). Text after the digits is ignored.
   */
  function ParseNumber(s: string): (r: Option<int>)
  {
    ParseSigned(TrimStart(s))
  }

  /** The sign-and-digits part of `ParseNumber`, once white space is skipped. */
  function ParseSigned(t: string): Option<int>
  {
    if |t| > 0 && t[0] == '-' then
      match ParseDigits(t[1..])
      case None => None
      case Some(n) => Some(-n)
    else if |t| > 0 && t[0] == '+' then ParseDigits(t[1..])
    else ParseDigits(t)
  }

  /** The value of the leading run of digits, `None` when there is none. */
  function ParseDigits(t: string): Option<int>
  {
    var digits := LeadingDigits(t);
    if digits == "" then None else Some(DigitsValue(digits))
  }

  /** A run of digits parses to its value. */
  lemma ParseUnsignedDigits(d: string)
    requires |d| >= 1 && AllDigits(d)
    ensures ParseNumber(d) == Some(DigitsValue(d))
  {
    assert IsDigit(d[0]);
    assert TrimStart(d) == d;
    LeadingDigitsOfDigits(d);
  }

  /** Text that starts with no white space is read by its sign and digits alone. */
  lemma ParseUntrimmed(t: string)
    requires t != [] && !IsWhitespace(t[0])
    ensures ParseNumber(t) == ParseSigned(t)
  {
    assert TrimStart(t) == t;
  }

  /** A run of digits reads as its value. */
  lemma ParseDigitsOfDigits(d: string)
    requires |d| >= 1 && AllDigits(d)
    ensures ParseDigits(d) == Some(DigitsValue(d) as int)
  {
    LeadingDigitsOfDigits(d);
  }

  /** A minus sign before a run of digits negates its value. */
  lemma ParseNegativeDigits(t: string)
    requires |t| >= 2 && t[0] == '-' && AllDigits(t[1..])
    ensures ParseNumber(t) == Some(-(DigitsValue(t[1..]) as int))
  {
    ParseUntrimmed(t);
    ParseDigitsOfDigits(t[1..]);
  }

  /** The text `String(n)` produces parses back to `n`. */
  lemma NumberRoundTrip(n: int)
    ensures ParseNumber(IntToString(n)) == Some(n)
  {
    if n < 0 {
      var d := NatToString(-n);
      var t := IntToString(n);
      assert t == "-" + d && t[1..] == d;
      ParseNegativeDigits(t);
      DigitsValueOfNatToString(-n);
    } else {
      var d := NatToString(n);
      assert IntToString(n) == d;
      ParseUnsignedDigits(d);
      DigitsValueOfNatToString(n);
    }
  }


  /**
   * `Number(s)` over integers: the whole trimmed text must be a signed decimal
   * integer or an unsigned `0x`, `0o` or `0b` literal; the empty text is 0;
   * anything else is NaN (`None`).
   */
  function StrictNumber(s: string): (r: Option<int>)
  {
    var t := Trim(s);
    if t == "" then Some(0)
    else if AllDigits(t) then Some(DigitsValue(t))
    else if |t| >= 2 && (t[0] == '-' || t[0] == '+') && AllDigits(t[1..]) then
      Some(if t[0] == '-' then -(DigitsValue(t[1..]) as int) else DigitsValue(t[1..]))
    else if |t| > 2 && PrefixRadix(t).Some? && AllRadixDigits(t[2..], PrefixRadix(t).value) then
      Some(RadixValue(t[2..], PrefixRadix(t).value))
    else None
  }

  /** The base a `0x`, `0o` or `0b` prefix (of either case) announces. */
  function PrefixRadix(t: string): (r: Option<nat>)
    ensures r.Some? <==> |t| >= 2 && t[0] == '0' && t[1] in "xXoObB"
    ensures r.Some? ==> r.value == (if t[1] in "xX" then 16 else if t[1] in "oO" then 8 else 2)
  {
    if |t| < 2 || t[0] != '0' then None
    else if t[1] == 'x' || t[1] == 'X' then Some(16)
    else if t[1] == 'o' || t[1] == 'O' then Some(8)
    else if t[1] == 'b' || t[1] == 'B' then Some(2)
    else None
  }

  /** The value of a digit in bases up to 16 (letters of either case); 16 for any other character. */
  function RadixDigitValue(c: char): nat
  {
    if '0' <= c <= '9' then (c as int) - ('0' as int)
    else if 'a' <= c <= 'f' then (c as int) - ('a' as int) + 10
    else if 'A' <= c <= 'F' then (c as int) - ('A' as int) + 10
    else 16
  }

  predicate AllRadixDigits(s: string, radix: nat) { forall i :: 0 <= i < |s| ==> RadixDigitValue(s[i]) < radix }

  /** The number the digits `s` denote in base `radix`. */
  function RadixValue(s: string, radix: nat): nat
  {
    if s == [] then 0 else RadixValue(s[..|s| - 1], radix) * radix + RadixDigitValue(s[|s| - 1])
  }

  /** In base 10 the digits are the decimal digits, with their decimal value. */
  lemma {:induction false} RadixValueDecimal(s: string)
    ensures AllRadixDigits(s, 10) <==> AllDigits(s)
    ensures AllDigits(s) ==> RadixValue(s, 10) == DigitsValue(s)
  {
    if s != [] {
      RadixValueDecimal(s[..|s| - 1]);
      var init := s[..|s| - 1];
      if AllDigits(s) {
        assert AllDigits(init) by {
          forall i | 0 <= i < |init| ensures IsDigit(init[i]) {
            assert init[i] == s[i];
          }
        }
      }
    }
  }

  /**
   * `Number` reads an unsigned `0x`, `0o` or `0b` literal in its base; a sign
   * in front of one makes the text NaN.
   */
  lemma NonDecimalNumber(t: string, radix: nat)
    requires |t| > 2 && PrefixRadix(t) == Some(radix) && AllRadixDigits(t[2..], radix)
    ensures StrictNumber(t) == Some(RadixValue(t[2..], radix))
    ensures StrictNumber("-" + t) == None && StrictNumber("+" + t) == None
  {
    assert RadixDigitValue(t[|t| - 1]) < radix by { assert t[|t| - 1] == t[2..][|t| - 3]; }
    TrimOfTrimmed(t);
    assert !IsDigit(t[1]);
    SignedPrefixIsNaN('-', t);
    SignedPrefixIsNaN('+', t);
  }

  /** A sign before a text starting with `0` and a letter makes the text NaN to `Number`. */
  lemma SignedPrefixIsNaN(sign: char, t: string)
    requires sign == '-' || sign == '+'
    requires |t| > 2 && t[0] == '0' && !IsDigit(t[1]) && !IsWhitespace(t[|t| - 1])
    ensures StrictNumber([sign] + t) == None
  {
    var u := [sign] + t;
    assert u[1..] == t && u[|u| - 1] == t[|t| - 1];
    TrimOfTrimmed(u);
    assert !IsDigit(u[0]) && !IsDigit(u[2]);
    assert !AllDigits(u[1..]);
  }
}
