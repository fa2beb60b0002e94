/**
 * Python's conversions between integers and their decimal text:
 * `str(x)` (and f-string interpolation) for formatting, `int(s)` for parsing.
 */
module PyInt {
  import opened Results
  import opened Text

  predicate IsDigit(c: char)
  {
    '0' <= c <= '9'
  }

  function DigitChar(d: nat): (c: char)
    requires d < 10
    ensures IsDigit(c)
  {
    ('0' as int + d) as char
  }

  function DigitValue(c: char): (d: nat)
    requires IsDigit(c)
    ensures d < 10
  {
    c as int - '0' as int
  }

  /** `str(n)` for a natural number: its decimal digits, without leading zeros. */
  function NatToString(n: nat): (r: string)
    ensures |r| >= 1
    ensures forall k :: 0 <= k < |r| ==> IsDigit(r[k])
    ensures r[0] == '0' ==> n == 0
  {
    if n < 10 then [DigitChar(n)] else NatToString(n / 10) + [DigitChar(n % 10)]
  }

  /** `str(x)`: a minus sign for negative numbers, then the digits of the magnitude. */
  function IntToString(x: int): (r: string)
    ensures |r| >= 1 && IsDigit(r[|r| - 1])
    ensures forall k :: 0 <= k < |r| ==> IsDigit(r[k]) || (k == 0 && r[k] == '-')
    ensures r[0] == '-' <==> x < 0
  {
    if x < 0 then "-" + NatToString(-x) else NatToString(x)
  }

  /** Python's digit grammar for base 10: digits, with single underscores allowed between digits. */
  predicate DigitRun(s: string)
  {
    && |s| >= 1
    && IsDigit(s[0])
    && IsDigit(s[|s| - 1])
    && (forall k :: 0 <= k < |s| ==> IsDigit(s[k]) || s[k] == '_')
    && (forall k :: 0 <= k < |s| - 1 ==> s[k] == '_' ==> IsDigit(s[k + 1]))
  }

  /** The number a run of digits denotes; underscores are ignored. */
  function DigitsValue(s: string): nat
    requires forall k :: 0 <= k < |s| ==> IsDigit(s[k]) || s[k] == '_'
  {
    if s == [] then 0
    else if s[|s| - 1] == '_' then DigitsValue(s[..|s| - 1])
    else DigitsValue(s[..|s| - 1]) * 10 + DigitValue(s[|s| - 1])
  }

  /**
   * The white space `int()` skips around a literal: `" \t\n\v\f\r"` and every non-ASCII
   * character `str.isspace()` accepts. The ASCII separators U+001C..U+001F, which
   * `str.isspace()` also accepts, are not skipped.
   */
  predicate IntSpace(c: char)
  {
    IsSpace(c) && !('\U{1C}' <= c <= '\U{1F}')
  }

  /**
   * `int(s)`: surrounding white space of `IntSpace` is ignored, an optional sign is allowed,
   * and `None` stands for the `ValueError` Python raises on anything else.
   */
  function ParseInt(s: string): Option<int>
  {
    ParseLiteral(StripWith(IntSpace, s))
  }

  /** Blank text is never an integer. */
  lemma ParseIntBlank(s: string)
    requires AllSpace(s)
    ensures ParseInt(s) == None
  {
    assert forall k :: 0 <= k < |s| ==> IsSpace(s[k]);
    ParseIntNeedsDigit(s);
  }

  /** `int()` skips the tab and the newline around a literal. */
  lemma ParseIntSkipsSpace()
    ensures ParseInt("\t-7\n") == Some(-7)
  {
    var a := "\t-7\n";
    assert StripLeft(IntSpace, a) == "-7\n" by {
      assert a[1..] == "-7\n";
    }
    assert StripRight(IntSpace, "-7\n") == "-7" by {
      assert "-7\n"[..2] == "-7";
    }
    assert DigitRun("7") && DigitsValue("7") == 7 by {
      assert "7"[..0] == [];
    }
    assert "-7"[1..] == "7";
  }

  /** `int()` does not skip the separator U+001C, which `str.strip()` removes. */
  lemma ParseIntKeepsSeparator()
    ensures ParseInt("\U{1C}5") == None
    ensures Strip("\U{1C}5") == "5"
  {
    StripWithTrimmed(IntSpace, "\U{1C}5");
    assert "\U{1C}5"[1..] == "5";
  }

  /**
   * The default of `sys.int_max_str_digits`: `int()` refuses decimal text with more digits
   * than this, and `str()` refuses integers that would print more.
   */
  const MaxStrDigits := 4300

  /** The digits of a text, underscores and signs not counted, leading zeros counted. */
  function DigitCount(s: string): nat
  {
    if s == [] then 0 else (if IsDigit(s[0]) then 1 else 0) + DigitCount(s[1..])
  }

  /** `str(x)` stays within the digit limit, so `str()` does not raise on `x`. */
  predicate WithinStrDigits(x: int)
  {
    |NatToString(if x < 0 then -x else x)| <= MaxStrDigits
  }

  /** `int(t)` for text without surrounding white space: too many digits raise, as does any text off the grammar. */
  function ParseLiteral(t: string): Option<int>
  {
    if DigitCount(t) > MaxStrDigits then None else LiteralValue(t)
  }

  /** The value of a literal by the grammar alone: an optional sign, then a run of digits. */
  function LiteralValue(t: string): Option<int>
  {
    if |t| >= 1 && (t[0] == '+' || t[0] == '-') then
      if DigitRun(t[1..]) then
        var v: int := DigitsValue(t[1..]);
        Some(if t[0] == '-' then -v else v)
      else None
    else if DigitRun(t) then Some(DigitsValue(t))
    else None
  }

  lemma {:induction false} NatToStringValue(n: nat)
    ensures DigitsValue(NatToString(n)) == n
  {
    if n >= 10 {
      var p := NatToString(n / 10);
      var r := NatToString(n);
      assert r == p + [DigitChar(n % 10)];
      assert r[..|r| - 1] == p;
      NatToStringValue(n / 10);
    }
  }

  /** `int(str(x)) == x` for every integer `str()` prints. */
  lemma ParseIntToString(x: int)
    requires WithinStrDigits(x)
    ensures ParseInt(IntToString(x)) == Some(x)
  {
    StripWithTrimmed(IntSpace, IntToString(x));
    LiteralValueToString(x);
    var n: nat := if x < 0 then -x else x;
    DigitCountOfDigits(NatToString(n));
    if x < 0 {
      assert IntToString(x)[1..] == NatToString(n);
    }
  }

  /** Reading the printed text back by the grammar gives the integer, however long. */
  lemma LiteralValueToString(x: int)
    ensures LiteralValue(IntToString(x)) == Some(x)
  {
    var s := IntToString(x);
    var n: nat := if x < 0 then -x else x;
    var d := NatToString(n);
    NatDigitRun(n);
    NatToStringValue(n);
    if x < 0 {
      assert s[1..] == d;
    } else {
      assert s == d;
    }
  }

  lemma NatDigitRun(n: nat)
    ensures DigitRun(NatToString(n))
  {
  }

  /** Different integers print differently. */
  lemma IntToStringInjective(x: int, y: int)
    requires IntToString(x) == IntToString(y)
    ensures x == y
  {
    LiteralValueToString(x);
    LiteralValueToString(y);
  }

  /** Text with no digit at all is never an integer. */
  lemma ParseIntNeedsDigit(s: string)
    requires forall k :: 0 <= k < |s| ==> !IsDigit(s[k])
    ensures ParseInt(s) == None
  {
    StripWithInside(IntSpace, s);
  }

  /** `int()` rejects any text with more than `MaxStrDigits` digits, such as `'1' * 4301`. */
  lemma ParseIntDigitLimit(s: string)
    requires DigitCount(s) > MaxStrDigits
    ensures ParseInt(s) == None
  {
    var l := StripLeft(IntSpace, s);
    var t := StripWith(IntSpace, s);
    StripLeftSplits(IntSpace, s);
    StripRightSplits(IntSpace, l);
    assert s == s[..|s| - |l|] + l;
    assert l == t + l[|t|..];
    DigitCountAppend(s[..|s| - |l|], l);
    DigitCountAppend(t, l[|t|..]);
    DigitCountOfSpace(s[..|s| - |l|]);
    DigitCountOfSpace(l[|t|..]);
  }

  lemma {:induction false} DigitCountOfDigits(s: string)
    requires forall k :: 0 <= k < |s| ==> IsDigit(s[k])
    ensures DigitCount(s) == |s|
  {
    if s != [] {
      DigitCountOfDigits(s[1..]);
    }
  }

  lemma {:induction false} DigitCountOfSpace(s: string)
    requires AllIn(IntSpace, s)
    ensures DigitCount(s) == 0
  {
    if s != [] {
      assert IntSpace(s[0]);
      DigitCountOfSpace(s[1..]);
    }
  }

  lemma {:induction false} DigitCountAppend(a: string, b: string)
    ensures DigitCount(a + b) == DigitCount(a) + DigitCount(b)
  {
    if a == [] {
      assert a + b == b;
    } else {
      assert (a + b)[0] == a[0] && (a + b)[1..] == a[1..] + b;
      DigitCountAppend(a[1..], b);
    }
  }
}
