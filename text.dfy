/**
 * The two string primitives of Python that the labeler relies on:
 * `str.strip()` (no argument) and `str.split(sep)` with a one-character separator.
 * Stripping is defined for any class of characters, because `int()` skips a slightly
 * smaller set of white space than `str.strip()` removes.
 */
module Text {

  /** Python's `str.isspace()` for one character. */
  predicate IsSpace(c: char)
  {
    || ('\U{9}' <= c <= '\U{D}')
    || ('\U{1C}' <= c <= '\U{20}')
    || c == '\U{85}' || c == '\U{A0}' || c == '\U{1680}'
    || ('\U{2000}' <= c <= '\U{200A}')
    || c == '\U{2028}' || c == '\U{2029}' || c == '\U{202F}' || c == '\U{205F}' || c == '\U{3000}'
  }

  /** Every character of `s` is in the class `ws`. */
  predicate AllIn(ws: char -> bool, s: string)
  {
    forall k :: 0 <= k < |s| ==> ws(s[k])
  }

  predicate AllSpace(s: string)
  {
    AllIn(IsSpace, s)
  }

  /** `s` after its leading characters of class `ws` (`lstrip` for `str.isspace`). */
  function StripLeft(ws: char -> bool, s: string): (r: string)
    ensures |r| <= |s|
    ensures r == [] || !ws(r[0])
  {
    if |s| > 0 && ws(s[0]) then StripLeft(ws, s[1..]) else s
  }

  /** What the left strip keeps is a suffix, and what it removes is all of class `ws`. */
  lemma {:induction false} StripLeftSplits(ws: char -> bool, s: string)
    ensures var r := StripLeft(ws, s); r == s[|s| - |r|..] && AllIn(ws, s[..|s| - |r|])
  {
    if |s| > 0 && ws(s[0]) {
      var t := s[1..];
      StripLeftSplits(ws, t);
      var r := StripLeft(ws, t);
      assert t[|t| - |r|..] == s[|s| - |r|..];
      forall k | 0 <= k < |s| - |r| ensures ws(s[k]) {
        if k > 0 {
          assert s[k] == t[..|t| - |r|][k - 1];
        }
      }
    }
  }

  /** `s` before its trailing characters of class `ws` (`rstrip` for `str.isspace`). */
  function StripRight(ws: char -> bool, s: string): (r: string)
    ensures |r| <= |s|
    ensures r == [] || !ws(r[|r| - 1])
    ensures r == [] || r[0] == s[0]
  {
    if |s| > 0 && ws(s[|s| - 1]) then StripRight(ws, s[..|s| - 1]) else s
  }

  /** What the right strip keeps is a prefix, and what it removes is all of class `ws`. */
  lemma {:induction false} StripRightSplits(ws: char -> bool, s: string)
    ensures var r := StripRight(ws, s); r == s[..|r|] && AllIn(ws, s[|r|..])
  {
    if |s| > 0 && ws(s[|s| - 1]) {
      var t := s[..|s| - 1];
      StripRightSplits(ws, t);
      var r := StripRight(ws, t);
      assert t[..|r|] == s[..|r|];
      forall k | |r| <= k < |s| ensures ws(s[k]) {
        if k < |s| - 1 {
          assert s[k] == t[|r|..][k - |r|];
        }
      }
    }
  }

  /** `s` without its leading and trailing characters of class `ws`. */
  function StripWith(ws: char -> bool, s: string): (r: string)
    ensures |r| <= |s|
    ensures r == [] || (!ws(r[0]) && !ws(r[|r| - 1]))
  {
    StripRight(ws, StripLeft(ws, s))
  }

  /** Stripping gives nothing exactly when every character is of the class stripped. */
  lemma StripWithBlank(ws: char -> bool, s: string)
    ensures StripWith(ws, s) == [] <==> AllIn(ws, s)
  {
    var l := StripLeft(ws, s);
    StripLeftSplits(ws, s);
    StripRightSplits(ws, l);
    if StripWith(ws, s) == [] {
      assert l[|StripRight(ws, l)|..] == l;
      assert s[..|s| - |l|] == s;
    } else {
      assert forall k :: 0 <= k < |l| ==> l[k] == s[|s| - |l| + k];
    }
  }

  /** What is kept is a slice of the input, so every kept character occurs in it. */
  lemma StripWithInside(ws: char -> bool, s: string)
    ensures forall k :: 0 <= k < |StripWith(ws, s)| ==> StripWith(ws, s)[k] in s
  {
    var l := StripLeft(ws, s);
    var r := StripRight(ws, l);
    StripLeftSplits(ws, s);
    StripRightSplits(ws, l);
    forall k | 0 <= k < |r| ensures r[k] in s {
      assert r[k] == l[k];
      assert l[k] == s[|s| - |l| + k];
    }
  }

  /** Stripping a string whose ends are not of the class leaves it as it is. */
  lemma StripWithTrimmed(ws: char -> bool, s: string)
    requires s == [] || (!ws(s[0]) && !ws(s[|s| - 1]))
    ensures StripWith(ws, s) == s
  {
  }

  /** `s.strip()`: `s` without its leading and trailing white space. */
  function Strip(s: string): (r: string)
    ensures |r| <= |s|
    ensures r == [] || (!IsSpace(r[0]) && !IsSpace(r[|r| - 1]))
  {
    StripWith(IsSpace, s)
  }

  /** `s.strip()` is empty exactly when `s` is all white space. */
  lemma StripBlank(s: string)
    ensures Strip(s) == [] <==> AllSpace(s)
  {
    StripWithBlank(IsSpace, s);
  }

  /** Stripping a string whose ends are not white space leaves it as it is. */
  lemma StripTrimmed(s: string)
    requires s == [] || (!IsSpace(s[0]) && !IsSpace(s[|s| - 1]))
    ensures Strip(s) == s
  {
    StripWithTrimmed(IsSpace, s);
  }

  /** Stripping twice is stripping once. */
  lemma StripIdempotent(s: string)
    ensures Strip(Strip(s)) == Strip(s)
  {
    StripTrimmed(Strip(s));
  }

  /** `s.split(c)`: the maximal `c`-free pieces of `s`, in order; never empty. */
  function Split(s: string, c: char): (parts: seq<string>)
    ensures |parts| >= 1
    ensures forall p :: p in parts ==> c !in p
    ensures JoinWith(parts, c) == s
    ensures c !in s ==> parts == [s]
  {
    if |s| == 0 then [""]
    else if s[0] == c then [""] + Split(s[1..], c)
    else
      var rest := Split(s[1..], c);
      ExtendFirst(s[0], rest, c);
      assert s == [s[0]] + s[1..];
      [[s[0]] + rest[0]] + rest[1..]
  }

  /** Prefixing a non-separator to the first piece prefixes it to the join and keeps every piece separator-free. */
  lemma ExtendFirst(h: char, rest: seq<string>, c: char)
    requires |rest| >= 1 && h != c
    requires forall p :: p in rest ==> c !in p
    ensures var parts := [[h] + rest[0]] + rest[1..];
      && JoinWith(parts, c) == [h] + JoinWith(rest, c)
      && forall p :: p in parts ==> c !in p
  {
    var parts := [[h] + rest[0]] + rest[1..];
    if |rest| > 1 {
      assert parts[1..] == rest[1..];
    }
    forall p | p in parts ensures c !in p {
      if p != parts[0] {
        assert p in rest[1..];
      } else {
        assert rest[0] in rest;
      }
    }
  }

  /** `c.join(parts)`: the inverse of `Split`. */
  function JoinWith(parts: seq<string>, c: char): string
    requires |parts| >= 1
  {
    if |parts| == 1 then parts[0] else parts[0] + [c] + JoinWith(parts[1..], c)
  }

  lemma {:induction false} JoinWithAppend(p: seq<string>, q: seq<string>, c: char)
    requires |p| >= 1 && |q| >= 1
    ensures JoinWith(p + q, c) == JoinWith(p, c) + [c] + JoinWith(q, c)
  {
    if |p| > 1 {
      assert (p + q)[1..] == p[1..] + q;
      JoinWithAppend(p[1..], q, c);
    } else {
      assert (p + q)[1..] == q;
    }
  }

  /** Splitting a join of separator-free pieces gives the pieces back. */
  lemma {:induction false} SplitJoin(parts: seq<string>, c: char)
    requires |parts| >= 1
    requires forall p :: p in parts ==> c !in p
    ensures Split(JoinWith(parts, c), c) == parts
  {
    if |parts| > 1 {
      SplitJoin(parts[1..], c);
      SplitAround(parts[0], JoinWith(parts[1..], c), c);
      assert [parts[0]] + parts[1..] == parts;
    }
  }

  /** Splitting at one separator splits each side independently. */
  lemma {:induction false} SplitAround(a: string, b: string, c: char)
    requires c !in a
    ensures Split(a + [c] + b, c) == [a] + Split(b, c)
  {
    if |a| == 0 {
      assert a + [c] + b == [c] + b;
      assert ([c] + b)[1..] == b;
    } else {
      assert (a + [c] + b)[1..] == a[1..] + [c] + b;
      SplitAround(a[1..], b, c);
      assert [a[0]] + a[1..] == a;
    }
  }

  /** The general form: a separator between two strings separates their pieces. */
  lemma SplitConcat(a: string, b: string, c: char)
    ensures Split(a + [c] + b, c) == Split(a, c) + Split(b, c)
  {
    var p, q := Split(a, c), Split(b, c);
    JoinWithAppend(p, q, c);
    SplitJoin(p + q, c);
  }

  /** The first piece is the longest prefix free of the separator. */
  lemma SplitHead(s: string, c: char)
    ensures var h := Split(s, c)[0];
      |h| <= |s| && s[..|h|] == h && c !in h && (|h| == |s| || s[|h|] == c)
  {
    var parts := Split(s, c);
    if |parts| > 1 {
      assert s == parts[0] + [c] + JoinWith(parts[1..], c);
      assert s[..|parts[0]|] == parts[0];
    }
  }
}
