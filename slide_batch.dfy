/**
 * The batch of slide files a sampling run processes: the paths the directory pattern
 * matched, sorted as Python sorts strings, cut to the first `N_WSI`.
 */
module SlideBatch {

  /** Python's `a <= b` on strings: code point by code point, a proper prefix first. */
  predicate NotAfter(a: string, b: string)
  {
    if a == [] then true
    else if b == [] then false
    else if a[0] != b[0] then a[0] < b[0]
    else NotAfter(a[1..], b[1..])
  }

  lemma {:induction false} NotAfterTotal(a: string, b: string)
    ensures NotAfter(a, b) || NotAfter(b, a)
  {
    if a != [] && b != [] && a[0] == b[0] {
      NotAfterTotal(a[1..], b[1..]);
    }
  }

  lemma {:induction false} NotAfterTransitive(a: string, b: string, c: string)
    requires NotAfter(a, b) && NotAfter(b, c)
    ensures NotAfter(a, c)
  {
    if a != [] && b != [] && c != [] && a[0] == b[0] && b[0] == c[0] {
      NotAfterTransitive(a[1..], b[1..], c[1..]);
    }
  }

  predicate Sorted(s: seq<string>)
  {
    forall i, j :: 0 <= i < j < |s| ==> NotAfter(s[i], s[j])
  }

  /** Puts `x` into a sorted list before the first element it does not follow. */
  function InsertSorted(x: string, s: seq<string>): (r: seq<string>)
    requires Sorted(s)
    ensures multiset(r) == multiset(s) + multiset{x}
    ensures Sorted(r)
  {
    if s == [] then [x]
    else if NotAfter(x, s[0]) then
      FirstBelowAll(x, s);
      ConsSorted(x, s);
      [x] + s
    else
      NotAfterTotal(x, s[0]);
      var rest := InsertSorted(x, s[1..]);
      assert s == [s[0]] + s[1..];
      HeadBelowInserted(x, s, rest);
      ConsSorted(s[0], rest);
      [s[0]] + rest
  }

  lemma ConsSorted(h: string, t: seq<string>)
    requires Sorted(t)
    requires forall j :: 0 <= j < |t| ==> NotAfter(h, t[j])
    ensures Sorted([h] + t)
  {
    var r := [h] + t;
    forall i, j | 0 <= i < j < |r| ensures NotAfter(r[i], r[j]) {
      assert r[j] == t[j - 1];
      if i > 0 { assert r[i] == t[i - 1]; }
    }
  }

  /** A string not after the head of a sorted list is not after any of its elements. */
  lemma FirstBelowAll(x: string, s: seq<string>)
    requires Sorted(s) && s != [] && NotAfter(x, s[0])
    ensures forall j :: 0 <= j < |s| ==> NotAfter(x, s[j])
  {
    forall j | 0 <= j < |s| ensures NotAfter(x, s[j]) {
      if j > 0 { NotAfterTransitive(x, s[0], s[j]); }
    }
  }

  /** The head of a sorted list is not after anything in its tail with `x` added, when `x` follows it. */
  lemma HeadBelowInserted(x: string, s: seq<string>, rest: seq<string>)
    requires Sorted(s) && s != [] && NotAfter(s[0], x)
    requires multiset(rest) == multiset(s[1..]) + multiset{x}
    ensures forall j :: 0 <= j < |rest| ==> NotAfter(s[0], rest[j])
  {
    forall j | 0 <= j < |rest| ensures NotAfter(s[0], rest[j]) {
      assert rest[j] in multiset(rest);
      if rest[j] != x {
        assert rest[j] in multiset(s[1..]);
        var m :| 0 <= m < |s[1..]| && s[1..][m] == rest[j];
        assert s[m + 1] == rest[j];
      }
    }
  }

  /** `sorted(paths)`. */
  function SortPaths(paths: seq<string>): (r: seq<string>)
    ensures multiset(r) == multiset(paths)
    ensures Sorted(r)
  {
    if paths == [] then []
    else
      assert paths == [paths[0]] + paths[1..];
      InsertSorted(paths[0], SortPaths(paths[1..]))
  }

  /** `s[0:stop]` with Python's clamping of the stop index. */
  function Head(s: seq<string>, stop: int): (r: seq<string>)
    ensures stop >= 0 ==> |r| == if stop < |s| then stop else |s|
    ensures stop < 0 ==> |r| == if |s| + stop > 0 then |s| + stop else 0
    ensures r == s[..|r|]
  {
    var end := if stop < 0 then (if |s| + stop > 0 then |s| + stop else 0)
               else if stop < |s| then stop else |s|;
    s[..end]
  }

  /** `sorted(glob(WSI_DIR_GLOB))[0:N_WSI]`. */
  function Batch(matched: seq<string>, nWsi: int): seq<string>
  {
    Head(SortPaths(matched), nWsi)
  }

  /**
   * The batch holds the first `N_WSI` matched paths in sorted order: it is sorted, each of
   * its paths was matched, and no matched path left out comes before one kept.
   */
  lemma BatchIsSortedPrefix(matched: seq<string>, nWsi: int)
    requires nWsi >= 0
    ensures var b := Batch(matched, nWsi);
      && |b| == (if nWsi < |matched| then nWsi else |matched|)
      && Sorted(b)
      && multiset(b) <= multiset(matched)
      && forall p :: p in multiset(matched) - multiset(b) ==> forall q :: q in b ==> NotAfter(q, p)
  {
    var s := SortPaths(matched);
    var b := Batch(matched, nWsi);
    assert s == b + s[|b|..];
    assert multiset(s) == multiset(b) + multiset(s[|b|..]);
    assert multiset(matched) - multiset(b) == multiset(s[|b|..]);
    SortedCut(s, |b|);
  }

  /** Cutting a sorted list leaves a sorted prefix, none of whose elements comes after one of the rest. */
  lemma SortedCut(s: seq<string>, n: nat)
    requires Sorted(s) && n <= |s|
    ensures Sorted(s[..n])
    ensures forall p :: p in multiset(s[n..]) ==> forall q :: q in s[..n] ==> NotAfter(q, p)
  {
    forall p | p in multiset(s[n..])
      ensures forall q :: q in s[..n] ==> NotAfter(q, p)
    {
      var m :| 0 <= m < |s[n..]| && s[n..][m] == p;
      assert s[n + m] == p;
      forall q | q in s[..n] ensures NotAfter(q, p) {
        var l :| 0 <= l < n && s[..n][l] == q;
        assert s[l] == q;
      }
    }
  }
}
