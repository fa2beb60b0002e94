/**
 * The patch identifier `{slide name}~{ordinal}~{x}.{y}` that the sampler writes as a
 * row key, the labeler's decoding of it, and the slide file path the labeler derives
 * from the decoded slide name.
 */
module PatchId {
  import opened Results
  import opened Text
  import opened PyInt

  /** A decoded identifier, as the labeler unpacks it: the ordinal is never converted and stays text. */
  datatype PatchRef = PatchRef(slideName: string, patchIdx: string, x: int, y: int)

  /** Where decoding raises in the labeler. */
  datatype DecodeError =
    | FieldCount(fields: nat)       // unpacking the '~' fields into three names fails
    | NotAnInteger(text: string)    // int() rejects a coordinate
    | CoordinateCount(coords: nat)  // the crop receives other than two coordinates

  /** The slide file and the top-left corner of the crop a patch identifier points at. */
  datatype PatchLocation = PatchLocation(slidePath: string, x: int, y: int)

  function CoordsText(x: int, y: int): string
  {
    IntToString(x) + "." + IntToString(y)
  }

  lemma CoordsTextSplit(x: int, y: int)
    ensures '~' !in CoordsText(x, y)
    ensures Split(CoordsText(x, y), '.') == [IntToString(x), IntToString(y)]
  {
    var a, b := IntToString(x), IntToString(y);
    assert '.' !in a && '.' !in b;
    assert forall k :: 0 <= k < |a + "." + b| ==> (a + "." + b)[k] != '~';
    SplitAround(a, b, '.');
  }

  /** The key the sampler records for an accepted patch; its last two '~' fields are the ordinal and the coordinates. */
  function Encode(name: string, ordinal: int, x: int, y: int): (pid: string)
    ensures Split(pid, '~') == Split(name, '~') + [IntToString(ordinal), CoordsText(x, y)]
  {
    EncodeSplit(name, IntToString(ordinal), CoordsText(x, y), x, y);
    name + "~" + IntToString(ordinal) + "~" + CoordsText(x, y)
  }

  lemma EncodeSplit(name: string, i: string, c: string, x: int, y: int)
    requires c == CoordsText(x, y)
    requires forall k :: 0 <= k < |i| ==> IsDigit(i[k]) || i[k] == '-'
    ensures Split(name + "~" + i + "~" + c, '~') == Split(name, '~') + [i, c]
  {
    assert '~' !in i by {
      forall k | 0 <= k < |i| ensures i[k] != '~' {
        assert IsDigit(i[k]) || i[k] == '-';
      }
    }
    CoordsTextSplit(x, y);
    TailSplit(i, c);
    SplitConcat(name, i + "~" + c, '~');
    Regroup(name, i, c);
  }

  lemma Regroup(name: string, i: string, c: string)
    ensures name + "~" + i + "~" + c == name + ['~'] + (i + "~" + c)
  {
  }

  lemma TailSplit(i: string, c: string)
    requires '~' !in i && '~' !in c
    ensures Split(i + "~" + c, '~') == [i, c]
  {
    assert Split(c, '~') == [c];
    SplitAround(i, c, '~');
  }

  /** `tuple(map(int, parts))`: every piece converted in order; the first that fails raises. */
  function ParseAll(parts: seq<string>): (r: Result<seq<int>, DecodeError>)
    ensures r.Ok? <==> forall k :: 0 <= k < |parts| ==> ParseInt(parts[k]).Some?
    ensures r.Ok? ==> |r.value| == |parts| && forall k :: 0 <= k < |parts| ==> ParseInt(parts[k]) == Some(r.value[k])
    ensures r.Err? ==> exists k :: 0 <= k < |parts| && ParseInt(parts[k]) == None && r.error == NotAnInteger(parts[k])
                                   && forall j :: 0 <= j < k ==> ParseInt(parts[j]).Some?
  {
    if parts == [] then Ok([])
    else
      match ParseInt(parts[0])
      case None => Err(NotAnInteger(parts[0]))
      case Some(v) =>
        match ParseAll(parts[1..])
        case Err(e) =>
          FirstFailureShifts(parts, e);
          Err(e)
        case Ok(vs) =>
          AllConvertShifts(parts, v, vs);
          Ok([v] + vs)
  }

  /** Values of a tail that all convert, behind a head that converts, are the values of the whole. */
  lemma AllConvertShifts(parts: seq<string>, v: int, vs: seq<int>)
    requires parts != [] && ParseInt(parts[0]) == Some(v)
    requires |vs| == |parts| - 1 && forall k :: 0 <= k < |parts[1..]| ==> ParseInt(parts[1..][k]) == Some(vs[k])
    ensures forall k :: 0 <= k < |parts| ==> ParseInt(parts[k]) == Some(([v] + vs)[k])
  {
    forall k | 0 <= k < |parts| ensures ParseInt(parts[k]) == Some(([v] + vs)[k]) {
      if k > 0 {
        assert parts[k] == parts[1..][k - 1];
      }
    }
  }

  /** A first failing part of the tail, behind a head that converts, is the first failing part of the whole. */
  lemma FirstFailureShifts(parts: seq<string>, e: DecodeError)
    requires parts != [] && ParseInt(parts[0]).Some?
    requires exists k :: 0 <= k < |parts[1..]| && ParseInt(parts[1..][k]) == None && e == NotAnInteger(parts[1..][k])
                         && forall j :: 0 <= j < k ==> ParseInt(parts[1..][j]).Some?
    ensures exists k :: 0 <= k < |parts| && ParseInt(parts[k]) == None && e == NotAnInteger(parts[k])
                        && forall j :: 0 <= j < k ==> ParseInt(parts[j]).Some?
  {
    var k :| 0 <= k < |parts[1..]| && ParseInt(parts[1..][k]) == None && e == NotAnInteger(parts[1..][k])
             && forall j :: 0 <= j < k ==> ParseInt(parts[1..][j]).Some?;
    assert parts[k + 1] == parts[1..][k];
    forall j | 0 <= j < k + 1 ensures ParseInt(parts[j]).Some? {
      if j > 0 {
        assert parts[j] == parts[1..][j - 1];
      }
    }
  }

  /** The labeler's parse of an identifier: three '~' fields, the third two '.'-separated integers. */
  function Decode(pid: string): Result<PatchRef, DecodeError>
  {
    var fields := Split(pid, '~');
    if |fields| != 3 then Err(FieldCount(|fields|))
    else
      match ParseAll(Split(fields[2], '.'))
      case Err(e) => Err(e)
      case Ok(coords) =>
        if |coords| != 2 then Err(CoordinateCount(|coords|))
        else Ok(PatchRef(fields[0], fields[1], coords[0], coords[1]))
  }

  /**
   * Decoding inverts encoding for every slide name without '~', every ordinal, and all
   * coordinates `str()` prints (within `sys.int_max_str_digits`).
   */
  lemma DecodeEncode(name: string, ordinal: int, x: int, y: int)
    requires '~' !in name && WithinStrDigits(x) && WithinStrDigits(y)
    ensures Decode(Encode(name, ordinal, x, y)) == Ok(PatchRef(name, IntToString(ordinal), x, y))
  {
    var fields := Split(Encode(name, ordinal, x, y), '~');
    assert fields == [name, IntToString(ordinal), CoordsText(x, y)];
    CoordsTextSplit(x, y);
    var parts := Split(fields[2], '.');
    ParseIntToString(x);
    ParseIntToString(y);
    ParseAllPair(IntToString(x), IntToString(y), x, y);
  }

  lemma ParseAllPair(a: string, b: string, x: int, y: int)
    requires ParseInt(a) == Some(x) && ParseInt(b) == Some(y)
    ensures ParseAll([a, b]) == Ok([x, y])
  {
    var r := ParseAll([a, b]);
    assert r.Ok? && |r.value| == 2;
    assert ParseInt([a, b][0]) == Some(r.value[0]) && ParseInt([a, b][1]) == Some(r.value[1]);
    assert r.value == [x, y];
  }

  /** A slide name containing '~' yields more than three fields, so its identifiers do not decode. */
  lemma DecodeRejectsTilde(name: string, ordinal: int, x: int, y: int)
    requires '~' in name
    ensures Decode(Encode(name, ordinal, x, y)).Err?
    ensures Decode(Encode(name, ordinal, x, y)).error.FieldCount?
    ensures Decode(Encode(name, ordinal, x, y)).error.fields >= 4
  {
  }

  /** Whatever decodes is three '~'-free fields whose last holds the two coordinates. */
  lemma DecodeSound(pid: string)
    requires Decode(pid).Ok?
    ensures var r := Decode(pid).value;
      var fields := Split(pid, '~');
      && |fields| == 3
      && pid == r.slideName + "~" + r.patchIdx + "~" + fields[2]
      && '~' !in r.slideName && '~' !in r.patchIdx
      && |Split(fields[2], '.')| == 2
      && ParseInt(Split(fields[2], '.')[0]) == Some(r.x)
      && ParseInt(Split(fields[2], '.')[1]) == Some(r.y)
  {
    var r := Decode(pid).value;
    var fields := Split(pid, '~');
    assert |fields| == 3;
    assert r.slideName == fields[0] && r.patchIdx == fields[1];
    assert fields[0] in fields && fields[1] in fields;
    JoinThree(fields, '~');
  }

  lemma JoinThree(parts: seq<string>, c: char)
    requires |parts| == 3
    ensures JoinWith(parts, c) == parts[0] + [c] + parts[1] + [c] + parts[2]
  {
    assert JoinWith(parts[1..], c) == parts[1] + [c] + JoinWith(parts[1..][1..], c);
    assert parts[1..][1..] == [parts[2]];
  }

  /** Distinct (name, ordinal, x, y) give distinct keys, whatever the names contain. */
  lemma EncodeInjective(n1: string, i1: int, x1: int, y1: int, n2: string, i2: int, x2: int, y2: int)
    requires Encode(n1, i1, x1, y1) == Encode(n2, i2, x2, y2)
    ensures n1 == n2 && i1 == i2 && x1 == x2 && y1 == y2
  {
    var p1, p2 := Split(n1, '~'), Split(n2, '~');
    var s1 := p1 + [IntToString(i1), CoordsText(x1, y1)];
    var s2 := p2 + [IntToString(i2), CoordsText(x2, y2)];
    assert s1 == s2;
    assert |p1| == |p2|;
    assert p1 == s1[..|p1|] == s2[..|p2|] == p2;
    assert n1 == JoinWith(p1, '~') == JoinWith(p2, '~') == n2;
    assert IntToString(i1) == s1[|p1|] == IntToString(i2);
    IntToStringInjective(i1, i2);
    assert CoordsText(x1, y1) == CoordsText(x2, y2);
    CoordsTextSplit(x1, y1);
    CoordsTextSplit(x2, y2);
    IntToStringInjective(x1, x2);
    IntToStringInjective(y1, y2);
  }

  /** `os.path.join(a, b)` on POSIX: an absolute `b` replaces `a`; a separator is added only when missing. */
  function PathJoin(a: string, b: string): string
  {
    if |b| > 0 && b[0] == '/' then b
    else if a == [] || a[|a| - 1] == '/' then a + b
    else a + "/" + b
  }

  /**
   * An absolute `b` is the whole result. Otherwise the result is `a`, then at most one
   * added '/', then `b`; a non-empty `a` is always separated from `b` by a '/', and the
   * '/' is added only when `a` does not already end in one.
   */
  lemma PathJoinParts(a: string, b: string)
    ensures var r := PathJoin(a, b);
      && (|b| > 0 && b[0] == '/' ==> r == b)
      && (!(|b| > 0 && b[0] == '/') ==>
        && |a| + |b| <= |r| <= |a| + |b| + 1
        && r[..|a|] == a && r[|r| - |b|..] == b
        && (a != [] ==> r[|r| - |b| - 1] == '/')
        && (|r| == |a| + |b| + 1 ==> a != [] && a[|a| - 1] != '/'))
  {
    var r := PathJoin(a, b);
    if !(|b| > 0 && b[0] == '/') && a != [] {
      if a[|a| - 1] == '/' {
        assert r == a + b && r[|r| - |b| - 1] == a[|a| - 1];
      } else {
        assert r == a + "/" + b && r[|a|] == '/';
      }
    }
  }

  /** `name.split('_')[0]`: the slide group directory. */
  function SlideGroup(name: string): (g: string)
    ensures |g| <= |name| && name[..|g|] == g && '_' !in g
    ensures |g| == |name| || name[|g|] == '_'
  {
    SplitHead(name, '_');
    Split(name, '_')[0]
  }

  /** `os.path.join(slides_dir, group, name + '.svs')`. */
  function SlidePath(slidesDir: string, name: string): string
  {
    PathJoin(PathJoin(slidesDir, SlideGroup(name)), name + ".svs")
  }

  /** Whatever the directory and the name, the path ends with the slide's file name. */
  lemma SlidePathFile(slidesDir: string, name: string)
    ensures var path := SlidePath(slidesDir, name);
      |path| >= |name| + 4 && path[|path| - |name| - 4..] == name + ".svs"
  {
    PathJoinParts(PathJoin(slidesDir, SlideGroup(name)), name + ".svs");
  }

  /**
   * For an ordinary directory and a slide name without '/' that does not start with '_',
   * the slide lives at `<slides dir>/<name up to its first '_'>/<name>.svs`.
   */
  lemma SlidePathLayout(slidesDir: string, name: string)
    requires slidesDir != [] && slidesDir[|slidesDir| - 1] != '/'
    requires '/' !in name
    requires name != [] && name[0] != '_'
    ensures SlidePath(slidesDir, name) == slidesDir + "/" + SlideGroup(name) + "/" + name + ".svs"
  {
    var g := SlideGroup(name);
    var file := name + ".svs";
    assert g != [] && g[0] == name[0] && g[|g| - 1] == name[|g| - 1];
    assert name[0] in name && name[|g| - 1] in name;
    JoinPlain(slidesDir, g);
    var dir := slidesDir + "/" + g;
    assert dir[|dir| - 1] == g[|g| - 1];
    assert file[0] == name[0];
    JoinPlain(dir, file);
  }

  /** Joining a relative part to a directory not ending in '/' puts exactly one '/' between them. */
  lemma JoinPlain(a: string, b: string)
    requires a != [] && a[|a| - 1] != '/'
    requires b != [] && b[0] != '/'
    ensures PathJoin(a, b) == a + "/" + b
  {
  }

  /** What the labeler renders for an identifier: the slide file and the crop's corner. */
  function Locate(slidesDir: string, pid: string): Result<PatchLocation, DecodeError>
  {
    match Decode(pid)
    case Err(e) => Err(e)
    case Ok(p) => Ok(PatchLocation(SlidePath(slidesDir, p.slideName), p.x, p.y))
  }

  /** The labeler finds the very crop the sampler recorded. */
  lemma LocateEncoded(slidesDir: string, name: string, ordinal: int, x: int, y: int)
    requires '~' !in name && WithinStrDigits(x) && WithinStrDigits(y)
    ensures Locate(slidesDir, Encode(name, ordinal, x, y)) == Ok(PatchLocation(SlidePath(slidesDir, name), x, y))
  {
    DecodeEncode(name, ordinal, x, y);
  }
}
