/**
 * The patch sampler: for every slide in order and every ordinal below the per-slide count,
 * draw random top-left corners until the crop passes the intensity test, and record the
 * accepted corner under its patch identifier with an empty label.
 *
 * The random source and the image library are an oracle: a finite sequence of draws, each
 * giving the raw integers behind the two `randint` calls and the mean and standard
 * deviation the crop at the resulting corner has. Running out of draws stands for the
 * sampler's retry loop still running.
 */
module Sampler {
  import opened Results
  import opened PatchId
  import opened LabelTable

  /** An opened slide: the display name from its metadata and its level-0 size in pixels. */
  datatype Slide = Slide(name: string, width: int, height: int)

  /** `PATCH_SIZE` and `PATCH_OFFSET`. */
  datatype Geometry = Geometry(patchWidth: int, patchHeight: int, offset: int)

  /** `PATCH_MEAN` and `PATCH_STD`: the largest mean and the smallest deviation a patch may have. */
  datatype Thresholds = Thresholds(mean: int, std: int)

  /** One pass of the retry loop: the oracle's integers for the two draws and the statistics of the crop. */
  datatype Draw = Draw(rx: int, ry: int, mean: real, std: real)

  /** An accepted patch: its slide, its ordinal within the slide, its corner and its crop statistics. */
  datatype Pick = Pick(slide: Slide, ordinal: nat, x: int, y: int, mean: real, std: real)

  datatype SampleError =
    | EmptyRange(slide: string)  // randint's range is empty: the slide is too small for the geometry
    | DrawsExhausted             // no accepted candidate among the draws supplied

  /** Both `randint` ranges are non-empty, so a corner can be drawn at all. */
  predicate CanDraw(s: Slide, g: Geometry)
  {
    && g.offset < s.width - g.offset - g.patchWidth
    && g.offset < s.height - g.offset - g.patchHeight
  }

  /** `np.random.randint(lo, hi)` answered with the oracle's integer `r`. */
  function RandInt(lo: int, hi: int, r: int): (v: int)
    requires lo < hi
    ensures lo <= v < hi
  {
    lo + r % (hi - lo)
  }

  /** Every value of the half-open range is some answer of the oracle: the model restricts no draw. */
  lemma RandIntCoversRange(lo: int, hi: int, v: int)
    requires lo <= v < hi
    ensures RandInt(lo, hi, v - lo) == v
  {
  }

  function CornerX(s: Slide, g: Geometry, d: Draw): int
    requires CanDraw(s, g)
  {
    RandInt(g.offset, s.width - g.offset - g.patchWidth, d.rx)
  }

  function CornerY(s: Slide, g: Geometry, d: Draw): int
    requires CanDraw(s, g)
  {
    RandInt(g.offset, s.height - g.offset - g.patchHeight, d.ry)
  }

  /** The acceptance test: `patch.avg() <= ms["mean"] and patch.deviate() >= ms["std"]`. */
  predicate Accepts(d: Draw, ms: Thresholds)
  {
    d.mean <= ms.mean as real && d.std >= ms.std as real
  }

  function Extend(done: seq<Pick>, r: Result<seq<Pick>, SampleError>): Result<seq<Pick>, SampleError>
  {
    match r
    case Ok(ps) => Ok(done + ps)
    case Err(e) => Err(e)
  }

  lemma ExtendNothing(r: Result<seq<Pick>, SampleError>)
    ensures Extend([], r) == r
  {
    if r.Ok? {
      assert [] + r.value == r.value;
    }
  }

  /**
   * The run from slide `slides[0]`, ordinal `i`, on: the accepted patches in the order the
   * loops accept them, or the error that aborts the run.
   */
  function Sample(slides: seq<Slide>, i: nat, n: int, g: Geometry, ms: Thresholds, draws: seq<Draw>)
    : Result<seq<Pick>, SampleError>
    decreases |slides|, if i < n then n - i else 0, |draws|
  {
    if slides == [] then Ok([])
    else if i >= n then Sample(slides[1..], 0, n, g, ms, draws)
    else if !CanDraw(slides[0], g) then Err(EmptyRange(slides[0].name))
    else if draws == [] then Err(DrawsExhausted)
    else if Accepts(draws[0], ms) then
      var s, d := slides[0], draws[0];
      Extend([Pick(s, i, CornerX(s, g, d), CornerY(s, g, d), d.mean, d.std)], Sample(slides, i + 1, n, g, ms, draws[1..]))
    else Sample(slides, i, n, g, ms, draws[1..])
  }

  /** Every accepted patch uses up a draw of its own: a run records at most as many patches as draws. */
  lemma {:induction false} SampleDrawBound(slides: seq<Slide>, i: nat, n: int, g: Geometry, ms: Thresholds, draws: seq<Draw>)
    requires Sample(slides, i, n, g, ms, draws).Ok?
    ensures |Sample(slides, i, n, g, ms, draws).value| <= |draws|
    decreases |slides|, if i < n then n - i else 0, |draws|
  {
    if slides == [] {
    } else if i >= n {
      SampleDrawBound(slides[1..], 0, n, g, ms, draws);
    } else if Accepts(draws[0], ms) {
      SampleDrawBound(slides, i + 1, n, g, ms, draws[1..]);
    } else {
      SampleDrawBound(slides, i, n, g, ms, draws[1..]);
    }
  }

  /** The row key of an accepted patch. */
  function Key(p: Pick): string
  {
    Encode(p.slide.name, p.ordinal, p.x, p.y)
  }

  /** One row per accepted patch, in acceptance order, each with an empty label. */
  function Rows(ps: seq<Pick>): (rows: seq<Entry>)
    ensures |rows| == |ps|
    ensures forall k :: 0 <= k < |ps| ==> rows[k] == Entry(Key(ps[k]), "")
  {
    seq(|ps|, k requires 0 <= k < |ps| => Entry(Key(ps[k]), ""))
  }

  /** The dict the sampler returns: the rows inserted in order. */
  function TableOf(ps: seq<Pick>): Table
  {
    FromRows(Rows(ps))
  }

  function TableResult(r: Result<seq<Pick>, SampleError>): Result<Table, SampleError>
  {
    match r
    case Ok(ps) => Ok(TableOf(ps))
    case Err(e) => Err(e)
  }

  lemma ExtendTwice(done: seq<Pick>, more: seq<Pick>, r: Result<seq<Pick>, SampleError>)
    ensures Extend(done, Extend(more, r)) == Extend(done + more, r)
  {
    if r.Ok? {
      assert done + (more + r.value) == done + more + r.value;
    }
  }

  /** One accepting pass of the retry loop: the patch is recorded and the next ordinal starts. */
  lemma AcceptStep(done: seq<Pick>, ss: seq<Slide>, i: nat, n: int, g: Geometry, ms: Thresholds, ds: seq<Draw>)
    requires ss != [] && i < n && CanDraw(ss[0], g) && ds != [] && Accepts(ds[0], ms)
    ensures Extend(done, Sample(ss, i, n, g, ms, ds))
         == Extend(done + [Pick(ss[0], i, CornerX(ss[0], g, ds[0]), CornerY(ss[0], g, ds[0]), ds[0].mean, ds[0].std)],
                   Sample(ss, i + 1, n, g, ms, ds[1..]))
  {
    var p := Pick(ss[0], i, CornerX(ss[0], g, ds[0]), CornerY(ss[0], g, ds[0]), ds[0].mean, ds[0].std);
    ExtendTwice(done, [p], Sample(ss, i + 1, n, g, ms, ds[1..]));
  }

  /** A rejected pass of the retry loop consumes one draw and changes nothing else. */
  lemma RejectStep(ss: seq<Slide>, i: nat, n: int, g: Geometry, ms: Thresholds, ds: seq<Draw>)
    requires ss != [] && i < n && CanDraw(ss[0], g) && ds != [] && !Accepts(ds[0], ms)
    ensures Sample(ss, i, n, g, ms, ds) == Sample(ss, i, n, g, ms, ds[1..])
  {
  }

  /** Once every ordinal of a slide is sampled, the run goes on with the next slide. */
  lemma NextSlide(ss: seq<Slide>, i: nat, n: int, g: Geometry, ms: Thresholds, ds: seq<Draw>)
    requires ss != [] && i >= n
    ensures Sample(ss, i, n, g, ms, ds) == Sample(ss[1..], 0, n, g, ms, ds)
  {
  }

  lemma TableOfSnoc(ps: seq<Pick>, p: Pick)
    ensures TableOf(ps + [p]) == Insert(TableOf(ps), Key(p), "")
  {
    var rows := Rows(ps + [p]);
    assert rows[..|rows| - 1] == Rows(ps);
  }

  /**
   * `coord_patches_list_gen`: the nested loops over slides and ordinals around the retry
   * loop, building the dict in place. Its result is the table of the specification's run.
   */
  method CoordPatchesListGen(slides: seq<Slide>, n: int, g: Geometry, ms: Thresholds, draws: seq<Draw>)
    returns (r: Result<Table, SampleError>)
    ensures r == TableResult(Sample(slides, 0, n, g, ms, draws))
  {
    var table: Table := [];
    ghost var picks: seq<Pick> := [];
    var pos := 0;
    var j := 0;
    assert slides[0..] == slides && draws[0..] == draws;
    ExtendNothing(Sample(slides, 0, n, g, ms, draws));
    while j < |slides|
      invariant 0 <= j <= |slides| && 0 <= pos <= |draws|
      invariant table == TableOf(picks)
      invariant Sample(slides, 0, n, g, ms, draws) == Extend(picks, Sample(slides[j..], 0, n, g, ms, draws[pos..]))
    {
      var slide := slides[j];
      var i: nat := 0;
      while i < n
        invariant 0 <= pos <= |draws|
        invariant table == TableOf(picks)
        invariant Sample(slides, 0, n, g, ms, draws) == Extend(picks, Sample(slides[j..], i, n, g, ms, draws[pos..]))
      {
        var highIntensity := true;
        var x, y := 0, 0;
        ghost var accepted := Draw(0, 0, 0.0, 0.0);
        while highIntensity
          invariant 0 <= pos <= |draws|
          invariant highIntensity ==>
            Sample(slides, 0, n, g, ms, draws) == Extend(picks, Sample(slides[j..], i, n, g, ms, draws[pos..]))
          invariant !highIntensity ==>
            Sample(slides, 0, n, g, ms, draws)
            == Extend(picks + [Pick(slide, i, x, y, accepted.mean, accepted.std)], Sample(slides[j..], i + 1, n, g, ms, draws[pos..]))
          decreases |draws| - pos + (if highIntensity then 1 else 0)
        {
          if !CanDraw(slide, g) {
            assert Sample(slides[j..], i, n, g, ms, draws[pos..]) == Err(EmptyRange(slide.name));
            return Err(EmptyRange(slide.name));
          }
          if pos == |draws| {
            assert Sample(slides[j..], i, n, g, ms, draws[pos..]) == Err(DrawsExhausted);
            return Err(DrawsExhausted);
          }
          var d := draws[pos];
          assert draws[pos..][1..] == draws[pos + 1..];
          assert slides[j..][0] == slide && draws[pos..][0] == d;
          x := RandInt(g.offset, slide.width - g.offset - g.patchWidth, d.rx);
          y := RandInt(g.offset, slide.height - g.offset - g.patchHeight, d.ry);
          if d.mean <= ms.mean as real && d.std >= ms.std as real {
            AcceptStep(picks, slides[j..], i, n, g, ms, draws[pos..]);
            highIntensity := false;
            accepted := d;
          } else {
            RejectStep(slides[j..], i, n, g, ms, draws[pos..]);
          }
          pos := pos + 1;
        }
        TableOfSnoc(picks, Pick(slide, i, x, y, accepted.mean, accepted.std));
        table := Insert(table, Encode(slide.name, i, x, y), "");
        picks := picks + [Pick(slide, i, x, y, accepted.mean, accepted.std)];
        i := i + 1;
      }
      assert slides[j..][1..] == slides[j + 1..];
      NextSlide(slides[j..], i, n, g, ms, draws[pos..]);
      j := j + 1;
    }
    assert Sample(slides[j..], 0, n, g, ms, draws[pos..]) == Ok([]);
    assert picks + [] == picks;
    r := Ok(table);
  }

  /** What every recorded patch satisfies: it passed the test and keeps `offset` clear of every edge. */
  predicate Sound(p: Pick, g: Geometry, ms: Thresholds)
  {
    && p.mean <= ms.mean as real
    && p.std >= ms.std as real
    && g.offset <= p.x < p.slide.width - g.offset - g.patchWidth
    && g.offset <= p.y < p.slide.height - g.offset - g.patchHeight
  }

  /** Every accepted patch passed the intensity test, lies within the border bounds, and comes from an input slide. */
  lemma {:induction false} SampleSound(slides: seq<Slide>, i: nat, n: int, g: Geometry, ms: Thresholds, draws: seq<Draw>)
    requires Sample(slides, i, n, g, ms, draws).Ok?
    ensures forall p :: p in Sample(slides, i, n, g, ms, draws).value ==> Sound(p, g, ms) && p.slide in slides
    decreases |slides|, if i < n then n - i else 0, |draws|
  {
    if slides == [] {
    } else if i >= n {
      SampleSound(slides[1..], 0, n, g, ms, draws);
    } else if Accepts(draws[0], ms) {
      SampleSound(slides, i + 1, n, g, ms, draws[1..]);
    } else {
      SampleSound(slides, i, n, g, ms, draws[1..]);
    }
  }

  /**
   * A slide with no room for a patch sinks the whole run once patches are asked of it:
   * `randint` raises on the empty range, whatever the draws, and no table is returned.
   */
  lemma {:induction false} DegenerateSlideFails(slides: seq<Slide>, i: nat, n: int, g: Geometry, ms: Thresholds, draws: seq<Draw>, j: int)
    requires 0 <= j < |slides| && !CanDraw(slides[j], g) && n > 0
    requires j > 0 || i < n
    ensures Sample(slides, i, n, g, ms, draws).Err?
    decreases |slides|, if i < n then n - i else 0, |draws|
  {
    if i >= n {
      DegenerateSlideFails(slides[1..], 0, n, g, ms, draws, j - 1);
    } else if !CanDraw(slides[0], g) {
    } else if draws == [] {
    } else if Accepts(draws[0], ms) {
      DegenerateSlideFails(slides, i + 1, n, g, ms, draws[1..], j);
    } else {
      DegenerateSlideFails(slides, i, n, g, ms, draws[1..], j);
    }
  }

  /**
   * 768x768 patches kept 50 pixels clear of the border of a 2000x2000 slide: every recorded
   * corner lies in [50, 1181] on both axes, and a crop whose mean is 210 is never recorded
   * under a mean threshold of 200.
   */
  lemma BorderExample(name: string, n: int, draws: seq<Draw>)
    requires Sample([Slide(name, 2000, 2000)], 0, n, Geometry(768, 768, 50), Thresholds(200, 10), draws).Ok?
    ensures forall p :: p in Sample([Slide(name, 2000, 2000)], 0, n, Geometry(768, 768, 50), Thresholds(200, 10), draws).value ==>
      50 <= p.x <= 1181 && 50 <= p.y <= 1181 && p.mean != 210.0
  {
    SampleSound([Slide(name, 2000, 2000)], 0, n, Geometry(768, 768, 50), Thresholds(200, 10), draws);
  }

  /** A 500x500 slide cannot hold a 768x768 patch: asking it for any patch fails with an empty range. */
  lemma TooSmallExample(name: string, n: int, ms: Thresholds, draws: seq<Draw>)
    requires n > 0
    ensures Sample([Slide(name, 500, 500)], 0, n, Geometry(768, 768, 0), ms, draws) == Err(EmptyRange(name))
  {
  }

  /** The (slide, ordinal) pairs the loops visit, in order. */
  function Schedule(slides: seq<Slide>, i: nat, n: int): seq<(Slide, nat)>
    decreases |slides|, if i < n then n - i else 0
  {
    if slides == [] then []
    else if i >= n then Schedule(slides[1..], 0, n)
    else [(slides[0], i)] + Schedule(slides, i + 1, n)
  }

  function Stamps(ps: seq<Pick>): (r: seq<(Slide, nat)>)
    ensures |r| == |ps| && forall k :: 0 <= k < |ps| ==> r[k] == (ps[k].slide, ps[k].ordinal)
  {
    seq(|ps|, k requires 0 <= k < |ps| => (ps[k].slide, ps[k].ordinal))
  }

  /** A successful run records exactly one patch per visited (slide, ordinal), in visiting order. */
  lemma {:induction false} SampleFollowsSchedule(slides: seq<Slide>, i: nat, n: int, g: Geometry, ms: Thresholds, draws: seq<Draw>)
    requires Sample(slides, i, n, g, ms, draws).Ok?
    ensures Stamps(Sample(slides, i, n, g, ms, draws).value) == Schedule(slides, i, n)
    decreases |slides|, if i < n then n - i else 0, |draws|
  {
    if slides == [] {
    } else if i >= n {
      SampleFollowsSchedule(slides[1..], 0, n, g, ms, draws);
    } else if Accepts(draws[0], ms) {
      SampleFollowsSchedule(slides, i + 1, n, g, ms, draws[1..]);
    } else {
      SampleFollowsSchedule(slides, i, n, g, ms, draws[1..]);
    }
  }

  lemma {:induction false} ScheduleOfSlide(slides: seq<Slide>, i: nat, n: int)
    requires slides != [] && i <= n
    ensures |Schedule(slides, i, n)| == n - i + |Schedule(slides[1..], 0, n)|
    ensures forall k :: 0 <= k < n - i ==> Schedule(slides, i, n)[k] == (slides[0], i + k)
    ensures forall k :: n - i <= k < |Schedule(slides, i, n)| ==> Schedule(slides, i, n)[k] == Schedule(slides[1..], 0, n)[k - (n - i)]
    decreases n - i
  {
    var rest := Schedule(slides[1..], 0, n);
    if i < n {
      ScheduleOfSlide(slides, i + 1, n);
      var tail := Schedule(slides, i + 1, n);
      assert Schedule(slides, i, n) == [(slides[0], i)] + tail;
      forall k | 0 < k < |Schedule(slides, i, n)|
        ensures Schedule(slides, i, n)[k] == tail[k - 1]
      {
      }
    } else {
      assert Schedule(slides, i, n) == rest;
    }
  }

  lemma MulAtLeast(a: int, n: int)
    requires a >= 1 && n > 0
    ensures a * n >= n
  {
  }

  lemma MulDistrib(a: int, b: int, n: int)
    ensures (a - b) * n == a * n - b * n
  {
  }

  /** Quotient and remainder are the only pair that rebuilds `k`. */
  lemma DivModUnique(k: int, n: int, q: int, r: int)
    requires n > 0 && 0 <= r < n && k == q * n + r
    ensures k / n == q && k % n == r
  {
    var q', r' := k / n, k % n;
    assert k == q' * n + r';
    MulDistrib(q, q', n);
    MulDistrib(q', q, n);
    if q > q' {
      MulAtLeast(q - q', n);
    } else if q < q' {
      MulAtLeast(q' - q, n);
    }
  }

  lemma DivStep(k: int, n: int)
    requires n > 0 && k >= n
    ensures (k - n) / n == k / n - 1 && (k - n) % n == k % n
  {
    var q, r := (k - n) / n, (k - n) % n;
    assert k - n == q * n + r;
    DivModUnique(k, n, q + 1, r);
  }

  lemma MulMono(a: int, b: int, n: int)
    requires a >= b && n > 0
    ensures a * n >= b * n
  {
  }

  lemma DivBound(k: int, m: int, n: int)
    requires n > 0 && 0 <= k < m * n
    ensures 0 <= k / n < m
  {
    if k / n >= m {
      MulMono(k / n, m, n);
    }
  }

  /**
   * In closed form: with `n` patches per slide the run visits `|slides| * n` pairs, and
   * position `k` belongs to slide `k / n` and ordinal `k % n`: slide-major, ordinal-minor.
   */
  lemma {:induction false} ScheduleClosedForm(slides: seq<Slide>, n: int)
    requires n > 0
    ensures |Schedule(slides, 0, n)| == |slides| * n
    ensures forall k :: 0 <= k < |slides| * n ==>
      k / n < |slides| && Schedule(slides, 0, n)[k] == (slides[k / n], k % n)
  {
    if slides != [] {
      var s, rest := Schedule(slides, 0, n), Schedule(slides[1..], 0, n);
      ScheduleOfSlide(slides, 0, n);
      ScheduleClosedForm(slides[1..], n);
      MulDistrib(|slides|, 1, n);
      forall k | 0 <= k < |slides| * n
        ensures k / n < |slides| && s[k] == (slides[k / n], k % n)
      {
        DivBound(k, |slides|, n);
        if k < n {
          DivModUnique(k, n, 0, k);
        } else {
          DivStep(k, n);
          assert s[k] == rest[k - n];
        }
      }
    }
  }

  /** With no patches asked per slide the run visits nothing. */
  lemma {:induction false} ScheduleEmpty(slides: seq<Slide>, n: int)
    requires n <= 0
    ensures Schedule(slides, 0, n) == []
  {
    if slides != [] {
      ScheduleEmpty(slides[1..], n);
    }
  }


  /**
   * The sampler's table: at most one row per accepted patch, every accepted patch's key
   * present, every label empty, and every key the identifier of a sound patch of an input
   * slide with an ordinal below the count.
   */
  lemma SampledTable(slides: seq<Slide>, n: int, g: Geometry, ms: Thresholds, draws: seq<Draw>)
    requires Sample(slides, 0, n, g, ms, draws).Ok?
    ensures var ps := Sample(slides, 0, n, g, ms, draws).value;
      var t := TableOf(ps);
      && |t| <= |ps|
      && (forall m :: 0 <= m < |ps| ==> HasKey(t, Key(ps[m])))
      && forall k :: 0 <= k < |t| ==>
        && t[k].annotation == ""
        && (exists m :: 0 <= m < |ps| && t[k].pid == Key(ps[m]) && Sound(ps[m], g, ms) && ps[m].slide in slides && ps[m].ordinal < n)
  {
    var ps := Sample(slides, 0, n, g, ms, draws).value;
    var t := TableOf(ps);
    TableOfKeys(ps);
    TableOfEntries(ps);
    SampleSound(slides, 0, n, g, ms, draws);
    SampleFollowsSchedule(slides, 0, n, g, ms, draws);
    ScheduleOrdinals(slides, 0, n);
    forall k | 0 <= k < |t|
      ensures exists m :: (0 <= m < |ps| && t[k].pid == Key(ps[m])
        && Sound(ps[m], g, ms) && ps[m].slide in slides && ps[m].ordinal < n)
    {
      var m :| 0 <= m < |ps| && t[k].pid == Key(ps[m]);
      assert ps[m] in ps;
      assert Stamps(ps)[m].1 == ps[m].ordinal;
    }
  }

  /** The table of any run has an entry for every accepted patch, and no more entries than patches. */
  lemma TableOfKeys(ps: seq<Pick>)
    ensures |TableOf(ps)| <= |ps|
    ensures forall m :: 0 <= m < |ps| ==> HasKey(TableOf(ps), Key(ps[m]))
  {
    var rows := Rows(ps);
    forall m | 0 <= m < |ps| ensures HasKey(TableOf(ps), Key(ps[m])) {
      assert rows[m].pid == Key(ps[m]);
      FromRowsHasKey(rows, Key(ps[m]));
    }
  }

  /** Every entry of the table of a run is the key of an accepted patch with an empty label. */
  lemma TableOfEntries(ps: seq<Pick>)
    ensures forall k :: 0 <= k < |TableOf(ps)| ==>
      TableOf(ps)[k].annotation == "" && exists m :: 0 <= m < |ps| && TableOf(ps)[k].pid == Key(ps[m])
  {
    var rows := Rows(ps);
    var t := TableOf(ps);
    FromUniformRows(rows, "");
    forall k | 0 <= k < |t| ensures exists m :: 0 <= m < |ps| && t[k].pid == Key(ps[m]) {
      var m :| 0 <= m < |rows| && rows[m].pid == t[k].pid;
      assert rows[m].pid == Key(ps[m]);
    }
  }

  lemma {:induction false} ScheduleOrdinals(slides: seq<Slide>, i: nat, n: int)
    ensures forall k :: 0 <= k < |Schedule(slides, i, n)| ==> Schedule(slides, i, n)[k].1 < n
    decreases |slides|, if i < n then n - i else 0
  {
    if slides != [] {
      if i >= n {
        ScheduleOrdinals(slides[1..], 0, n);
      } else {
        ScheduleOrdinals(slides, i + 1, n);
      }
    }
  }

  predicate DistinctNames(slides: seq<Slide>)
  {
    forall a, b :: 0 <= a < b < |slides| ==> slides[a].name != slides[b].name
  }

  /**
   * With pairwise distinct slide names no two patches share a key, so the table has one
   * row per patch, in acceptance order: `|slides| * n` rows for `n > 0`, none otherwise.
   */
  lemma RowCount(slides: seq<Slide>, n: int, g: Geometry, ms: Thresholds, draws: seq<Draw>)
    requires DistinctNames(slides)
    requires Sample(slides, 0, n, g, ms, draws).Ok?
    ensures var ps := Sample(slides, 0, n, g, ms, draws).value;
      && TableOf(ps) == Rows(ps)
      && |TableOf(ps)| == if n <= 0 then 0 else |slides| * n
  {
    var ps := Sample(slides, 0, n, g, ms, draws).value;
    SampleFollowsSchedule(slides, 0, n, g, ms, draws);
    if n <= 0 {
      ScheduleEmpty(slides, n);
      assert ps == [];
    } else {
      ScheduleClosedForm(slides, n);
      forall k1, k2 | 0 <= k1 < k2 < |ps| ensures Rows(ps)[k1].pid != Rows(ps)[k2].pid {
        StampAt(slides, n, ps, k1);
        StampAt(slides, n, ps, k2);
        DistinctPositions(slides, n, k1, k2);
        if Key(ps[k1]) == Key(ps[k2]) {
          EncodeInjective(ps[k1].slide.name, ps[k1].ordinal, ps[k1].x, ps[k1].y,
                          ps[k2].slide.name, ps[k2].ordinal, ps[k2].x, ps[k2].y);
        }
      }
    }
    FromDistinctRows(Rows(ps));
  }

  /** Two positions of the schedule name different slides or different ordinals. */
  lemma DistinctPositions(slides: seq<Slide>, n: int, k1: int, k2: int)
    requires DistinctNames(slides) && n > 0 && 0 <= k1 < k2
    requires k1 / n < |slides| && k2 / n < |slides|
    ensures slides[k1 / n].name != slides[k2 / n].name || k1 % n != k2 % n
  {
  }

  /** Position `k` of a run that follows the schedule holds ordinal `k % n` of slide `k / n`. */
  lemma StampAt(slides: seq<Slide>, n: int, ps: seq<Pick>, k: int)
    requires n > 0 && Stamps(ps) == Schedule(slides, 0, n) && 0 <= k < |ps|
    ensures k / n < |slides| && ps[k].slide == slides[k / n] && ps[k].ordinal == k % n
  {
    ScheduleClosedForm(slides, n);
    assert Stamps(ps)[k] == Schedule(slides, 0, n)[k];
  }
}
