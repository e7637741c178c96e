/** Cards between thin green borders of a raster (src/ingestion/extract_ocr.py). */
module RasterCards {
  import opened Strings
  import opened Wrappers

  /** RGB samples, three to a pixel, row by row. */
  datatype Raster = Raster(width: int, height: int, rgb: seq<nat>)

  /** A dense row with the extent of its largest cluster. */
  datatype Band = Band(y: nat, x0: nat, x1: nat)

  /** Consecutive dense rows `start..end` with their common extent. */
  datatype Run = Run(start: nat, end: nat, x0: nat, x1: nat)

  datatype Region = Region(x0: nat, y0: nat, x1: nat, y1: nat)

  predicate ValidRaster(im: Raster) { im.width > 0 && im.height > 0 && |im.rgb| == im.width * im.height * 3 }

  function Min(a: nat, b: nat): nat { if a < b then a else b }

  function Max(a: nat, b: nat): nat { if a < b then b else a }

  function Abs(a: int): nat { if a < 0 then -a else a }

  /** `max(1, ceil(n * per / 1000))` */
  function AtLeastOneCeil(n: nat, per: nat): nat { Max(1, (n * per + 999) / 1000) }

  /** The least positive number that is at least `per` thousandths of `n`. */
  lemma CeilExactly(n: nat, per: nat, count: nat)
    ensures count >= AtLeastOneCeil(n, per) <==> count >= 1 && 1000 * count >= n * per
  {
    var p := n * per;
    assert 1000 * ((p + 999) / 1000) >= p && 1000 * ((p + 999) / 1000) < p + 1000;
  }

  // ----- one row -----

  function Step(width: nat): nat { Max(1, width / 1200) }

  /** `len(range(0, width, step))` */
  function Columns(width: nat): nat { (width + Step(width) - 1) / Step(width) }

  predicate Green(red: nat, green: nat, blue: nat) { green >= 80 && green >= red + 12 && green >= blue + 8 }

  lemma ColumnInside(width: nat, k: nat)
    requires k < Columns(width)
    ensures k * Step(width) < width
  {
    var s := Step(width);
    assert k <= Columns(width) - 1;
    assert k * s <= (Columns(width) - 1) * s <= width - 1 by { Multiples(k, Columns(width) - 1, s); }
  }

  lemma Multiples(a: nat, b: nat, s: nat)
    requires a <= b
    ensures a * s <= b * s
  {
    assert (b - a) * s >= 0;
  }

  lemma SampleInside(im: Raster, x: nat, y: nat)
    requires ValidRaster(im) && x < im.width && y < im.height
    ensures (y * im.width + x) * 3 + 2 < |im.rgb|
  {
    assert (y + 1) * im.width <= im.height * im.width by { Multiples(y + 1, im.height, im.width); }
  }

  predicate GreenAt(im: Raster, x: nat, y: nat)
    requires ValidRaster(im) && x < im.width && y < im.height
  {
    SampleInside(im, x, y);
    var o := (y * im.width + x) * 3;
    Green(im.rgb[o], im.rgb[o + 1], im.rgb[o + 2])
  }

  /** The sampled columns of a row. */
  function Samples(im: Raster, y: nat): (h: seq<bool>)
    requires ValidRaster(im) && y < im.height
    ensures |h| == Columns(im.width)
    ensures forall k :: 0 <= k < |h| ==> k * Step(im.width) < im.width && h[k] == GreenAt(im, k * Step(im.width), y)
  {
    forall k | 0 <= k < Columns(im.width) ensures k * Step(im.width) < im.width { ColumnInside(im.width, k); }
    seq(Columns(im.width), k requires 0 <= k < Columns(im.width)
        && k * Step(im.width) < im.width => GreenAt(im, k * Step(im.width), y))
  }

  function HitCount(h: seq<bool>, i: nat, j: nat): nat
    requires i <= j <= |h|
  {
    if i == j then 0 else HitCount(h, i, j - 1) + if h[j - 1] then 1 else 0
  }

  /** From hit `i` to hit `j`, with at most one missing sample between hits. */
  predicate Cluster(h: seq<bool>, i: nat, j: nat) {
    i <= j < |h| && h[i] && h[j] && forall k :: i <= k < j ==> h[k] || h[k + 1]
  }

  /** The first of the clusters with the most hits among those that end before `n`. */
  ghost predicate BestBefore(h: seq<bool>, n: nat, i: nat, j: nat) {
    && Cluster(h, i, j) && j < n
    && forall a: nat, b: nat :: Cluster(h, a, b) && b < n ==>
         HitCount(h, a, b + 1) <= HitCount(h, i, j + 1) && (a < i ==> HitCount(h, a, b + 1) < HitCount(h, i, j + 1))
  }

  /** `i` starts the longest cluster that ends at the last hit `j` before `n`. */
  ghost predicate CurrentRun(h: seq<bool>, n: nat, i: nat, j: nat) {
    && Cluster(h, i, j) && j < n <= |h| && (forall k :: j < k < n ==> !h[k])
    && forall a: nat :: Cluster(h, a, j) ==> i <= a
  }

  lemma {:induction false} HitCountGrows(h: seq<bool>, a: nat, i: nat, j: nat)
    requires a <= i <= j <= |h|
    ensures HitCount(h, i, j) <= HitCount(h, a, j)
    ensures a < i && h[a] ==> HitCount(h, i, j) < HitCount(h, a, j)
  {
    if i < j {
      HitCountGrows(h, a, i, j - 1);
    } else if a < i && h[a] {
      HitCountPositive(h, a, i);
    }
  }

  lemma {:induction false} HitCountPositive(h: seq<bool>, a: nat, j: nat)
    requires a < j <= |h| && h[a]
    ensures HitCount(h, a, j) >= 1
  {
    if a < j - 1 { HitCountPositive(h, a, j - 1); }
  }

  lemma ClusterFront(h: seq<bool>, a: nat, n: nat, j: nat)
    requires Cluster(h, a, n) && a < n && j < n && h[j] && forall k :: j < k < n ==> !h[k]
    ensures n <= j + 2 && a <= j && Cluster(h, a, j)
  {
    assert a <= n - 2 ==> h[n - 2] || h[n - 2 + 1];
  }

  lemma {:induction false} HitCountSplit(h: seq<bool>, i: nat, m: nat, j: nat)
    requires i <= m <= j <= |h|
    ensures HitCount(h, i, j) == HitCount(h, i, m) + HitCount(h, m, j)
  {
    if m < j { HitCountSplit(h, i, m, j - 1); }
  }

  lemma {:induction false} NoHits(h: seq<bool>, i: nat, j: nat)
    requires i <= j <= |h| && forall k :: i <= k < j ==> !h[k]
    ensures HitCount(h, i, j) == 0
  {
    if i < j { NoHits(h, i, j - 1); }
  }

  /** The clusters that end at a new hit `n` extend the current run, or start at `n`. */
  lemma NextRun(h: seq<bool>, n: nat, s: nat, j: nat)
    requires CurrentRun(h, n, s, j) && n < |h| && h[n]
    ensures n <= j + 2 ==> CurrentRun(h, n + 1, s, n) && HitCount(h, s, n + 1) == HitCount(h, s, j + 1) + 1
    ensures n > j + 2 ==> CurrentRun(h, n + 1, n, n) && HitCount(h, n, n + 1) == 1
  {
    HitCountSplit(h, s, j + 1, n);
    NoHits(h, j + 1, n);
    assert HitCount(h, n, n) == 0;
    if n <= j + 2 {
      forall k | s <= k < n ensures h[k] || h[k + 1] { assert k == n - 1 || k <= j - 1 || k == j; }
      forall a: nat | Cluster(h, a, n) ensures s <= a { if a < n { ClusterFront(h, a, n, j); } }
    } else {
      forall a: nat | Cluster(h, a, n) ensures n <= a { if a < n { ClusterFront(h, a, n, j); } }
    }
  }

  lemma {:induction false} FirstRun(h: seq<bool>, n: nat)
    requires n < |h| && h[n] && forall k :: 0 <= k < n ==> !h[k]
    ensures CurrentRun(h, n + 1, n, n) && HitCount(h, n, n + 1) == 1
    ensures BestBefore(h, n + 1, n, n)
  {
    assert HitCount(h, n, n) == 0;
  }

  /** A longer run becomes the best; one that is not longer leaves the best as it is. */
  lemma NextBest(h: seq<bool>, n: nat, i: nat, j: nat, s: nat)
    requires BestBefore(h, n, i, j) && n < |h| && CurrentRun(h, n + 1, s, n)
    ensures HitCount(h, s, n + 1) > HitCount(h, i, j + 1) ==> BestBefore(h, n + 1, s, n)
    ensures HitCount(h, s, n + 1) <= HitCount(h, i, j + 1) && i <= s ==> BestBefore(h, n + 1, i, j)
  {
    forall a: nat, b: nat | Cluster(h, a, b) && b < n + 1
      ensures HitCount(h, a, b + 1) <= HitCount(h, i, j + 1)
              || (b == n && HitCount(h, a, b + 1) <= HitCount(h, s, n + 1))
      ensures b == n ==> s <= a
    {
      if b == n { HitCountGrows(h, s, a, n + 1); }
    }
  }

  /** What the scan knows after `n` samples with a hit among them. */
  ghost predicate Scanned(h: seq<bool>, n: nat, s: nat, last: nat, runCount: nat, i: nat, j: nat, count: nat) {
    && CurrentRun(h, n, s, last) && runCount == HitCount(h, s, last + 1)
    && BestBefore(h, n, i, j) && count == HitCount(h, i, j + 1) && count > 0 && i <= s
  }

  lemma FirstScan(h: seq<bool>, n: nat)
    requires n < |h| && h[n] && forall k :: 0 <= k < n ==> !h[k]
    ensures Scanned(h, n + 1, n, n, 1, n, n, 1)
  {
    FirstRun(h, n);
  }

  lemma NextScan(h: seq<bool>, n: nat, s: nat, last: nat, runCount: nat, i: nat, j: nat, count: nat)
    requires n < |h| && h[n] && Scanned(h, n, s, last, runCount, i, j, count)
    ensures var t, c := if n > last + 2 then n else s, if n > last + 2 then 1 else runCount + 1;
            if c > count then Scanned(h, n + 1, t, n, c, t, n, c) else Scanned(h, n + 1, t, n, c, i, j, count)
  {
    NextRun(h, n, s, last);
    NextBest(h, n, i, j, if n > last + 2 then n else s);
  }

  lemma MissScan(h: seq<bool>, n: nat, s: nat, last: nat, runCount: nat, i: nat, j: nat, count: nat)
    requires n < |h| && !h[n] && Scanned(h, n, s, last, runCount, i, j, count)
    ensures Scanned(h, n + 1, s, last, runCount, i, j, count)
  {
  }

  /** The inner loop of `detect`: the extent of the first largest cluster of a row. */
  method LargestCluster(h: seq<bool>, step: nat, width: nat)
      returns (count: nat, x0: nat, x1: nat, ghost i: nat, ghost j: nat)
    requires step > 0
    ensures count == 0 <==> forall k :: 0 <= k < |h| ==> !h[k]
    ensures count > 0 ==> BestBefore(h, |h|, i, j) && count == HitCount(h, i, j + 1)
                          && x0 == i * step && x1 == Min(width, j * step + step)
  {
    count, x0, x1, i, j := 0, 0, 0, 0, 0;
    var runCount, runX0, lastGreen, seen := 0, 0, 0, false;
    ghost var s, last := 0, 0;
    for n := 0 to |h|
      invariant !seen ==> count == 0 && forall k :: 0 <= k < n ==> !h[k]
      invariant seen ==> Scanned(h, n, s, last, runCount, i, j, count) && runX0 == s * step && lastGreen == last * step
      invariant seen ==> x0 == i * step && x1 == Min(width, j * step + step)
    {
      var x := n * step;
      if h[n] {
        GapInSteps(n, last, step);
        if seen { NextScan(h, n, s, last, runCount, i, j, count); } else { FirstScan(h, n); }
        if !seen || x > lastGreen + step * 2 {
          runCount, runX0 := 0, x;
          s := n;
        }
        runCount, lastGreen, last := runCount + 1, x, n;
        if runCount > count {
          count, x0, x1, i, j := runCount, runX0, Min(width, x + step), s, n;
        }
        seen := true;
      } else if seen {
        MissScan(h, n, s, last, runCount, i, j, count);
      }
    }
  }

  lemma GapInSteps(n: nat, last: nat, step: nat)
    requires step > 0
    ensures n * step > last * step + step * 2 <==> n > last + 2
  {
    if n > last + 2 { Multiples(last + 3, n, step); } else { Multiples(n, last + 2, step); }
  }

  // ----- dense rows -----

  function MinimumGreen(width: nat): nat { AtLeastOneCeil(Columns(width), 450) }

  /** Row `b.y` is dense, and the band spans its first largest cluster. */
  ghost predicate IsBand(im: Raster, b: Band)
    requires ValidRaster(im)
  {
    && b.y < im.height
    && exists i: nat, j: nat :: Spans(Samples(im, b.y), i, j, Step(im.width), im.width, b)
  }

  ghost predicate Spans(h: seq<bool>, i: nat, j: nat, step: nat, width: nat, b: Band) {
    && BestBefore(h, |h|, i, j) && HitCount(h, i, j + 1) >= MinimumGreen(width)
    && b.x0 == i * step && b.x1 == Min(width, j * step + step)
  }

  lemma BestUnique(h: seq<bool>, n: nat, i: nat, j: nat, a: nat, b: nat)
    requires BestBefore(h, n, i, j) && BestBefore(h, n, a, b)
    ensures i == a && j == b
  {
    FurtherHit(h, i, j, b);
    FurtherHit(h, i, b, j);
  }

  lemma FurtherHit(h: seq<bool>, i: nat, j: nat, b: nat)
    ensures i <= j < b < |h| && h[b] ==> HitCount(h, i, j + 1) < HitCount(h, i, b + 1)
  {
    if i <= j < b < |h| { HitCountSplit(h, i, j + 1, b); }
  }

  lemma BandUnique(im: Raster, b: Band, c: Band)
    requires ValidRaster(im) && IsBand(im, b) && IsBand(im, c) && b.y == c.y
    ensures b == c
  {
    var h, s := Samples(im, b.y), Step(im.width);
    var i: nat, j: nat :| Spans(h, i, j, s, im.width, b);
    var k: nat, l: nat :| Spans(h, k, l, s, im.width, c);
    BestUnique(h, |h|, i, j, k, l);
  }

  lemma BandInside(im: Raster, b: Band)
    requires ValidRaster(im) && IsBand(im, b)
    ensures b.x0 < b.x1 <= im.width && b.y < im.height
  {
    var h, s := Samples(im, b.y), Step(im.width);
    var i: nat, j: nat :| Spans(h, i, j, s, im.width, b);
    ColumnInside(im.width, i);
    Multiples(i, j, s);
  }

  predicate RowsIncrease(dense: seq<Band>) { forall i, j :: 0 <= i < j < |dense| ==> dense[i].y < dense[j].y }

  /** The outer loop of `detect`: exactly the bands of the dense rows, from top to bottom. */
  method DenseRows(im: Raster) returns (dense: seq<Band>)
    requires ValidRaster(im)
    ensures RowsIncrease(dense) && forall b :: b in dense <==> IsBand(im, b)
  {
    dense := [];
    var step := Step(im.width);
    for y := 0 to im.height
      invariant RowsIncrease(dense) && forall b :: b in dense <==> b.y < y && IsBand(im, b)
    {
      var h := Samples(im, y);
      ghost var i, j;
      var count, x0, x1;
      count, x0, x1, i, j := LargestCluster(h, step, im.width);
      if count >= MinimumGreen(im.width) {
        var band := Band(y, x0, x1);
        assert Spans(h, i, j, step, im.width, band);
        forall b: Band | b.y == y && IsBand(im, b) ensures b == band { BandUnique(im, b, band); }
        forall k | 0 <= k < |dense| ensures dense[k].y < y { assert dense[k] in dense; }
        dense := dense + [band];
      } else {
        forall b: Band | b.y == y ensures !IsBand(im, b) { SparseRow(im, h, i, j, count, b); }
      }
    }
  }

  lemma {:induction false} SparseRow(im: Raster, h: seq<bool>, i: nat, j: nat, count: nat, b: Band)
    requires ValidRaster(im) && b.y < im.height && h == Samples(im, b.y) && count < MinimumGreen(im.width)
    requires count == 0 ==> forall k :: 0 <= k < |h| ==> !h[k]
    requires count > 0 ==> BestBefore(h, |h|, i, j) && count == HitCount(h, i, j + 1)
    ensures !IsBand(im, b)
  {
    forall a: nat, c: nat ensures BestBefore(h, |h|, a, c) && count > 0 ==> HitCount(h, a, c + 1) == count {
      if BestBefore(h, |h|, a, c) && count > 0 { BestUnique(h, |h|, i, j, a, c); }
    }
  }

  // ----- runs of dense rows -----

  function Extend(runs: seq<Run>, b: Band): seq<Run> {
    var k := |runs| - 1;
    if runs == [] || b.y != runs[k].end then runs + [Run(b.y, b.y + 1, b.x0, b.x1)]
    else runs[..k] + [Run(runs[k].start, b.y + 1, Min(runs[k].x0, b.x0), Max(runs[k].x1, b.x1))]
  }

  function Merge(dense: seq<Band>): seq<Run> {
    if dense == [] then [] else Extend(Merge(dense[..|dense| - 1]), dense[|dense| - 1])
  }

  predicate Within(r: Run, b: Band) { r.start <= b.y < r.end }

  predicate HasRow(dense: seq<Band>, y: nat) { exists i :: 0 <= i < |dense| && dense[i].y == y }

  /** The run covers dense rows only, and its extent is exactly their common extent. */
  predicate RunOf(dense: seq<Band>, r: Run) {
    && r.start < r.end && (forall y: nat :: r.start <= y < r.end ==> HasRow(dense, y))
    && (forall i :: 0 <= i < |dense| && Within(r, dense[i]) ==> r.x0 <= dense[i].x0 && dense[i].x1 <= r.x1)
    && (exists i :: 0 <= i < |dense| && Within(r, dense[i]) && dense[i].x0 == r.x0)
    && (exists i :: 0 <= i < |dense| && Within(r, dense[i]) && dense[i].x1 == r.x1)
  }

  predicate Covered(runs: seq<Run>, b: Band) { exists k :: 0 <= k < |runs| && Within(runs[k], b) }

  /** Between two runs there is a row that is not dense. */
  predicate Separated(runs: seq<Run>) { forall i, j :: 0 <= i < j < |runs| ==> runs[i].end < runs[j].start }

  /** The runs are the dense rows, grouped as far as they are consecutive. */
  predicate IsMerged(dense: seq<Band>, runs: seq<Run>) {
    AllRunsOf(dense, runs) && Separated(runs) && AllCovered(runs, dense)
  }

  lemma RunStays(dense: seq<Band>, b: Band, r: Run)
    requires RunOf(dense, r) && r.end <= b.y
    ensures RunOf(dense + [b], r)
  {
    var longer := dense + [b];
    forall y: nat | r.start <= y < r.end ensures HasRow(longer, y) {
      assert HasRow(dense, y);
      var i :| 0 <= i < |dense| && dense[i].y == y;
      assert longer[i].y == y;
    }
    var i :| 0 <= i < |dense| && Within(r, dense[i]) && dense[i].x0 == r.x0;
    var j :| 0 <= j < |dense| && Within(r, dense[j]) && dense[j].x1 == r.x1;
    assert longer[i] == dense[i] && longer[j] == dense[j];
  }

  lemma RunGrows(dense: seq<Band>, b: Band, r: Run)
    requires RunOf(dense, r) && r.end == b.y && AllAbove(dense, b.y)
    ensures RunOf(dense + [b], Run(r.start, b.y + 1, Min(r.x0, b.x0), Max(r.x1, b.x1)))
  {
    var longer, n, grown := dense + [b], |dense|, Run(r.start, b.y + 1, Min(r.x0, b.x0), Max(r.x1, b.x1));
    assert longer[n] == b && Within(grown, b);
    forall y: nat | grown.start <= y < grown.end ensures HasRow(longer, y) {
      if y < r.end {
        assert HasRow(dense, y);
        var i :| 0 <= i < n && dense[i].y == y;
        assert longer[i].y == y;
      }
    }
    var i :| 0 <= i < n && Within(r, dense[i]) && dense[i].x0 == r.x0;
    var j :| 0 <= j < n && Within(r, dense[j]) && dense[j].x1 == r.x1;
    assert longer[i] == dense[i] && Within(grown, longer[i]) && longer[j] == dense[j] && Within(grown, longer[j]);
  }

  lemma RunStarts(dense: seq<Band>, b: Band)
    requires AllAbove(dense, b.y)
    ensures RunOf(dense + [b], Run(b.y, b.y + 1, b.x0, b.x1))
  {
    var longer := dense + [b];
    assert longer[|dense|] == b && HasRow(longer, b.y) && Within(Run(b.y, b.y + 1, b.x0, b.x1), longer[|dense|]);
  }

  lemma RunEnds(dense: seq<Band>, b: Band, r: Run)
    requires RunOf(dense, r) && AllAbove(dense, b.y)
    ensures r.end <= b.y
  {
    assert HasRow(dense, r.end - 1);
  }

  predicate AllRunsOf(dense: seq<Band>, runs: seq<Run>) {
    forall k {:trigger RunOf(dense, runs[k])} :: 0 <= k < |runs| ==> RunOf(dense, runs[k])
  }

  predicate AllCovered(runs: seq<Run>, dense: seq<Band>) {
    forall i {:trigger Covered(runs, dense[i])} :: 0 <= i < |dense| ==> Covered(runs, dense[i])
  }

  predicate AllAbove(dense: seq<Band>, y: nat) { forall i :: 0 <= i < |dense| ==> dense[i].y < y }

  lemma RunsStay(dense: seq<Band>, runs: seq<Run>, b: Band)
    requires AllRunsOf(dense, runs) && AllAbove(dense, b.y)
    ensures AllRunsOf(dense + [b], runs) && forall k :: 0 <= k < |runs| ==> runs[k].start < runs[k].end <= b.y
  {
    forall k | 0 <= k < |runs| ensures RunOf(dense + [b], runs[k]) && runs[k].start < runs[k].end <= b.y {
      RunEnds(dense, b, runs[k]);
      RunStays(dense, b, runs[k]);
    }
  }

  /** The runs but for the last, and the last with its replacement, which reaches the new row. */
  lemma CoverMore(dense: seq<Band>, runs: seq<Run>, next: seq<Run>, b: Band)
    requires AllCovered(runs, dense) && |runs| <= |next| && next != [] && Within(next[|next| - 1], b)
    requires forall k :: 0 <= k < |runs| ==> next[k].start <= runs[k].start && runs[k].end <= next[k].end
    ensures AllCovered(next, dense + [b])
  {
    forall i | 0 <= i < |dense| + 1 ensures Covered(next, (dense + [b])[i]) {
      if i < |dense| {
        assert Covered(runs, dense[i]);
        var k :| 0 <= k < |runs| && Within(runs[k], dense[i]);
        assert Within(next[k], dense[i]);
      }
    }
  }

  lemma AppendRun(dense: seq<Band>, front: seq<Run>, r: Run)
    requires AllRunsOf(dense, front) && RunOf(dense, r)
    ensures AllRunsOf(dense, front + [r])
  {
  }

  lemma NewRunMerged(dense: seq<Band>, runs: seq<Run>, b: Band)
    requires IsMerged(dense, runs) && AllAbove(dense, b.y) && (runs != [] ==> b.y != runs[|runs| - 1].end)
    ensures IsMerged(dense + [b], runs + [Run(b.y, b.y + 1, b.x0, b.x1)])
  {
    var r := Run(b.y, b.y + 1, b.x0, b.x1);
    RunsStay(dense, runs, b);
    RunStarts(dense, b);
    AppendRun(dense + [b], runs, r);
    CoverMore(dense, runs, runs + [r], b);
    AppendSeparated(runs, r);
  }

  lemma AppendSeparated(runs: seq<Run>, r: Run)
    requires Separated(runs) && (runs != [] ==> runs[|runs| - 1].end < r.start)
    requires forall k :: 0 <= k < |runs| ==> runs[k].start < runs[k].end
    ensures Separated(runs + [r])
  {
  }

  lemma GrownRunMerged(dense: seq<Band>, front: seq<Run>, r: Run, b: Band)
    requires IsMerged(dense, front + [r]) && AllAbove(dense, b.y) && b.y == r.end
    ensures IsMerged(dense + [b], front + [Run(r.start, b.y + 1, Min(r.x0, b.x0), Max(r.x1, b.x1))])
  {
    var grown, runs := Run(r.start, b.y + 1, Min(r.x0, b.x0), Max(r.x1, b.x1)), front + [r];
    assert runs[|front|] == r && forall k :: 0 <= k < |front| ==> runs[k] == front[k];
    RunsStay(dense, runs, b);
    RunGrows(dense, b, r);
    AppendRun(dense + [b], front, grown);
    CoverMore(dense, runs, front + [grown], b);
    forall k | 0 <= k < |front| ensures front[k].end < r.start { assert runs[k].end < runs[|front|].start; }
    AppendSeparated(front, grown);
  }

  lemma ExtendMerged(dense: seq<Band>, runs: seq<Run>, b: Band)
    requires IsMerged(dense, runs) && AllAbove(dense, b.y)
    ensures IsMerged(dense + [b], Extend(runs, b))
  {
    var n := |runs| - 1;
    if runs == [] || b.y != runs[n].end {
      NewRunMerged(dense, runs, b);
    } else {
      assert runs == runs[..n] + [runs[n]];
      GrownRunMerged(dense, runs[..n], runs[n], b);
    }
  }

  lemma SplitLast(dense: seq<Band>)
    requires RowsIncrease(dense) && dense != []
    ensures var front, last := dense[..|dense| - 1], dense[|dense| - 1];
            RowsIncrease(front) && AllAbove(front, last.y) && dense == front + [last]
  {
  }

  lemma {:induction false} MergeMerges(dense: seq<Band>)
    requires RowsIncrease(dense)
    ensures IsMerged(dense, Merge(dense))
  {
    if dense != [] {
      var front, last := dense[..|dense| - 1], dense[|dense| - 1];
      SplitLast(dense);
      MergeMerges(front);
      ExtendMerged(front, Merge(front), last);
    }
  }

  method MergeRows(dense: seq<Band>) returns (runs: seq<Run>)
    requires RowsIncrease(dense)
    ensures IsMerged(dense, runs)
  {
    runs := [];
    for i := 0 to |dense|
      invariant runs == Merge(dense[..i])
    {
      assert dense[..i + 1][..i] == dense[..i];
      var b := dense[i];
      if runs == [] || b.y != runs[|runs| - 1].end {
        runs := runs + [Run(b.y, b.y + 1, b.x0, b.x1)];
      } else {
        var r := runs[|runs| - 1];
        runs := runs[..|runs| - 1] + [Run(r.start, b.y + 1, Min(r.x0, b.x0), Max(r.x1, b.x1))];
      }
    }
    assert dense[..|dense|] == dense;
    MergeMerges(dense);
  }

  // ----- thin runs, and the cards between them -----

  predicate Thick(height: nat, r: Run) { r.end - r.start > AtLeastOneCeil(height, 12) }

  /** Thin enough for a border, and at least 70% of the page wide. */
  predicate Border(width: nat, height: nat, r: Run) { !Thick(height, r) && 10 * (r.x1 - r.x0) >= 7 * width }

  function Borders(width: nat, height: nat, runs: seq<Run>): seq<Run> {
    if runs == [] then []
    else Borders(width, height, runs[..|runs| - 1])
         + if Border(width, height, runs[|runs| - 1]) then [runs[|runs| - 1]] else []
  }

  predicate ThickBetween(height: nat, runs: seq<Run>, top: Run, bottom: Run) {
    exists k :: 0 <= k < |runs| && runs[k].start >= top.end && runs[k].end <= bottom.start && Thick(height, runs[k])
  }

  /** Between 10% and 30% of the page high from center to center, edges within 8% of its width, nothing thick
      between. */
  predicate Pair(width: nat, height: nat, runs: seq<Run>, top: Run, bottom: Run) {
    && height <= 5 * ((bottom.start + bottom.end) - (top.start + top.end)) <= 3 * height
    && 25 * Abs(top.x0 - bottom.x0) <= 2 * width && 25 * Abs(top.x1 - bottom.x1) <= 2 * width
    && !ThickBetween(height, runs, top, bottom)
  }

  function CardOf(top: Run, bottom: Run): Region {
    Region(Min(top.x0, bottom.x0), top.start, Max(top.x1, bottom.x1), bottom.end)
  }

  lemma {:induction false} BordersExactly(width: nat, height: nat, runs: seq<Run>)
    requires Separated(runs)
    ensures Separated(Borders(width, height, runs))
    ensures forall r :: r in Borders(width, height, runs) <==> r in runs && Border(width, height, r)
  {
    if runs != [] {
      var front, last := runs[..|runs| - 1], runs[|runs| - 1];
      BordersExactly(width, height, front);
      assert runs == front + [last];
      forall r | r in Borders(width, height, front) ensures r.end < last.start {
        var k :| 0 <= k < |front| && front[k] == r;
        assert runs[k] == r;
      }
    }
  }

  predicate Opens(width: nat, height: nat, runs: seq<Run>, borders: seq<Run>, k: int) {
    0 <= k && k + 1 < |borders| && Pair(width, height, runs, borders[k], borders[k + 1])
  }

  /** Border `k` opens a card exactly when it pairs with the next one and is not itself the bottom of a card. */
  ghost predicate Chosen(width: nat, height: nat, runs: seq<Run>, borders: seq<Run>, opening: seq<nat>) {
    && (forall k: nat :: k in opening <==> Opens(width, height, runs, borders, k) && !TakenBefore(k, opening))
    && forall i, j :: 0 <= i < j < |opening| ==> opening[i] + 1 < opening[j]
  }

  predicate Disjoint(opening: set<nat>) { forall k :: k in opening ==> k + 1 !in opening }

  predicate Reached(k: nat, chosen: set<nat>) { k in chosen || (k > 0 && k - 1 in chosen) }

  predicate TakenBefore(k: nat, opening: seq<nat>) { k > 0 && k - 1 in opening }

  /** No choice of pairs that shares no border finds more cards. */
  lemma {:induction false} MostCards(other: set<nat>, chosen: set<nat>)
    requires Disjoint(other) && forall k :: k in other ==> Reached(k, chosen)
    ensures |other| <= |chosen|
  {
    if k :| k in other {
      assert Reached(k, chosen);
      var o: nat := if k in chosen then k else k - 1;
      var rest, left := other - {k}, chosen - {o};
      forall j | j in rest ensures Reached(j, left) {
        assert j != k && k + 1 !in other && j + 1 !in other && Reached(j, chosen);
      }
      MostCards(rest, left);
      assert |other| == |rest| + 1 && |chosen| == |left| + 1;
    } else {
      assert other == {};
    }
  }

  /** The last loop of `detect`. */
  method PairBorders(width: nat, height: nat, runs: seq<Run>, borders: seq<Run>)
      returns (regions: seq<Region>, ghost opening: seq<nat>)
    ensures Chosen(width, height, runs, borders, opening)
    ensures CardsOf(borders, opening, regions)
    ensures forall r :: r in regions ==>
              exists k: nat :: Opens(width, height, runs, borders, k) && r == CardOf(borders[k], borders[k + 1])
  {
    regions, opening := [], [];
    var index := 0;
    while index + 1 < |borders|
      invariant 0 <= index
      invariant forall k: nat :: k in opening ==> k + 2 <= index
      invariant forall k: nat :: k < index ==>
                (k in opening <==> Opens(width, height, runs, borders, k) && !TakenBefore(k, opening))
      invariant forall i, j :: 0 <= i < j < |opening| ==> opening[i] + 1 < opening[j]
      invariant CardsOf(borders, opening, regions)
    {
      var top, bottom := borders[index], borders[index + 1];
      if Pair(width, height, runs, top, bottom) {
        forall i | 0 <= i < |opening| ensures opening[i] + 1 < index { assert opening[i] in opening; }
        regions := regions + [CardOf(top, bottom)];
        ghost var before := opening;
        opening := opening + [index];
        assert forall k: nat :: k in opening <==> k in before || k == index;
        index := index + 2;
      } else {
        index := index + 1;
      }
    }
    forall r | r in regions
      ensures exists k: nat :: Opens(width, height, runs, borders, k) && r == CardOf(borders[k], borders[k + 1]) {
      var m :| 0 <= m < |regions| && regions[m] == r;
      assert opening[m] in opening;
    }
  }

  // ----- the detector, and the check on what it reports -----

  predicate InBounds(im: Raster, r: Region) { r.x0 < r.x1 <= im.width && r.y0 < r.y1 <= im.height }

  /** The order of the keys `(y0, x0, y1, x1)`. */
  predicate KeyAtMost(a: Region, b: Region) {
    a.y0 < b.y0 || (a.y0 == b.y0 && (a.x0 < b.x0 || (a.x0 == b.x0 && (a.y1 < b.y1 || (a.y1 == b.y1 && a.x1 <= b.x1)))))
  }

  /** The check of `_layout_evidence`: sorted keys, no key twice, positive extent inside the page. */
  predicate EvidenceAccepts(im: Raster, regions: seq<Region>) {
    && (forall i, j :: 0 <= i < j < |regions| ==> KeyAtMost(regions[i], regions[j]) && regions[i] != regions[j])
    && forall i :: 0 <= i < |regions| ==> InBounds(im, regions[i])
  }

  /** Inside the page, wide and high enough, and not too high. */
  predicate CardInLimits(im: Raster, r: Region) {
    && InBounds(im, r) && 10 * (r.x1 - r.x0) >= 7 * im.width
    && im.height <= 10 * (r.y1 - r.y0) <= 3 * im.height + 10 * AtLeastOneCeil(im.height, 12)
  }

  /** Cards from top to bottom without touching each other, all within the limits. */
  predicate WellFormed(im: Raster, regions: seq<Region>) {
    && (forall i, j :: 0 <= i < j < |regions| ==> regions[i].y1 < regions[j].y0)
    && forall i :: 0 <= i < |regions| ==> CardInLimits(im, regions[i])
  }

  lemma WellFormedAccepted(im: Raster, regions: seq<Region>)
    requires WellFormed(im, regions)
    ensures EvidenceAccepts(im, regions)
  {
    forall i, j | 0 <= i < j < |regions| ensures KeyAtMost(regions[i], regions[j]) && regions[i] != regions[j] {
      assert regions[i].y0 < regions[i].y1 < regions[j].y0;
    }
  }

  predicate RunInside(im: Raster, r: Run) { r.start < r.end <= im.height && r.x0 < r.x1 <= im.width }

  lemma RunsInside(im: Raster, dense: seq<Band>, runs: seq<Run>)
    requires ValidRaster(im) && (forall b :: b in dense ==> IsBand(im, b)) && IsMerged(dense, runs)
    ensures AllInside(im, runs)
  {
    forall k | 0 <= k < |runs| ensures RunInside(im, runs[k]) {
      assert RunOf(dense, runs[k]);
      OneRunInside(im, dense, runs[k]);
    }
  }

  lemma OneRunInside(im: Raster, dense: seq<Band>, r: Run)
    requires ValidRaster(im) && (forall b :: b in dense ==> IsBand(im, b)) && RunOf(dense, r)
    ensures RunInside(im, r)
  {
    assert HasRow(dense, r.end - 1);
    var y :| 0 <= y < |dense| && dense[y].y == r.end - 1;
    var i :| 0 <= i < |dense| && Within(r, dense[i]) && dense[i].x0 == r.x0;
    var j :| 0 <= j < |dense| && Within(r, dense[j]) && dense[j].x1 == r.x1;
    BandInside(im, dense[y]);
    BandInside(im, dense[i]);
    BandInside(im, dense[j]);
  }

  lemma CardWellFormed(im: Raster, runs: seq<Run>, top: Run, bottom: Run)
    requires ValidRaster(im) && RunInside(im, top) && RunInside(im, bottom) && top.end < bottom.start
    requires Border(im.width, im.height, top) && Border(im.width, im.height, bottom)
             && Pair(im.width, im.height, runs, top, bottom)
    ensures CardInLimits(im, CardOf(top, bottom))
  {
  }

  ghost predicate AllInside(im: Raster, runs: seq<Run>) { forall k :: 0 <= k < |runs| ==> RunInside(im, runs[k]) }

  lemma ChosenCard(im: Raster, runs: seq<Run>, borders: seq<Run>, k: nat)
    requires ValidRaster(im) && Separated(borders) && Opens(im.width, im.height, runs, borders, k)
    requires forall r :: r in borders ==> RunInside(im, r) && Border(im.width, im.height, r)
    ensures CardInLimits(im, CardOf(borders[k], borders[k + 1]))
  {
    assert borders[k] in borders && borders[k + 1] in borders;
    CardWellFormed(im, runs, borders[k], borders[k + 1]);
  }

  lemma CardsApart(borders: seq<Run>, opening: seq<nat>, regions: seq<Region>, i: nat, j: nat)
    requires Separated(borders) && CardsOf(borders, opening, regions) && i < j < |regions|
             && opening[i] + 1 < opening[j]
    ensures regions[i].y1 < regions[j].y0
  {
    assert borders[opening[i] + 1].end < borders[opening[j]].start;
  }

  lemma {:induction false} RegionsWellFormed(im: Raster, runs: seq<Run>, opening: seq<nat>, regions: seq<Region>)
    requires ValidRaster(im) && Separated(runs) && AllInside(im, runs)
    requires Chosen(im.width, im.height, runs, Borders(im.width, im.height, runs), opening)
    requires CardsOf(Borders(im.width, im.height, runs), opening, regions)
    ensures WellFormed(im, regions)
  {
    var borders := Borders(im.width, im.height, runs);
    BordersExactly(im.width, im.height, runs);
    forall i | 0 <= i < |regions| ensures CardInLimits(im, regions[i]) {
      assert opening[i] in opening;
      ChosenCard(im, runs, borders, opening[i]);
    }
    forall i, j | 0 <= i < j < |regions| ensures regions[i].y1 < regions[j].y0 {
      CardsApart(borders, opening, regions, i, j);
    }
  }

  ghost predicate CardsOf(borders: seq<Run>, opening: seq<nat>, regions: seq<Region>) {
    |regions| == |opening| && forall m :: 0 <= m < |opening| ==>
      opening[m] + 1 < |borders| && regions[m] == CardOf(borders[opening[m]], borders[opening[m] + 1])
  }

  lemma {:induction false} SizeOf(opening: seq<nat>)
    requires forall i, j :: 0 <= i < j < |opening| ==> opening[i] + 1 < opening[j]
    ensures |Elements(opening)| == |opening|
  {
    if opening == [] {
      assert Elements(opening) == {};
    } else {
      var front, last := opening[..|opening| - 1], opening[|opening| - 1];
      SizeOf(front);
      assert opening == front + [last] && last !in front;
      assert Elements(opening) == Elements(front) + {last};
    }
  }

  /** The pairs taken are the most that any choice without a shared border can reach. */
  lemma ChoiceIsLargest(width: nat, height: nat, runs: seq<Run>, borders: seq<Run>, opening: seq<nat>, other: set<nat>)
    requires Chosen(width, height, runs, borders, opening)
    requires Disjoint(other) && forall k :: k in other ==> Opens(width, height, runs, borders, k)
    ensures |other| <= |opening|
  {
    SizeOf(opening);
    var chosen := Elements(opening);
    forall k | k in other ensures Reached(k, chosen) { assert k in opening || TakenBefore(k, opening); }
    MostCards(other, chosen);
  }

  /** `GreenCardBorderDetector.detect`. */
  method Detect(im: Raster)
      returns (r: Result<seq<Region>>, ghost dense: seq<Band>, ghost runs: seq<Run>, ghost opening: seq<nat>)
    ensures r.Ok? <==> ValidRaster(im)
    ensures r.Ok? ==> RowsIncrease(dense) && (forall b :: b in dense <==> IsBand(im, b)) && IsMerged(dense, runs)
    ensures r.Ok? ==> var borders := Borders(im.width, im.height, runs);
              Chosen(im.width, im.height, runs, borders, opening) && CardsOf(borders, opening, r.value)
    ensures r.Ok? ==> WellFormed(im, r.value) && EvidenceAccepts(im, r.value)
  {
    dense, runs, opening := [], [], [];
    if im.width <= 0 || im.height <= 0 || |im.rgb| != im.width * im.height * 3 {
      return Err("raster layout input is invalid"), dense, runs, opening;
    }
    var rows := DenseRows(im);
    var merged := MergeRows(rows);
    dense, runs := rows, merged;
    var regions;
    regions, opening := PairBorders(im.width, im.height, merged, Borders(im.width, im.height, merged));
    RunsInside(im, dense, runs);
    RegionsWellFormed(im, runs, opening, regions);
    WellFormedAccepted(im, regions);
    return Ok(regions), dense, runs, opening;
  }

  datatype Status = NotApplicable | Unavailable | Failed | NotDetected | Detected(regions: seq<Region>)

  /** `_layout_evidence` up to the scaling to points, with this detector or none. Its check of what the detector
      reports never fails: the evidence fails only on a raster that the detector refuses, and otherwise reports
      exactly the cards that the detector finds, if any. */
  method LayoutEvidence(year: int, im: Raster, detector: bool)
      returns (status: Status, ghost dense: seq<Band>, ghost runs: seq<Run>, ghost opening: seq<nat>,
               ghost cards: seq<Region>)
    ensures status == NotApplicable <==> year == 2023
    ensures status == Unavailable <==> year != 2023 && !detector
    ensures status == Failed <==> year != 2023 && detector && !ValidRaster(im)
    ensures year != 2023 && detector && ValidRaster(im) ==>
              var borders := Borders(im.width, im.height, runs);
              && RowsIncrease(dense) && (forall b :: b in dense <==> IsBand(im, b)) && IsMerged(dense, runs)
              && Chosen(im.width, im.height, runs, borders, opening) && CardsOf(borders, opening, cards)
              && status == if cards == [] then NotDetected else Detected(cards)
    ensures status.Detected? ==> status.regions != [] && WellFormed(im, status.regions)
  {
    dense, runs, opening, cards := [], [], [], [];
    if year == 2023 { return NotApplicable, dense, runs, opening, cards; }
    if !detector { return Unavailable, dense, runs, opening, cards; }
    var r;
    r, dense, runs, opening := Detect(im);
    if r.Err? { return Failed, dense, runs, opening, cards; }
    cards := r.value;
    if !EvidenceAccepts(im, r.value) { return Failed, dense, runs, opening, cards; }
    if r.value == [] { return NotDetected, dense, runs, opening, cards; }
    return Detected(r.value), dense, runs, opening, cards;
  }
}
