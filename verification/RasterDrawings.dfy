/** Which cards are found on which pages (src/ingestion/extract_ocr.py). */
module RasterDrawings {
  // The rule of the detector over runs of dense rows, in numbers; and, pixel by pixel, the runs of a page on
  // which nothing but green stripes is drawn.

  import opened RasterCards

  // ----- the rule, in numbers -----

  /** More than one row, and more than 1.2% of the page high. */
  predicate TooThick(height: nat, r: Run) { r.end - r.start > 1 && 1000 * (r.end - r.start - 1) >= 12 * height }

  /** A border: not too thick, and at least 70% of the page wide. */
  predicate IsBorder(width: nat, height: nat, r: Run) { !TooThick(height, r) && 10 * (r.x1 - r.x0) >= 7 * width }

  /** Twice the distance from center to center. */
  function Distance(a: Run, b: Run): int { (b.start + b.end) - (a.start + a.end) }

  /** Run `b` closes a card that run `a` opens: borders with no other border and nothing too thick between them,
      10% to 30% of the page apart, with edges within 8% of its width. */
  predicate CardBetween(width: nat, height: nat, runs: seq<Run>, a: nat, b: nat) {
    && a < b < |runs| && IsBorder(width, height, runs[a]) && IsBorder(width, height, runs[b])
    && (forall k :: a < k < b ==> !IsBorder(width, height, runs[k]) && !TooThick(height, runs[k]))
    && 10 * height <= 50 * Distance(runs[a], runs[b]) <= 30 * height
    && -8 * width <= 100 * (runs[a].x0 - runs[b].x0) <= 8 * width
    && -8 * width <= 100 * (runs[a].x1 - runs[b].x1) <= 8 * width
  }

  /** The card of two runs: from the top of the one to the bottom of the other, as wide as both. */
  predicate IsCard(r: Region, a: Run, b: Run) {
    && r.y0 == a.start && r.y1 == b.end
    && (r.x0 == a.x0 || r.x0 == b.x0) && r.x0 <= a.x0 && r.x0 <= b.x0
    && (r.x1 == a.x1 || r.x1 == b.x1) && r.x1 >= a.x1 && r.x1 >= b.x1
  }

  /** The cards from top to bottom; a card is left out only where its upper border closes the one before. */
  ghost predicate CardsFound(width: nat, height: nat, runs: seq<Run>, pairs: seq<(nat, nat)>, regions: seq<Region>) {
    && |regions| == |pairs|
    && (forall m :: 0 <= m < |pairs| ==>
          CardBetween(width, height, runs, pairs[m].0, pairs[m].1)
          && IsCard(regions[m], runs[pairs[m].0], runs[pairs[m].1]))
    && (forall m, n :: 0 <= m < n < |pairs| ==> pairs[m].1 < pairs[n].0)
    && forall a: nat, b: nat :: CardBetween(width, height, runs, a, b) ==> (a, b) in pairs || Closes(pairs, a)
  }

  predicate Closes(pairs: seq<(nat, nat)>, a: nat) { exists m :: 0 <= m < |pairs| && pairs[m].1 == a }

  lemma ThickExactly(height: nat, r: Run)
    ensures Thick(height, r) <==> TooThick(height, r)
  {
    CeilExactly(height, 12, if r.end > r.start then r.end - r.start - 1 else 0);
  }

  lemma BorderExactly(width: nat, height: nat, r: Run)
    ensures Border(width, height, r) <==> IsBorder(width, height, r)
  {
    ThickExactly(height, r);
  }

  /** The runs at these places are the borders, from top to bottom. */
  ghost predicate AreBorders(width: nat, height: nat, runs: seq<Run>, places: seq<nat>, borders: seq<Run>) {
    && |places| == |borders|
    && (forall k :: 0 <= k < |places| ==> places[k] < |runs| && runs[places[k]] == borders[k])
    && (forall k, l :: 0 <= k < l < |places| ==> places[k] < places[l])
    && forall p :: p in places <==> 0 <= p < |runs| && IsBorder(width, height, runs[p])
  }

  lemma NoBorder(width: nat, height: nat, runs: seq<Run>, places: seq<nat>, borders: seq<Run>, last: Run)
    requires AreBorders(width, height, runs, places, borders) && !IsBorder(width, height, last)
    ensures AreBorders(width, height, runs + [last], places, borders)
  {
  }

  lemma OneMoreBorder(width: nat, height: nat, runs: seq<Run>, places: seq<nat>, borders: seq<Run>, last: Run)
    requires AreBorders(width, height, runs, places, borders) && IsBorder(width, height, last)
    ensures AreBorders(width, height, runs + [last], places + [|runs|], borders + [last])
  {
    var more, longer := places + [|runs|], runs + [last];
    forall k, l | 0 <= k < l < |more| ensures more[k] < more[l] { assert k < |places| ==> places[k] in places; }
    forall p ensures p in more <==> 0 <= p < |longer| && IsBorder(width, height, longer[p]) {
      assert p in more <==> p in places || p == |runs|;
    }
  }

  /** Where the borders stand among the runs. */
  lemma {:induction false} BorderPlaces(width: nat, height: nat, runs: seq<Run>) returns (places: seq<nat>)
    ensures AreBorders(width, height, runs, places, Borders(width, height, runs))
  {
    if runs == [] {
      places := [];
    } else {
      var front, last := runs[..|runs| - 1], runs[|runs| - 1];
      assert runs == front + [last];
      places := BorderPlaces(width, height, front);
      BorderExactly(width, height, last);
      if Border(width, height, last) {
        OneMoreBorder(width, height, front, places, Borders(width, height, front), last);
        places := places + [|front|];
      } else {
        NoBorder(width, height, front, places, Borders(width, height, front), last);
      }
    }
  }

  predicate PositiveRuns(runs: seq<Run>) { forall k :: 0 <= k < |runs| ==> runs[k].start < runs[k].end }

  /** Nothing thick between two runs, seen by their places. */
  lemma ThickBetweenExactly(height: nat, runs: seq<Run>, a: nat, b: nat)
    requires Separated(runs) && PositiveRuns(runs) && a < b < |runs|
    ensures ThickBetween(height, runs, runs[a], runs[b]) <==> exists k :: a < k < b && TooThick(height, runs[k])
  {
    forall k | 0 <= k < |runs|
      ensures runs[k].start >= runs[a].end && runs[k].end <= runs[b].start <==> a < k < b
      ensures Thick(height, runs[k]) <==> TooThick(height, runs[k])
    {
      ThickExactly(height, runs[k]);
    }
  }

  lemma NeighbouringBorders(width: nat, height: nat, runs: seq<Run>, places: seq<nat>, borders: seq<Run>, k: nat)
    requires AreBorders(width, height, runs, places, borders) && k + 1 < |places|
    ensures var a, b := places[k], places[k + 1];
            && a < b < |runs| && runs[a] == borders[k] && runs[b] == borders[k + 1]
            && IsBorder(width, height, runs[a]) && IsBorder(width, height, runs[b])
            && forall p :: a < p < b ==> !IsBorder(width, height, runs[p])
  {
    var a, b := places[k], places[k + 1];
    assert a in places && b in places;
    forall p | 0 <= p < |runs| && IsBorder(width, height, runs[p]) ensures p <= a || p >= b {
      assert p in places;
      NotBetween(places, k, p);
    }
  }

  lemma NotBetween(places: seq<nat>, k: nat, p: nat)
    requires (forall k, l :: 0 <= k < l < |places| ==> places[k] < places[l]) && k + 1 < |places| && p in places
    ensures p <= places[k] || p >= places[k + 1]
  {
    var l :| 0 <= l < |places| && places[l] == p;
    assert l <= k || l >= k + 1;
  }

  /** Neighbouring borders pair exactly when there is a card between their places. */
  lemma PairExactly(width: nat, height: nat, runs: seq<Run>, a: nat, b: nat)
    requires Separated(runs) && PositiveRuns(runs) && a < b < |runs|
    requires IsBorder(width, height, runs[a]) && IsBorder(width, height, runs[b])
    requires forall p :: a < p < b ==> !IsBorder(width, height, runs[p])
    ensures Pair(width, height, runs, runs[a], runs[b]) <==> CardBetween(width, height, runs, a, b)
  {
    ThickBetweenExactly(height, runs, a, b);
  }

  lemma {:induction false} OpensExactly(width: nat, height: nat, runs: seq<Run>, places: seq<nat>, k: nat)
    requires Separated(runs) && PositiveRuns(runs)
    requires AreBorders(width, height, runs, places, Borders(width, height, runs)) && k + 1 < |places|
    ensures Opens(width, height, runs, Borders(width, height, runs), k)
            <==> CardBetween(width, height, runs, places[k], places[k + 1])
  {
    var borders := Borders(width, height, runs);
    NeighbouringBorders(width, height, runs, places, borders, k);
    PairExactly(width, height, runs, places[k], places[k + 1]);
    OpensIsPair(width, height, runs, borders, k);
  }

  lemma OpensIsPair(width: nat, height: nat, runs: seq<Run>, borders: seq<Run>, k: nat)
    requires k + 1 < |borders|
    ensures Opens(width, height, runs, borders, k) <==> Pair(width, height, runs, borders[k], borders[k + 1])
  {
  }

  /** A card between two runs is one between neighbouring borders. */
  lemma CardNeighbours(width: nat, height: nat, runs: seq<Run>, places: seq<nat>, borders: seq<Run>, a: nat, b: nat)
      returns (k: int)
    requires AreBorders(width, height, runs, places, borders) && CardBetween(width, height, runs, a, b)
    ensures 0 <= k && k + 1 < |places| && places[k] == a && places[k + 1] == b
  {
    assert a in places && b in places;
    k :| 0 <= k < |places| && places[k] == a;
    var l :| 0 <= l < |places| && places[l] == b;
    BorderBetween(width, height, runs, places, borders, k, l);
  }

  lemma BorderBetween(width: nat, height: nat, runs: seq<Run>, places: seq<nat>, borders: seq<Run>, k: nat, l: nat)
    requires AreBorders(width, height, runs, places, borders) && k < |places| && l < |places|
    ensures l > k + 1 ==>
              places[k] < places[k + 1] < places[l] && IsBorder(width, height, runs[places[k + 1]])
    ensures l <= k ==> places[l] <= places[k]
  {
    assert l > k + 1 ==> places[k + 1] in places;
  }

  /** The pairs of places that the detector takes. */
  function PairsOf(places: seq<nat>, opening: seq<nat>): (pairs: seq<(nat, nat)>)
    requires forall m :: 0 <= m < |opening| ==> opening[m] + 1 < |places|
    ensures |pairs| == |opening|
  {
    seq(|opening|, m requires 0 <= m < |opening| => (places[opening[m]], places[opening[m] + 1]))
  }

  lemma OpeningInside(width: nat, height: nat, runs: seq<Run>, borders: seq<Run>, opening: seq<nat>, m: nat)
    requires Chosen(width, height, runs, borders, opening) && m < |opening|
    ensures opening[m] + 1 < |borders| && Opens(width, height, runs, borders, opening[m])
  {
    assert opening[m] in opening;
  }

  /** What the detector finds among separate runs are exactly the cards of the rule. */
  lemma CardsExactly(width: nat, height: nat, runs: seq<Run>, opening: seq<nat>, regions: seq<Region>)
      returns (pairs: seq<(nat, nat)>)
    requires Separated(runs) && PositiveRuns(runs)
    requires Chosen(width, height, runs, Borders(width, height, runs), opening)
    requires CardsOf(Borders(width, height, runs), opening, regions)
    ensures CardsFound(width, height, runs, pairs, regions)
  {
    var borders := Borders(width, height, runs);
    var places := BorderPlaces(width, height, runs);
    forall m | 0 <= m < |opening| ensures opening[m] + 1 < |places| {
      OpeningInside(width, height, runs, borders, opening, m);
    }
    pairs := PairsOf(places, opening);
    forall m | 0 <= m < |pairs|
      ensures CardBetween(width, height, runs, pairs[m].0, pairs[m].1)
              && IsCard(regions[m], runs[pairs[m].0], runs[pairs[m].1])
    {
      OpeningInside(width, height, runs, borders, opening, m);
      OpensExactly(width, height, runs, places, opening[m]);
    }
    forall m, n | 0 <= m < n < |pairs| ensures pairs[m].1 < pairs[n].0 {
      assert opening[m] + 1 < opening[n];
      assert places[opening[m] + 1] < places[opening[n]];
    }
    forall a: nat, b: nat | CardBetween(width, height, runs, a, b) ensures (a, b) in pairs || Closes(pairs, a) {
      CardTaken(width, height, runs, places, opening, pairs, a, b);
    }
  }

  lemma {:induction false} CardTaken(width: nat, height: nat, runs: seq<Run>, places: seq<nat>, opening: seq<nat>,
                                     pairs: seq<(nat, nat)>, a: nat, b: nat)
    requires Separated(runs) && PositiveRuns(runs) && CardBetween(width, height, runs, a, b)
    requires AreBorders(width, height, runs, places, Borders(width, height, runs))
    requires Chosen(width, height, runs, Borders(width, height, runs), opening)
    requires forall m :: 0 <= m < |opening| ==> opening[m] + 1 < |places|
    requires pairs == PairsOf(places, opening)
    ensures (a, b) in pairs || Closes(pairs, a)
  {
    var k := CardNeighbours(width, height, runs, places, Borders(width, height, runs), a, b);
    OpensExactly(width, height, runs, places, k);
    var o := if k in opening then k else k - 1;
    assert o in opening by { assert k in opening || TakenBefore(k, opening); }
    var m :| 0 <= m < |opening| && opening[m] == o;
    assert pairs[m] == (places[o], places[o + 1]);
  }

  /** The rule leaves one list of pairs. */
  lemma {:induction false} PairsUnique(width: nat, height: nat, runs: seq<Run>, p: seq<(nat, nat)>, r: seq<Region>,
                                       q: seq<(nat, nat)>, s: seq<Region>, a: nat, b: nat)
    requires CardsFound(width, height, runs, p, r) && CardsFound(width, height, runs, q, s) && (a, b) in p
    ensures (a, b) in q
    decreases a
  {
    var m :| 0 <= m < |p| && p[m] == (a, b);
    if (a, b) !in q {
      var n :| 0 <= n < |q| && q[n].1 == a;
      var c := q[n].0;
      assert CardBetween(width, height, runs, c, a) && (c, a) in q;
      PairsUnique(width, height, runs, q, s, p, r, c, a);
      var l :| 0 <= l < |p| && p[l] == (c, a);
      NoSharedBorder(width, height, runs, p, r, m, l);
    }
  }

  lemma NoSharedBorder(width: nat, height: nat, runs: seq<Run>, pairs: seq<(nat, nat)>, regions: seq<Region>, m: nat,
                       n: nat)
    requires CardsFound(width, height, runs, pairs, regions) && m < |pairs| && n < |pairs|
    ensures pairs[n].1 != pairs[m].0
  {
    assert CardBetween(width, height, runs, pairs[m].0, pairs[m].1);
    assert CardBetween(width, height, runs, pairs[n].0, pairs[n].1);
  }

  // ----- pages with nothing green but stripes -----

  /** Rows `top` to `bottom` without the latter, green from sampled column `i` to sampled column `j`. */
  datatype Stripe = Stripe(top: nat, bottom: nat, i: nat, j: nat)

  predicate Covers(s: Stripe, y: nat, c: nat) { s.top <= y < s.bottom && s.i <= c <= s.j }

  predicate Painted(stripes: seq<Stripe>, y: nat, c: nat) {
    exists k :: 0 <= k < |stripes| && Covers(stripes[k], y, c)
  }

  predicate InRows(s: Stripe, y: nat) { s.top <= y < s.bottom }

  /** A pixel that the detector counts: green enough, and greener than red and blue. */
  predicate GreenPixel(im: Raster, x: nat, y: nat) {
    var o := (y * im.width + x) * 3;
    0 <= o && o + 2 < |im.rgb| && im.rgb[o + 1] >= 80 && im.rgb[o + 1] >= im.rgb[o] + 12
    && im.rgb[o + 1] >= im.rgb[o + 2] + 8
  }

  /** Every sampled pixel is green exactly inside a stripe; stripes hold at least 45% of the samples of a row, and a
      row without green lies between two of them. */
  ghost predicate DrawnPage(im: Raster, stripes: seq<Stripe>) {
    && ValidRaster(im) && (forall k :: 0 <= k < |stripes| ==> StripeFits(im, stripes[k]))
    && (forall k, l :: 0 <= k < l < |stripes| ==> stripes[k].bottom < stripes[l].top)
    && forall y: nat, c: nat :: y < im.height && c < Columns(im.width) ==>
         (GreenPixel(im, c * Step(im.width), y) <==> Painted(stripes, y, c))
  }

  predicate StripeFits(im: Raster, s: Stripe)
    requires ValidRaster(im)
  {
    && s.top < s.bottom <= im.height && s.i <= s.j < Columns(im.width)
    && 1000 * (s.j - s.i + 1) >= 450 * Columns(im.width)
  }

  /** The run of a stripe. */
  function StripeRun(im: Raster, s: Stripe): Run
    requires ValidRaster(im)
  {
    var step := if im.width < 2400 then 1 else im.width / 1200;
    Run(s.top, s.bottom, s.i * step, if s.j * step + step < im.width then s.j * step + step else im.width)
  }

  lemma GreenPixelExactly(im: Raster, x: nat, y: nat)
    requires ValidRaster(im) && x < im.width && y < im.height
    ensures GreenAt(im, x, y) <==> GreenPixel(im, x, y)
  {
    SampleInside(im, x, y);
  }

  lemma SampledRow(im: Raster, stripes: seq<Stripe>, y: nat)
    requires DrawnPage(im, stripes) && y < im.height
    ensures forall c :: 0 <= c < Columns(im.width) ==> (Samples(im, y)[c] <==> Painted(stripes, y, c))
  {
    forall c | 0 <= c < Columns(im.width) ensures Samples(im, y)[c] <==> Painted(stripes, y, c) {
      ColumnInside(im.width, c);
      GreenPixelExactly(im, c * Step(im.width), y);
    }
  }

  /** One stripe at most covers a row. */
  lemma RowOfOne(im: Raster, stripes: seq<Stripe>, k: nat, y: nat, c: nat)
    requires DrawnPage(im, stripes) && k < |stripes| && InRows(stripes[k], y)
    ensures Painted(stripes, y, c) <==> Covers(stripes[k], y, c)
  {
    if l :| 0 <= l < |stripes| && Covers(stripes[l], y, c) {
      assert StripeFits(im, stripes[l]) && StripeFits(im, stripes[k]);
      assert l == k || l < k || k < l;
    }
  }

  lemma {:induction false} AllHits(h: seq<bool>, i: nat, j: nat)
    requires i <= j <= |h| && forall k :: i <= k < j ==> h[k]
    ensures HitCount(h, i, j) == j - i
  {
    if i < j { AllHits(h, i, j - 1); }
  }

  /** In a row with one stretch of hits, that stretch is the first largest cluster. */
  lemma {:induction false} StretchIsBest(h: seq<bool>, i: nat, j: nat)
    requires i <= j < |h| && forall c :: 0 <= c < |h| ==> (h[c] <==> i <= c <= j)
    ensures BestBefore(h, |h|, i, j) && HitCount(h, i, j + 1) == j - i + 1
  {
    AllHits(h, i, j + 1);
    forall a: nat, b: nat | Cluster(h, a, b)
      ensures i <= a <= b <= j && HitCount(h, a, b + 1) <= j - i + 1
    {
      assert h[a] && h[b];
      AllHits(h, a, b + 1);
    }
  }

  function StripeBand(im: Raster, s: Stripe, y: nat): Band
    requires ValidRaster(im)
  {
    Band(y, StripeRun(im, s).x0, StripeRun(im, s).x1)
  }

  lemma StripeRowIsBand(im: Raster, stripes: seq<Stripe>, k: nat, y: nat)
    requires DrawnPage(im, stripes) && k < |stripes| && InRows(stripes[k], y)
    ensures IsBand(im, StripeBand(im, stripes[k], y))
  {
    var s := stripes[k];
    assert StripeFits(im, s);
    var h := Samples(im, y);
    SampledRow(im, stripes, y);
    forall c | 0 <= c < |h| ensures h[c] <==> s.i <= c <= s.j { RowOfOne(im, stripes, k, y, c); }
    StretchIsBest(h, s.i, s.j);
    CeilExactly(Columns(im.width), 450, s.j - s.i + 1);
    assert Spans(h, s.i, s.j, Step(im.width), im.width, StripeBand(im, s, y));
  }

  lemma OtherRowIsNone(im: Raster, stripes: seq<Stripe>, b: Band)
    requires DrawnPage(im, stripes) && IsBand(im, b)
    ensures exists k :: 0 <= k < |stripes| && InRows(stripes[k], b.y)
  {
    var h := Samples(im, b.y);
    SampledRow(im, stripes, b.y);
    var i: nat, j: nat :| Spans(h, i, j, Step(im.width), im.width, b);
    assert h[i] && Painted(stripes, b.y, i);
    var k :| 0 <= k < |stripes| && Covers(stripes[k], b.y, i);
    assert InRows(stripes[k], b.y);
  }

  /** The dense rows are exactly the rows of the stripes, each with the extent of its stripe. */
  lemma DrawnBands(im: Raster, stripes: seq<Stripe>, b: Band)
    requires DrawnPage(im, stripes)
    ensures IsBand(im, b)
            <==> exists k :: 0 <= k < |stripes| && InRows(stripes[k], b.y) && b == StripeBand(im, stripes[k], b.y)
  {
    if IsBand(im, b) {
      OtherRowIsNone(im, stripes, b);
      var k :| 0 <= k < |stripes| && InRows(stripes[k], b.y);
      StripeRowIsBand(im, stripes, k, b.y);
      BandUnique(im, b, StripeBand(im, stripes[k], b.y));
    }
    if k :| 0 <= k < |stripes| && InRows(stripes[k], b.y) && b == StripeBand(im, stripes[k], b.y) {
      StripeRowIsBand(im, stripes, k, b.y);
    }
  }

  // ----- the runs of such a page -----

  /** What the scan of the rows delivers for a page. */
  ghost predicate ScannedPage(im: Raster, dense: seq<Band>, runs: seq<Run>) {
    ValidRaster(im) && (forall b :: b in dense <==> IsBand(im, b)) && IsMerged(dense, runs)
  }

  lemma DenseRow(im: Raster, stripes: seq<Stripe>, dense: seq<Band>, runs: seq<Run>, y: nat)
    requires DrawnPage(im, stripes) && ScannedPage(im, dense, runs)
    ensures HasRow(dense, y) <==> exists k :: 0 <= k < |stripes| && InRows(stripes[k], y)
  {
    if HasRow(dense, y) {
      var i :| 0 <= i < |dense| && dense[i].y == y;
      assert dense[i] in dense;
      DrawnBands(im, stripes, dense[i]);
    }
    if k :| 0 <= k < |stripes| && InRows(stripes[k], y) {
      StripeRowIsBand(im, stripes, k, y);
      assert StripeBand(im, stripes[k], y) in dense;
    }
  }

  /** A run that has a row of a stripe has no row outside of it. */
  lemma {:induction false} RunStaysBelow(im: Raster, stripes: seq<Stripe>, dense: seq<Band>, runs: seq<Run>, k: nat,
                                         r: Run)
    requires DrawnPage(im, stripes) && ScannedPage(im, dense, runs) && k < |stripes| && RunOf(dense, r)
    ensures r.start < stripes[k].bottom ==> r.end <= stripes[k].bottom
    ensures r.end > stripes[k].top ==> r.start >= stripes[k].top
  {
    if r.start < stripes[k].bottom < r.end {
      assert HasRow(dense, stripes[k].bottom);
      DenseRow(im, stripes, dense, runs, stripes[k].bottom);
      GapBelow(im, stripes, k);
    }
    if r.start < stripes[k].top < r.end {
      assert HasRow(dense, stripes[k].top - 1);
      DenseRow(im, stripes, dense, runs, stripes[k].top - 1);
      GapAbove(im, stripes, k);
    }
  }

  lemma GapBelow(im: Raster, stripes: seq<Stripe>, k: nat)
    requires DrawnPage(im, stripes) && k < |stripes|
    ensures forall l :: 0 <= l < |stripes| ==> !InRows(stripes[l], stripes[k].bottom)
  {
    forall l | 0 <= l < |stripes| ensures !InRows(stripes[l], stripes[k].bottom) {
      assert l == k || l < k || k < l;
      assert StripeFits(im, stripes[l]) && StripeFits(im, stripes[k]);
    }
  }

  lemma GapAbove(im: Raster, stripes: seq<Stripe>, k: nat)
    requires DrawnPage(im, stripes) && k < |stripes| && stripes[k].top > 0
    ensures forall l :: 0 <= l < |stripes| ==> !InRows(stripes[l], stripes[k].top - 1)
  {
    forall l | 0 <= l < |stripes| ensures !InRows(stripes[l], stripes[k].top - 1) {
      assert l == k || l < k || k < l;
      assert StripeFits(im, stripes[l]) && StripeFits(im, stripes[k]);
    }
  }

  /** A run that has a row of a stripe has all of its rows. */
  lemma RunFillsStripe(im: Raster, stripes: seq<Stripe>, dense: seq<Band>, runs: seq<Run>, k: nat, m: nat, y: nat)
    requires DrawnPage(im, stripes) && ScannedPage(im, dense, runs) && k < |stripes| && m < |runs|
    requires InRows(stripes[k], y) && runs[m].start <= y < runs[m].end
    ensures runs[m].start == stripes[k].top && runs[m].end == stripes[k].bottom
  {
    var r, s := runs[m], stripes[k];
    assert RunOf(dense, r) && StripeFits(im, s);
    RunStaysBelow(im, stripes, dense, runs, k, r);
    if r.start > s.top { RowOfOtherRun(im, stripes, dense, runs, k, m, r.start - 1); }
    if r.end < s.bottom { RowOfOtherRun(im, stripes, dense, runs, k, m, r.end); }
  }

  /** A row of a stripe lies in a run, which is the given one or not next to it. */
  lemma RowOfOtherRun(im: Raster, stripes: seq<Stripe>, dense: seq<Band>, runs: seq<Run>, k: nat, m: nat, y: nat)
    requires DrawnPage(im, stripes) && ScannedPage(im, dense, runs) && k < |stripes| && m < |runs|
    requires InRows(stripes[k], y)
    ensures runs[m].start <= y < runs[m].end || y + 1 < runs[m].start || runs[m].end < y
  {
    var n := CoveringRun(im, stripes, dense, runs, k, y);
    assert RunOf(dense, runs[m]);
    RunsApart(runs, m, n);
  }

  lemma CoveringRun(im: Raster, stripes: seq<Stripe>, dense: seq<Band>, runs: seq<Run>, k: nat, y: nat) returns (n: int)
    requires DrawnPage(im, stripes) && ScannedPage(im, dense, runs) && k < |stripes| && InRows(stripes[k], y)
    ensures 0 <= n < |runs| && runs[n].start <= y < runs[n].end
  {
    var b := StripeBand(im, stripes[k], y);
    StripeRowIsBand(im, stripes, k, y);
    var i :| 0 <= i < |dense| && dense[i] == b;
    assert Covered(runs, dense[i]);
    n :| 0 <= n < |runs| && Within(runs[n], b);
  }

  lemma RunsApart(runs: seq<Run>, m: nat, n: nat)
    requires Separated(runs) && m < |runs| && n < |runs|
    ensures m == n || runs[m].end < runs[n].start || runs[n].end < runs[m].start
  {
    assert m == n || m < n || n < m;
  }

  /** The run of a stripe has the stripe's extent. */
  lemma RunIsStripe(im: Raster, stripes: seq<Stripe>, dense: seq<Band>, runs: seq<Run>, k: nat, m: nat)
    requires DrawnPage(im, stripes) && ScannedPage(im, dense, runs) && k < |stripes| && m < |runs|
    requires runs[m].start == stripes[k].top && runs[m].end == stripes[k].bottom
    ensures runs[m] == StripeRun(im, stripes[k])
  {
    var r := runs[m];
    assert RunOf(dense, r);
    forall i | 0 <= i < |dense| && Within(r, dense[i])
      ensures dense[i] == StripeBand(im, stripes[k], dense[i].y)
    {
      assert dense[i] in dense;
      StripeRowIsBand(im, stripes, k, dense[i].y);
      BandUnique(im, dense[i], StripeBand(im, stripes[k], dense[i].y));
    }
  }

  /** On a page with nothing green but stripes, the runs are exactly the stripes. */
  lemma DrawnRuns(im: Raster, stripes: seq<Stripe>, dense: seq<Band>, runs: seq<Run>, r: Run)
    requires DrawnPage(im, stripes) && ScannedPage(im, dense, runs)
    ensures r in runs <==> exists k :: 0 <= k < |stripes| && r == StripeRun(im, stripes[k])
  {
    if r in runs {
      var m :| 0 <= m < |runs| && runs[m] == r;
      assert RunOf(dense, r) && HasRow(dense, r.start);
      DenseRow(im, stripes, dense, runs, r.start);
      var k :| 0 <= k < |stripes| && InRows(stripes[k], r.start);
      RunFillsStripe(im, stripes, dense, runs, k, m, r.start);
      RunIsStripe(im, stripes, dense, runs, k, m);
    }
    if k :| 0 <= k < |stripes| && r == StripeRun(im, stripes[k]) {
      assert StripeFits(im, stripes[k]);
      var m := CoveringRun(im, stripes, dense, runs, k, stripes[k].top);
      RunFillsStripe(im, stripes, dense, runs, k, m, stripes[k].top);
      RunIsStripe(im, stripes, dense, runs, k, m);
    }
  }

  // ----- two stripes -----

  lemma TwoRuns(im: Raster, s: Stripe, t: Stripe, dense: seq<Band>, runs: seq<Run>)
    requires DrawnPage(im, [s, t]) && ScannedPage(im, dense, runs)
    ensures runs == [StripeRun(im, s), StripeRun(im, t)]
  {
    var a, b := StripeRun(im, s), StripeRun(im, t);
    var stripes := [s, t];
    assert stripes[0] == s && stripes[1] == t && s.bottom < t.top;
    forall r ensures r in runs <==> r == a || r == b { DrawnRuns(im, stripes, dense, runs, r); }
    RunsArePositive(dense, runs);
    TwoInOrder(runs, a, b);
  }

  lemma SamePlace(runs: seq<Run>, k: nat, l: nat)
    requires Separated(runs) && PositiveRuns(runs) && k < |runs| && l < |runs| && runs[k] == runs[l]
    ensures k == l
  {
    RunsApart(runs, k, l);
  }

  lemma TwoInOrder(runs: seq<Run>, a: Run, b: Run)
    requires Separated(runs) && PositiveRuns(runs) && a.end < b.start
    requires forall r :: r in runs <==> r == a || r == b
    ensures runs == [a, b]
  {
    var second, third := if |runs| > 1 then runs[1] else a, if |runs| > 2 then runs[2] else a;
    assert a in runs && b in runs;
    var m :| 0 <= m < |runs| && runs[m] == a;
    var n :| 0 <= n < |runs| && runs[n] == b;
    RunsApart(runs, m, n);
    forall k | 0 <= k < |runs| ensures (runs[k] == a && k == m) || (runs[k] == b && k == n) {
      assert runs[k] in runs;
      if runs[k] == a { SamePlace(runs, k, m); } else { SamePlace(runs, k, n); }
    }
  }

  /** A page with two green stripes has one card, from the one to the other, if they are borders 10% to 30% of the
      page apart with edges within 8% of its width, and no card otherwise. */
  lemma {:induction false} TwoStripesExactly(im: Raster, s: Stripe, t: Stripe, dense: seq<Band>, runs: seq<Run>,
                                             opening: seq<nat>,
                                             regions: seq<Region>)
    requires DrawnPage(im, [s, t]) && ScannedPage(im, dense, runs)
    requires var borders := Borders(im.width, im.height, runs);
             Chosen(im.width, im.height, runs, borders, opening) && CardsOf(borders, opening, regions)
    ensures var a, b := StripeRun(im, s), StripeRun(im, t);
            if CardBetween(im.width, im.height, [a, b], 0, 1) then |regions| == 1 && IsCard(regions[0], a, b)
            else regions == []
  {
    TwoRuns(im, s, t, dense, runs);
    RunsArePositive(dense, runs);
    var pairs := CardsExactly(im.width, im.height, runs, opening, regions);
    PairsOfTwo(im.width, im.height, runs, pairs, regions);
  }

  lemma RunsArePositive(dense: seq<Band>, runs: seq<Run>)
    requires IsMerged(dense, runs)
    ensures PositiveRuns(runs)
  {
    forall k | 0 <= k < |runs| ensures runs[k].start < runs[k].end { assert RunOf(dense, runs[k]); }
  }

  lemma PairsOfTwo(width: nat, height: nat, runs: seq<Run>, pairs: seq<(nat, nat)>, regions: seq<Region>)
    requires |runs| == 2 && CardsFound(width, height, runs, pairs, regions)
    ensures if CardBetween(width, height, runs, 0, 1) then |regions| == 1 && IsCard(regions[0], runs[0], runs[1])
            else regions == []
  {
    FirstTwoPairs(pairs);
    forall m | 0 <= m < |pairs| ensures pairs[m] == (0, 1) {
      assert CardBetween(width, height, runs, pairs[m].0, pairs[m].1);
    }
    if CardBetween(width, height, runs, 0, 1) { assert (0, 1) in pairs || Closes(pairs, 0); }
  }

  lemma FirstTwoPairs(pairs: seq<(nat, nat)>)
    requires forall m, n :: 0 <= m < n < |pairs| ==> pairs[m].1 < pairs[n].0
    ensures |pairs| <= 1 || pairs[0].1 < pairs[1].0
  {
  }
}
