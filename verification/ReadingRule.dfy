/** The reading order, spelled out (src/ingestion/extract_ocr.py). */
module ReadingRule {
  // What the two columns look like in terms of the coordinates of the lines alone: which lines make a row, how rows
  // follow each other, and how the lines of a row do.

  import opened ReadingOrder
  import opened Sorting
  import opened Strings

  /** Twice the center. */
  function Level(l: Line): real { l.y0 + l.y1 }

  /** The sum of the levels of the first `n` lines. */
  function Levels(row: seq<Line>, n: nat): real
    requires n <= |row|
  {
    if n == 0 then 0.0 else Levels(row, n - 1) + Level(row[n - 1])
  }

  /** The line is no further than `tol` from the mean center of the first `n > 0` lines of the row. */
  predicate Beside(tol: real, l: Line, row: seq<Line>, n: nat)
    requires 0 < n <= |row|
  {
    var gap := n as real * Level(l) - Levels(row, n);
    -2.0 * tol * n as real <= gap <= 2.0 * tol * n as real
  }

  /** From left to right, then from top to bottom, then by text. */
  predicate Rightward(a: Line, b: Line) {
    || a.x0 < b.x0
    || (a.x0 == b.x0 && a.y0 < b.y0)
    || (a.x0 == b.x0 && a.y0 == b.y0 && (a.text == b.text || Less(a.text, b.text)))
  }

  /** The lines from top to bottom, cut into rows: each further line is beside the ones before it, and each further
      row starts with a line that is not. */
  predicate IsCut(tol: real, cut: seq<seq<Line>>) {
    && (forall i :: 0 <= i < |cut| ==> cut[i] != [])
    && (forall i, k :: 0 <= i < |cut| && 1 <= k < |cut[i]| ==> Beside(tol, cut[i][k], cut[i], k))
    && (forall i :: 1 <= i < |cut| ==> !Beside(tol, cut[i][0], cut[i - 1], |cut[i - 1]|))
  }

  predicate TopDown(lines: seq<Line>) {
    forall i, j :: 0 <= i < j < |lines| ==> Level(lines[i]) <= Level(lines[j])
  }

  /** The same rows, each from left to right. */
  predicate InOrder(cut: seq<seq<Line>>, rows: seq<seq<Line>>) {
    && |rows| == |cut|
    && (forall i :: 0 <= i < |cut| ==> multiset(rows[i]) == multiset(cut[i]))
    && forall i, j, k :: 0 <= i < |rows| && 0 <= j < k < |rows[i]| ==> Rightward(rows[i][j], rows[i][k])
  }

  function HeightAtMost(h: real): Line -> bool { (l: Line) => l.y1 - l.y0 <= h }

  function HeightBelow(h: real): Line -> bool { (l: Line) => l.y1 - l.y0 < h }

  /** Half of the upper median height, but at least one. */
  predicate IsTolerance(lines: seq<Line>, tol: real) {
    exists i :: 0 <= i < |lines| && IsHalfMedian(lines, lines[i].y1 - lines[i].y0, tol)
  }

  predicate IsHalfMedian(lines: seq<Line>, h: real, tol: real) {
    && Count(HeightAtMost(h), lines) > |lines| / 2 >= Count(HeightBelow(h), lines)
    && tol == if h <= 2.0 then 1.0 else h / 2.0
  }

  /** `column` reads `lines` as the rule says. */
  ghost predicate Reads(lines: seq<Line>, column: seq<Line>) {
    if lines == [] then column == []
    else exists tol, cut, rows :: ReadsBy(lines, column, tol, cut, rows)
  }

  ghost predicate ReadsBy(lines: seq<Line>, column: seq<Line>, tol: real, cut: seq<seq<Line>>, rows: seq<seq<Line>>) {
    && IsTolerance(lines, tol) && IsCut(tol, cut) && TopDown(Flatten(cut))
    && multiset(Flatten(cut)) == multiset(lines) && InOrder(cut, rows) && column == Flatten(rows)
  }

  // ----- the code follows the rule -----

  lemma {:induction false} LevelsAreCenters(row: seq<Line>, n: nat)
    requires n <= |row|
    ensures Levels(row, n) == 2.0 * SumCenters(row[..n])
  {
    if n > 0 {
      LevelsAreCenters(row, n - 1);
      assert row[..n][..n - 1] == row[..n - 1];
    }
  }

  lemma NearScaled(tol: real, c: real, s: real, n: real)
    requires n > 0.0
    ensures -tol <= c - s / n <= tol <==> -2.0 * tol * n <= n * (2.0 * c) - 2.0 * s <= 2.0 * tol * n
  {
    var q := c - s / n;
    assert n * q == n * c - s by { assert s / n * n == s; }
    Scaled(q, tol, n);
    Scaled(-tol, q, n);
  }

  lemma Scaled(a: real, b: real, n: real)
    requires n > 0.0
    ensures a <= b <==> n * a <= n * b
  {
  }

  lemma BesideExactly(tol: real, l: Line, row: seq<Line>, n: nat)
    requires 0 < n <= |row|
    ensures Beside(tol, l, row, n) <==> Near(tol, Center(l), Mean(row[..n]))
  {
    LevelsAreCenters(row, n);
    NearScaled(tol, Center(l), SumCenters(row[..n]), n as real);
  }

  lemma RowsAreCut(tol: real, lines: seq<Line>, rows: seq<seq<Line>>)
    requires IsRows(tol, lines, rows)
    ensures IsCut(tol, rows)
  {
    forall i, k | 0 <= i < |rows| && 1 <= k < |rows[i]| ensures Beside(tol, rows[i][k], rows[i], k) {
      assert Tight(tol, rows[i]);
      BesideExactly(tol, rows[i][k], rows[i], k);
    }
    forall i | 1 <= i < |rows| ensures !Beside(tol, rows[i][0], rows[i - 1], |rows[i - 1]|) {
      assert Apart(tol, rows, i);
      BesideExactly(tol, rows[i][0], rows[i - 1], |rows[i - 1]|);
      assert rows[i - 1][..|rows[i - 1]|] == rows[i - 1];
    }
  }

  function UpTo(h: real): real -> bool { x => x <= h }

  function Below(h: real): real -> bool { x => x < h }

  lemma {:induction false} CountHeights(h: real, lines: seq<Line>)
    ensures Count(HeightAtMost(h), lines) == Count(UpTo(h), Mapped(Height, lines))
    ensures Count(HeightBelow(h), lines) == Count(Below(h), Mapped(Height, lines))
  {
    if lines != [] {
      CountHeights(h, lines[..|lines| - 1]);
      assert Mapped(Height, lines)[..|lines| - 1] == Mapped(Height, lines[..|lines| - 1]);
    }
  }

  lemma {:induction false} MedianCounts(heights: seq<real>, ordered: seq<real>, k: nat)
    requires SortedBy(ByHeight, ordered) && multiset(ordered) == multiset(heights) && k < |ordered|
    ensures Count(UpTo(ordered[k]), heights) > k >= Count(Below(ordered[k]), heights)
  {
    var h := ordered[k];
    var upTo, below := UpTo(h), Below(h);
    CountReordered(upTo, ordered, heights);
    CountReordered(below, ordered, heights);
    forall j | 0 <= j < k + 1 ensures upTo(ordered[j]) { assert j < k ==> ByHeight(ordered[j], h); }
    CountAtLeast(upTo, ordered, k + 1);
    forall j | k <= j < |ordered| ensures !below(ordered[j]) { assert j > k ==> ByHeight(h, ordered[j]); }
    CountAtMost(below, ordered, k);
  }

  lemma ToleranceSpelled(lines: seq<Line>)
    requires lines != []
    ensures IsTolerance(lines, Tolerance(lines))
  {
    var heights := Mapped(Height, lines);
    var ordered := SortBy(ByHeight, heights);
    KeysAreOrders();
    SortBySorts(ByHeight, heights);
    var k := |ordered| / 2;
    assert ordered[k] in multiset(heights);
    var i :| 0 <= i < |heights| && heights[i] == ordered[k];
    MedianCounts(heights, ordered, k);
    HalfMedian(lines, ordered[k], k, Tolerance(lines));
    HeightAt(lines, i);
  }

  lemma HeightAt(lines: seq<Line>, i: nat)
    requires i < |lines|
    ensures Mapped(Height, lines)[i] == lines[i].y1 - lines[i].y0
  {
    assert Mapped(Height, lines)[i] == Height(lines[i]);
  }

  lemma HalfMedian(lines: seq<Line>, h: real, k: nat, tol: real)
    requires k == |lines| / 2 && tol == if h * 0.5 > 1.0 then h * 0.5 else 1.0
    requires Count(UpTo(h), Mapped(Height, lines)) > k >= Count(Below(h), Mapped(Height, lines))
    ensures IsHalfMedian(lines, h, tol)
  {
    CountHeights(h, lines);
  }

  lemma RightwardExactly(a: Line, b: Line)
    ensures ByX(a, b) <==> Rightward(a, b)
  {
  }

  lemma SortedRowsInOrder(rows: seq<seq<Line>>)
    ensures InOrder(rows, SortedRows(rows))
  {
    KeysAreOrders();
    var sorted := SortedRows(rows);
    forall i | 0 <= i < |rows| ensures multiset(sorted[i]) == multiset(rows[i]) { SortBySorts(ByX, rows[i]); }
    forall i, j, k | 0 <= i < |sorted| && 0 <= j < k < |sorted[i]| ensures Rightward(sorted[i][j], sorted[i][k]) {
      SortBySorts(ByX, rows[i]);
      assert ByX(sorted[i][j], sorted[i][k]);
    }
  }

  lemma TopDownCenters(lines: seq<Line>)
    requires CentersSorted(lines)
    ensures TopDown(lines)
  {
    forall i, j | 0 <= i < j < |lines| ensures Level(lines[i]) <= Level(lines[j]) {
      assert Center(lines[i]) <= Center(lines[j]);
    }
  }

  /** A column reads its lines as the rule says. */
  lemma ColumnReads(lines: seq<Line>)
    ensures Reads(lines, Column(lines))
  {
    if lines != [] {
      var tol, sorted := Tolerance(lines), SortBy(ByCenter, lines);
      var rows := Rows(tol, sorted);
      KeysAreOrders();
      SortBySorts(ByCenter, lines);
      SortedCenters(sorted);
      TopDownCenters(sorted);
      RowsExactly(tol, sorted, rows);
      RowsAreCut(tol, sorted, rows);
      ToleranceSpelled(lines);
      SortedRowsInOrder(rows);
      assert ReadsBy(lines, Column(lines), tol, rows, SortedRows(rows));
    }
  }

  // ----- the page -----

  function StartsLeft(middle: real): Line -> bool { (l: Line) => l.x0 < middle }

  function StartsRight(middle: real): Line -> bool { (l: Line) => l.x0 >= middle }

  lemma {:induction false} SidesAreKept(lines: seq<Line>, middle: real)
    ensures Side(lines, middle, true) == Keep(StartsLeft(middle), lines)
    ensures Side(lines, middle, false) == Keep(StartsRight(middle), lines)
  {
    if lines != [] { SidesAreKept(lines[..|lines| - 1], middle); }
  }

  /** The page reads the lines that start in its left half as the rule says, and then the others. */
  lemma PageReads(lines: seq<Line>, middle: real) returns (left: seq<Line>, right: seq<Line>)
    ensures Layout(lines, middle) == left + right
    ensures Reads(Keep(StartsLeft(middle), lines), left) && Reads(Keep(StartsRight(middle), lines), right)
  {
    left, right := Column(Side(lines, middle, true)), Column(Side(lines, middle, false));
    SidesAreKept(lines, middle);
    ColumnReads(Side(lines, middle, true));
    ColumnReads(Side(lines, middle, false));
  }
}
