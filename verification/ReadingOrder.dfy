/** The two-column reading order (src/ingestion/extract_ocr.py). */
module ReadingOrder {
  import opened Strings
  import opened Sorting
  import opened Wrappers

  datatype Line = Line(text: string, x0: real, y0: real, x1: real, y1: real, confidence: real)

  function Center(l: Line): real { (l.y0 + l.y1) / 2.0 }

  function Height(l: Line): real { l.y1 - l.y0 }

  predicate ByText(a: Line, b: Line) { a.text == b.text || Less(a.text, b.text) }

  /** The key `(center, x0, text)`. */
  predicate ByCenter(a: Line, b: Line) {
    Center(a) < Center(b) || (Center(a) == Center(b) && (a.x0 < b.x0 || (a.x0 == b.x0 && ByText(a, b))))
  }

  /** The key `(x0, y0, text)`. */
  predicate ByX(a: Line, b: Line) {
    a.x0 < b.x0 || (a.x0 == b.x0 && (a.y0 < b.y0 || (a.y0 == b.y0 && ByText(a, b))))
  }

  predicate ByHeight(a: real, b: real) { a <= b }

  /** No sort key tells the two lines apart. */
  predicate Tied(a: Line, b: Line) { a.x0 == b.x0 && a.y0 == b.y0 && a.y1 == b.y1 && a.text == b.text }

  // ----- rows -----

  function SumCenters(row: seq<Line>): real {
    if row == [] then 0.0 else SumCenters(row[..|row| - 1]) + Center(row[|row| - 1])
  }

  function Mean(row: seq<Line>): real
    requires row != []
  {
    SumCenters(row) / |row| as real
  }

  predicate Near(tol: real, c: real, m: real) { -tol <= c - m <= tol }

  predicate NonEmpty(rows: seq<seq<Line>>) { forall i :: 0 <= i < |rows| ==> rows[i] != [] }

  function Flatten(rows: seq<seq<Line>>): seq<Line> {
    if rows == [] then [] else Flatten(rows[..|rows| - 1]) + rows[|rows| - 1]
  }

  function Place(tol: real, rows: seq<seq<Line>>, line: Line): seq<seq<Line>>
    requires NonEmpty(rows)
  {
    var k := |rows| - 1;
    if rows == [] || !Near(tol, Center(line), Mean(rows[k])) then rows + [[line]]
    else rows[..k] + [rows[k] + [line]]
  }

  function Rows(tol: real, lines: seq<Line>): (rows: seq<seq<Line>>)
    ensures NonEmpty(rows)
  {
    if lines == [] then [] else Place(tol, Rows(tol, lines[..|lines| - 1]), lines[|lines| - 1])
  }

  /** Each further line of a row was near the mean of the ones before it. */
  predicate Tight(tol: real, row: seq<Line>) {
    forall k :: 1 <= k < |row| ==> Near(tol, Center(row[k]), Mean(row[..k]))
  }

  /** Row `i` starts away from the mean of the row before it. */
  predicate Apart(tol: real, rows: seq<seq<Line>>, i: nat)
    requires NonEmpty(rows) && i < |rows|
  {
    i > 0 ==> !Near(tol, Center(rows[i][0]), Mean(rows[i - 1]))
  }

  /** The rows cut the lines into consecutive segments, each tight and apart from the one before. */
  predicate IsRows(tol: real, lines: seq<Line>, rows: seq<seq<Line>>) {
    && NonEmpty(rows) && Flatten(rows) == lines
    && forall i :: 0 <= i < |rows| ==> Tight(tol, rows[i]) && Apart(tol, rows, i)
  }

  lemma PlaceIsRows(tol: real, lines: seq<Line>, rows: seq<seq<Line>>, line: Line)
    requires IsRows(tol, lines, rows)
    ensures IsRows(tol, lines + [line], Place(tol, rows, line))
  {
    var placed, k := Place(tol, rows, line), |rows| - 1;
    if rows == [] || !Near(tol, Center(line), Mean(rows[k])) {
      assert placed[..|rows|] == rows;
      forall i | 0 <= i < |placed| ensures Tight(tol, placed[i]) && Apart(tol, placed, i) {
        assert i < |rows| ==> Apart(tol, rows, i);
      }
    } else {
      assert placed[..k] == rows[..k];
      forall i | 0 <= i < |placed| ensures Tight(tol, placed[i]) && Apart(tol, placed, i) {
        assert Apart(tol, rows, i);
        if i == k { TightGrows(tol, rows[k], line); }
      }
    }
  }

  lemma TightGrows(tol: real, row: seq<Line>, line: Line)
    requires row != [] && Tight(tol, row) && Near(tol, Center(line), Mean(row))
    ensures Tight(tol, row + [line])
  {
    var longer := row + [line];
    forall j | 1 <= j < |longer| ensures Near(tol, Center(longer[j]), Mean(longer[..j])) {
      assert longer[..j] == row[..j];
      assert row[..|row|] == row;
    }
  }

  /** The rows without their last line. */
  function DropLast(rows: seq<seq<Line>>): seq<seq<Line>>
    requires rows != [] && NonEmpty(rows)
  {
    var k := |rows| - 1;
    if |rows[k]| == 1 then rows[..k] else rows[..k] + [rows[k][..|rows[k]| - 1]]
  }

  lemma {:induction false} DropRow(tol: real, lines: seq<Line>, rows: seq<seq<Line>>, last: Line)
    requires IsRows(tol, lines, rows + [[last]])
    ensures lines == Flatten(rows) + [last] && IsRows(tol, Flatten(rows), rows)
            && rows + [[last]] == Place(tol, rows, last)
  {
    var all := rows + [[last]];
    assert all[..|rows|] == rows;
    assert forall i :: 0 <= i < |rows| ==> rows[i] == all[i];
    forall i | 0 <= i < |rows| ensures Tight(tol, rows[i]) && Apart(tol, rows, i) { assert Apart(tol, all, i); }
    assert Apart(tol, all, |rows|);
  }

  lemma ShortenRow(tol: real, lines: seq<Line>, rows: seq<seq<Line>>, front: seq<Line>, last: Line)
    requires front != [] && IsRows(tol, lines, rows + [front + [last]])
    ensures var fewer := rows + [front];
            && lines == Flatten(fewer) + [last] && IsRows(tol, Flatten(fewer), fewer)
            && rows + [front + [last]] == Place(tol, fewer, last)
  {
    var all, fewer, k := rows + [front + [last]], rows + [front], |rows|;
    assert all[..k] == rows && fewer[..k] == rows && all[k] == front + [last];
    TightPrefix(tol, all[k]);
    assert all[k][..|front|] == front;
    forall i | 0 <= i < |fewer| ensures Tight(tol, fewer[i]) && Apart(tol, fewer, i) {
      ShortenedAt(tol, rows, front, last, i);
    }
    assert Near(tol, Center(all[k][|front|]), Mean(all[k][..|front|]));
  }

  lemma ShortenedAt(tol: real, rows: seq<seq<Line>>, front: seq<Line>, last: Line, i: nat)
    requires front != [] && NonEmpty(rows) && i <= |rows|
    requires Tight(tol, (rows + [front + [last]])[i]) && Apart(tol, rows + [front + [last]], i)
    requires Tight(tol, front)
    ensures Tight(tol, (rows + [front])[i]) && Apart(tol, rows + [front], i)
  {
    var all, fewer := rows + [front + [last]], rows + [front];
    assert i < |rows| ==> fewer[i] == all[i];
    assert i > 0 ==> fewer[i - 1] == all[i - 1];
  }

  lemma DropLastIsRows(tol: real, lines: seq<Line>, rows: seq<seq<Line>>)
    requires IsRows(tol, lines, rows) && lines != []
    ensures rows != [] && IsRows(tol, lines[..|lines| - 1], DropLast(rows))
    ensures rows == Place(tol, DropLast(rows), lines[|lines| - 1])
  {
    var k := |rows| - 1;
    var front, last := rows[k][..|rows[k]| - 1], rows[k][|rows[k]| - 1];
    assert rows[k] == front + [last] && rows == rows[..k] + [front + [last]];
    if front == [] {
      assert front + [last] == [last];
      DropRow(tol, lines, rows[..k], last);
    } else {
      ShortenRow(tol, lines, rows[..k], front, last);
    }
    assert lines[..|lines| - 1] == Flatten(DropLast(rows));
  }

  lemma TightPrefix(tol: real, row: seq<Line>)
    requires row != [] && Tight(tol, row)
    ensures Tight(tol, row[..|row| - 1])
  {
    var front := row[..|row| - 1];
    forall j | 1 <= j < |front| ensures Near(tol, Center(front[j]), Mean(front[..j])) {
      assert front[..j] == row[..j];
    }
  }

  /** The one pass finds the only such cut. */
  lemma {:induction false} RowsExactly(tol: real, lines: seq<Line>, rows: seq<seq<Line>>)
    ensures IsRows(tol, lines, rows) <==> rows == Rows(tol, lines)
  {
    if lines == [] {
      if rows != [] && NonEmpty(rows) { assert rows[|rows| - 1] != []; }
    } else {
      var front, last := lines[..|lines| - 1], lines[|lines| - 1];
      assert lines == front + [last];
      if rows == Rows(tol, lines) {
        RowsExactly(tol, front, Rows(tol, front));
        PlaceIsRows(tol, front, Rows(tol, front), last);
      }
      if IsRows(tol, lines, rows) {
        DropLastIsRows(tol, lines, rows);
        RowsExactly(tol, front, DropLast(rows));
      }
    }
  }

  // ----- row centers go down the page -----

  predicate CentersSorted(lines: seq<Line>) {
    forall i, j :: 0 <= i < j < |lines| ==> Center(lines[i]) <= Center(lines[j])
  }

  lemma {:induction false} SumBounds(row: seq<Line>, low: real, high: real)
    requires forall i :: 0 <= i < |row| ==> low <= Center(row[i]) <= high
    ensures low * |row| as real <= SumCenters(row) <= high * |row| as real
  {
    if row != [] {
      SumBounds(row[..|row| - 1], low, high);
      var n := |row| as real;
      assert low * n == low * (n - 1.0) + low && high * n == high * (n - 1.0) + high;
    }
  }

  lemma Divide(s: real, n: real, m: real)
    requires n > 0.0
    ensures m * n <= s ==> m <= s / n
    ensures s <= m * n ==> s / n <= m
  {
    var q := s / n;
    assert q * n == s && (q < m ==> q * n < m * n) && (q > m ==> q * n > m * n);
  }

  lemma MeanBounds(row: seq<Line>)
    requires row != [] && CentersSorted(row)
    ensures Center(row[0]) <= Mean(row) <= Center(row[|row| - 1])
  {
    var low, high := Center(row[0]), Center(row[|row| - 1]);
    SumBounds(row, low, high);
    Divide(SumCenters(row), |row| as real, low);
    Divide(SumCenters(row), |row| as real, high);
  }

  lemma Raised(s: real, k: real, c: real)
    requires k > 0.0 && s / k <= c
    ensures s / k <= (s + c) / (k + 1.0)
  {
    var q := s / k;
    assert q * k == s;
    assert q * (k + 1.0) == s + q;
    Divide(s + c, k + 1.0, q);
  }

  lemma MeanStep(row: seq<Line>, tol: real)
    requires |row| >= 2 && CentersSorted(row) && Tight(tol, row)
    ensures Center(row[|row| - 1]) - Mean(row) <= tol
  {
    var front, n := row[..|row| - 1], |row| - 1;
    assert CentersSorted(front);
    MeanBounds(front);
    assert Near(tol, Center(row[n]), Mean(row[..n]));
    Raised(SumCenters(front), n as real, Center(row[n]));
    assert |row| as real == n as real + 1.0;
  }

  lemma LastNearMean(row: seq<Line>, tol: real)
    requires row != [] && CentersSorted(row) && Tight(tol, row) && tol >= 0.0
    ensures Center(row[|row| - 1]) - Mean(row) <= tol
  {
    if |row| >= 2 {
      MeanStep(row, tol);
    } else {
      assert SumCenters(row[..0]) == 0.0 && Mean(row) == Center(row[0]);
    }
  }

  lemma {:induction false} FlattenConcat(a: seq<seq<Line>>, b: seq<seq<Line>>)
    ensures Flatten(a + b) == Flatten(a) + Flatten(b)
  {
    if b == [] {
      assert a + b == a;
    } else {
      FlattenConcat(a, b[..|b| - 1]);
      assert (a + b)[..|a + b| - 1] == a + b[..|b| - 1];
    }
  }

  lemma FlattenStep(rows: seq<seq<Line>>, i: nat)
    requires i < |rows|
    ensures Flatten(rows[..i + 1]) == Flatten(rows[..i]) + rows[i]
  {
    assert rows[..i + 1][..i] == rows[..i];
  }

  lemma {:induction false} FlattenCut(rows: seq<seq<Line>>, a: seq<seq<Line>>, b: seq<seq<Line>>)
    requires rows == a + b
    ensures Flatten(rows) == Flatten(a) + Flatten(b)
  {
    FlattenConcat(a, b);
  }

  /** Row `i` among all the lines. */
  lemma {:induction false} RowAt(rows: seq<seq<Line>>, i: nat)
    requires i < |rows|
    ensures Flatten(rows) == Flatten(rows[..i]) + rows[i] + Flatten(rows[i + 1..])
  {
    FlattenCut(rows, rows[..i + 1], rows[i + 1..]);
    FlattenStep(rows, i);
  }

  lemma SegmentSorted(lines: seq<Line>, a: seq<Line>, b: seq<Line>, c: seq<Line>)
    requires CentersSorted(lines) && lines == a + b + c
    ensures CentersSorted(b)
  {
    forall i, j | 0 <= i < j < |b| ensures Center(b[i]) <= Center(b[j]) {
      assert b[i] == lines[|a| + i] && b[j] == lines[|a| + j];
    }
  }

  lemma TwoRows(tol: real, lines: seq<Line>, pre: seq<Line>, above: seq<Line>, here: seq<Line>, post: seq<Line>)
    requires CentersSorted(lines) && lines == pre + above + here + post && above != [] && here != []
    requires Tight(tol, above) && tol >= 0.0 && !Near(tol, Center(here[0]), Mean(above))
    ensures Mean(above) + tol < Center(here[0]) <= Mean(here) && Center(above[|above| - 1]) < Center(here[0])
  {
    SegmentSorted(lines, pre, above, here + post);
    SegmentSorted(lines, pre + above, here, post);
    var n := |pre| + |above|;
    assert above[|above| - 1] == lines[n - 1] && here[0] == lines[n];
    MeanBounds(above);
    MeanBounds(here);
    LastNearMean(above, tol);
  }

  /** Every row starts strictly below the last line of the row before, and more than the tolerance below its mean. */
  lemma RowsDescend(tol: real, lines: seq<Line>, rows: seq<seq<Line>>, i: nat)
    requires IsRows(tol, lines, rows) && CentersSorted(lines) && tol >= 0.0 && 1 <= i < |rows|
    ensures Mean(rows[i - 1]) + tol < Center(rows[i][0]) <= Mean(rows[i])
    ensures Center(rows[i - 1][|rows[i - 1]| - 1]) < Center(rows[i][0])
  {
    RowAt(rows, i);
    FlattenStep(rows, i - 1);
    assert Apart(tol, rows, i);
    TwoRows(tol, lines, Flatten(rows[..i - 1]), rows[i - 1], rows[i], Flatten(rows[i + 1..]));
  }

  // ----- one column, and the page -----

  function Tolerance(lines: seq<Line>): real
    requires lines != []
  {
    var heights := SortBy(ByHeight, Mapped(Height, lines));
    var middle := heights[|heights| / 2] * 0.5;
    if middle > 1.0 then middle else 1.0
  }

  function SortedRows(rows: seq<seq<Line>>): seq<seq<Line>> {
    seq(|rows|, i requires 0 <= i < |rows| => SortBy(ByX, rows[i]))
  }

  function Column(lines: seq<Line>): seq<Line> {
    if lines == [] then [] else Flatten(SortedRows(Rows(Tolerance(lines), SortBy(ByCenter, lines))))
  }

  /** The lines that start left of the middle, or the other ones, in their given order. */
  function Side(lines: seq<Line>, middle: real, left: bool): seq<Line> {
    if lines == [] then []
    else Side(lines[..|lines| - 1], middle, left)
         + if (lines[|lines| - 1].x0 < middle) == left then [lines[|lines| - 1]] else []
  }

  function Beside(left: seq<Line>, right: seq<Line>): seq<Line> { left + right }

  function Layout(lines: seq<Line>, middle: real): seq<Line> {
    Beside(Column(Side(lines, middle, true)), Column(Side(lines, middle, false)))
  }

  // ----- the keys are orders -----

  lemma TextOrder(a: Line, b: Line, c: Line)
    ensures ByText(a, b) || ByText(b, a)
    ensures ByText(a, b) && ByText(b, c) ==> ByText(a, c)
    ensures ByText(a, b) && ByText(b, a) ==> a.text == b.text
  {
    LessTotal(a.text, b.text);
    if Less(a.text, b.text) && Less(b.text, c.text) { LessTransitive(a.text, b.text, c.text); }
    if Less(a.text, b.text) && Less(b.text, a.text) {
      LessTransitive(a.text, b.text, a.text);
      LessIrreflexive(a.text);
    }
  }

  lemma KeysAreOrders()
    ensures KeyOrder(ByCenter) && KeyOrder(ByX) && KeyOrder(ByHeight)
  {
    forall a, b ensures Comparable(ByCenter, a, b) && Comparable(ByX, a, b) { TextOrder(a, b, a); }
    forall a, b, c ensures Chained(ByCenter, a, b, c) && Chained(ByX, a, b, c) { TextOrder(a, b, c); }
  }

  lemma SortedCenters(lines: seq<Line>)
    requires SortedBy(ByCenter, lines)
    ensures CentersSorted(lines)
  {
    forall i, j | 0 <= i < j < |lines| ensures Center(lines[i]) <= Center(lines[j]) {
      assert ByCenter(lines[i], lines[j]);
    }
  }

  // ----- nothing is lost -----

  lemma {:induction false} SortedRowsKeep(rows: seq<seq<Line>>)
    ensures multiset(Flatten(SortedRows(rows))) == multiset(Flatten(rows))
  {
    if rows != [] {
      var k := |rows| - 1;
      SortedRowsKeep(rows[..k]);
      SortedRowKeeps(rows[k]);
      LastSorted(rows);
      JoinKeeps(Flatten(SortedRows(rows[..k])), Flatten(rows[..k]), SortBy(ByX, rows[k]), rows[k]);
    }
  }

  lemma {:induction false} LastSorted(rows: seq<seq<Line>>)
    requires rows != []
    ensures Flatten(SortedRows(rows)) == Flatten(SortedRows(rows[..|rows| - 1])) + SortBy(ByX, rows[|rows| - 1])
  {
    assert SortedRows(rows)[..|rows| - 1] == SortedRows(rows[..|rows| - 1]);
  }

  lemma {:induction false} SortedRowKeeps(row: seq<Line>)
    ensures multiset(SortBy(ByX, row)) == multiset(row)
  {
    KeysAreOrders();
    SortBySorts(ByX, row);
  }

  lemma JoinKeeps(a: seq<Line>, b: seq<Line>, c: seq<Line>, d: seq<Line>)
    requires multiset(a) == multiset(b) && multiset(c) == multiset(d)
    ensures multiset(a + c) == multiset(b + d)
  {
  }

  lemma ColumnKeeps(lines: seq<Line>)
    ensures multiset(Column(lines)) == multiset(lines)
  {
    if lines != [] {
      KeysAreOrders();
      SortBySorts(ByCenter, lines);
      var tol, sorted := Tolerance(lines), SortBy(ByCenter, lines);
      RowsExactly(tol, sorted, Rows(tol, sorted));
      SortedRowsKeep(Rows(tol, sorted));
    }
  }

  /** The column is the concatenation of its rows: the only cut of the center-sorted lines into tight rows apart
      from each other, each then sorted by x. */
  lemma {:induction false} ColumnRows(lines: seq<Line>, rows: seq<seq<Line>>)
    requires lines != [] && IsRows(Tolerance(lines), SortBy(ByCenter, lines), rows)
    ensures Column(lines) == Flatten(SortedRows(rows))
    ensures forall i :: 1 <= i < |rows| ==> Mean(rows[i - 1]) + Tolerance(lines) < Mean(rows[i])
    ensures forall i :: 0 <= i < |rows| ==>
              SortedBy(ByX, SortedRows(rows)[i]) && multiset(SortedRows(rows)[i]) == multiset(rows[i])
  {
    var tol, sorted := Tolerance(lines), SortBy(ByCenter, lines);
    RowsExactly(tol, sorted, rows);
    KeysAreOrders();
    SortBySorts(ByCenter, lines);
    SortedCenters(sorted);
    forall i | 1 <= i < |rows| ensures Mean(rows[i - 1]) + tol < Mean(rows[i]) { RowsDescend(tol, sorted, rows, i); }
    forall i | 0 <= i < |rows|
      ensures SortedBy(ByX, SortedRows(rows)[i]) && multiset(SortedRows(rows)[i]) == multiset(rows[i]) {
      SortBySorts(ByX, rows[i]);
    }
  }

  lemma {:induction false} SidesKeep(lines: seq<Line>, middle: real)
    ensures multiset(Side(lines, middle, true)) + multiset(Side(lines, middle, false)) == multiset(lines)
  {
    if lines != [] {
      var front, last := lines[..|lines| - 1], lines[|lines| - 1];
      SidesKeep(front, middle);
      assert lines == front + [last];
      SideSnoc(front, last, middle, true);
      SideSnoc(front, last, middle, false);
      KeptWithLast(Side(front, middle, true), Side(front, middle, false), front, last);
    }
  }

  /** The last line joins its own side and no other. */
  lemma {:induction false} SideSnoc(front: seq<Line>, last: Line, middle: real, left: bool)
    ensures Side(front + [last], middle, left)
            == if (last.x0 < middle) == left then Side(front, middle, left) + [last] else Side(front, middle, left)
  {
    assert (front + [last])[..|front|] == front;
  }

  lemma KeptWithLast(a: seq<Line>, b: seq<Line>, lines: seq<Line>, last: Line)
    requires multiset(a) + multiset(b) == multiset(lines)
    ensures multiset(a + [last]) + multiset(b) == multiset(lines + [last])
    ensures multiset(a) + multiset(b + [last]) == multiset(lines + [last])
  {
  }

  lemma {:induction false} SideMembers(lines: seq<Line>, middle: real, left: bool)
    ensures forall l :: l in Side(lines, middle, left) ==> (l.x0 < middle) == left
  {
    if lines != [] {
      SideMembers(lines[..|lines| - 1], middle, left);
    }
  }

  lemma ColumnMember(lines: seq<Line>, l: Line)
    requires l in Column(lines)
    ensures l in lines
  {
    ColumnKeeps(lines);
    assert l in multiset(Column(lines));
  }

  /** The output is the input rearranged, the left column before the right one. */
  lemma LayoutKeeps(lines: seq<Line>, middle: real)
    ensures multiset(Layout(lines, middle)) == multiset(lines)
    ensures forall i, j :: 0 <= i < j < |Layout(lines, middle)| && Layout(lines, middle)[j].x0 < middle ==>
              Layout(lines, middle)[i].x0 < middle
  {
    var left, right := Side(lines, middle, true), Side(lines, middle, false);
    SidesKeep(lines, middle);
    SideMembers(lines, middle, true);
    SideMembers(lines, middle, false);
    ColumnKeeps(left);
    ColumnKeeps(right);
    forall l | l in Column(left) ensures l.x0 < middle { ColumnMember(left, l); }
    forall l | l in Column(right) ensures l.x0 >= middle { ColumnMember(right, l); }
  }

  // ----- the code -----

  lemma {:induction false} RowsSnoc(tol: real, lines: seq<Line>, i: nat)
    requires i < |lines|
    ensures Rows(tol, lines[..i + 1]) == Place(tol, Rows(tol, lines[..i]), lines[i])
  {
    assert lines[..i + 1][..i] == lines[..i];
  }

  /** `_sort_one_column`. */
  method SortOneColumn(lines: seq<Line>) returns (r: seq<Line>)
    ensures r == Column(lines)
  {
    if lines == [] { return []; }
    var tolerance := Tolerance(lines);
    var rows: seq<seq<Line>> := [];
    var centers: seq<real> := [];
    var sorted := SortBy(ByCenter, lines);
    for i := 0 to |sorted|
      invariant rows == Rows(tolerance, sorted[..i]) && NonEmpty(rows) && |centers| == |rows|
      invariant rows != [] ==> centers[|rows| - 1] == Mean(rows[|rows| - 1])
    {
      RowsSnoc(tolerance, sorted, i);
      rows, centers := PlaceLine(tolerance, rows, centers, sorted[i]);
    }
    assert sorted[..|sorted|] == sorted;
    r := Flatten(SortedRows(rows));
  }

  /** The body of the loop: a line joins the last row, or starts one, and the row's center follows. */
  method PlaceLine(tolerance: real, rows: seq<seq<Line>>, centers: seq<real>, line: Line)
      returns (rows': seq<seq<Line>>, centers': seq<real>)
    requires NonEmpty(rows) && |centers| == |rows| && (rows != [] ==> centers[|rows| - 1] == Mean(rows[|rows| - 1]))
    ensures rows' == Place(tolerance, rows, line) && NonEmpty(rows') && |centers'| == |rows'|
    ensures rows' != [] && centers'[|rows'| - 1] == Mean(rows'[|rows'| - 1])
  {
    var k := |rows| - 1;
    if rows == [] || !(-tolerance <= Center(line) - centers[k] <= tolerance) {
      rows', centers' := rows + [[line]], centers + [Center(line)];
      OneLineMean(line);
    } else {
      var row := rows[k] + [line];
      rows', centers' := rows[..k] + [row], centers[..k] + [Mean(row)];
    }
  }

  lemma OneLineMean(line: Line)
    ensures Mean([line]) == Center(line)
  {
    assert SumCenters([line][..0]) == 0.0;
    assert SumCenters([line]) == Center(line);
  }

  /** `sort_reading_order`. */
  method SortReadingOrder(lines: seq<Line>, pageWidth: real) returns (r: Result<seq<Line>>)
    ensures r.Ok? <==> pageWidth > 0.0
    ensures r.Ok? ==> r.value == Layout(lines, pageWidth / 2.0)
  {
    if pageWidth <= 0.0 { return Err("page width must be finite and positive"); }
    var left := SortOneColumn(Side(lines, pageWidth / 2.0, true));
    var right := SortOneColumn(Side(lines, pageWidth / 2.0, false));
    return Ok(Beside(left, right));
  }
}
