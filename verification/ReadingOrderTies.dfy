/** When the reading order depends on the input order (src/ingestion/extract_ocr.py). */
module ReadingOrderTies {
  import opened Sorting
  import opened ReadingOrder

  // ----- the rows of two arrangements have the same shape -----

  predicate SameCenters(a: seq<Line>, b: seq<Line>) {
    |a| == |b| && forall i :: 0 <= i < |a| ==> Center(a[i]) == Center(b[i])
  }

  predicate SameShape(a: seq<seq<Line>>, b: seq<seq<Line>>) {
    |a| == |b| && forall i :: 0 <= i < |a| ==> |a[i]| == |b[i]| && SumCenters(a[i]) == SumCenters(b[i])
  }

  lemma PlaceSameShape(tol: real, a: seq<seq<Line>>, b: seq<seq<Line>>, x: Line, y: Line)
    requires NonEmpty(a) && NonEmpty(b) && SameShape(a, b) && Center(x) == Center(y)
    ensures SameShape(Place(tol, a, x), Place(tol, b, y))
  {
    var k := |a| - 1;
    assert SumCenters([x]) == SumCenters([y]) by {
      assert SumCenters([x][..0]) == 0.0 && SumCenters([y][..0]) == 0.0;
    }
    if a != [] {
      assert (a[k] + [x])[..|a[k]|] == a[k] && (b[k] + [y])[..|b[k]|] == b[k];
      assert Mean(a[k]) == Mean(b[k]);
    }
  }

  lemma {:induction false} RowsSameShape(tol: real, a: seq<Line>, b: seq<Line>)
    requires SameCenters(a, b)
    ensures SameShape(Rows(tol, a), Rows(tol, b))
  {
    if a != [] {
      var n := |a| - 1;
      RowsSameShape(tol, a[..n], b[..n]);
      PlaceSameShape(tol, Rows(tol, a[..n]), Rows(tol, b[..n]), a[n], b[n]);
    }
  }

  lemma {:induction false} SameLengths(a: seq<seq<Line>>, b: seq<seq<Line>>)
    requires SameShape(a, b)
    ensures |Flatten(a)| == |Flatten(b)|
  {
    if a != [] {
      SameLengths(a[..|a| - 1], b[..|b| - 1]);
    }
  }

  // ----- and row by row the same lines -----

  predicate AllBefore(lines: seq<Line>, c: real) { forall i :: 0 <= i < |lines| ==> Center(lines[i]) < c }

  predicate NoneBefore(lines: seq<Line>, c: real) { forall i :: 0 <= i < |lines| ==> Center(lines[i]) >= c }

  lemma CutCount(low: seq<Line>, high: seq<Line>, c: real, x: Line)
    requires AllBefore(low, c) && NoneBefore(high, c)
    ensures multiset(low)[x] == if Center(x) < c then multiset(low + high)[x] else 0
  {
    assert multiset(low + high)[x] == multiset(low)[x] + multiset(high)[x];
    if Center(x) < c { assert x !in high; } else { assert x !in low; }
  }

  /** A cut at a center separates the same lines in both. */
  lemma CutAgrees(a: seq<Line>, b: seq<Line>, x: seq<Line>, y: seq<Line>, c: real)
    requires multiset(a + x) == multiset(b + y)
    requires AllBefore(a, c) && NoneBefore(x, c) && AllBefore(b, c) && NoneBefore(y, c)
    ensures multiset(a) == multiset(b)
  {
    forall l ensures multiset(a)[l] == multiset(b)[l] {
      CutCount(a, x, c, l);
      CutCount(b, y, c, l);
    }
  }

  lemma CutBefore(a: seq<Line>, x: seq<Line>)
    requires CentersSorted(a + x) && a != [] && x != [] && Center(a[|a| - 1]) < Center(x[0])
    ensures AllBefore(a, Center(x[0])) && NoneBefore(x, Center(x[0]))
  {
    var all, n := a + x, |a|;
    forall i | 0 <= i < |a| ensures Center(a[i]) < Center(x[0]) { assert Center(all[i]) <= Center(all[n - 1]); }
    forall i | 0 <= i < |x|
      ensures Center(x[i]) >= Center(x[0]) { assert i > 0 ==> Center(all[n]) <= Center(all[n + i]); }
  }

  lemma SameCut(a: seq<Line>, b: seq<Line>, x: seq<Line>, y: seq<Line>, c: real)
    requires SameCenters(a + x, b + y) && |a| == |b| && AllBefore(a, c) && NoneBefore(x, c)
    ensures AllBefore(b, c) && NoneBefore(y, c)
  {
    var s, t := a + x, b + y;
    forall i | 0 <= i < |b| ensures Center(b[i]) < c { assert Center(s[i]) == Center(t[i]); }
    forall i | 0 <= i < |y| ensures Center(y[i]) >= c { assert Center(s[|a| + i]) == Center(t[|a| + i]); }
  }

  lemma FlattenHead(rows: seq<seq<Line>>, i: nat)
    requires i < |rows|
    ensures Flatten(rows[i..]) == rows[i] + Flatten(rows[i + 1..])
  {
    FlattenCut(rows[i..], [rows[i]], rows[i + 1..]);
    FlattenStep([rows[i]], 0);
    assert [rows[i]][..0 + 1] == [rows[i]] && Flatten([rows[i]][..0]) == [];
  }

  /** The lines before row `i` end with row `i - 1`, and the lines from there on start with row `i`. */
  lemma RowsCut(rows: seq<seq<Line>>, i: nat)
    requires 0 < i < |rows| && rows[i - 1] != [] && rows[i] != []
    ensures var low, high, above := Flatten(rows[..i]), Flatten(rows[i..]), rows[i - 1];
            Flatten(rows) == low + high && low != [] && high != [] && low[|low| - 1] == above[|above| - 1]
              && high[0] == rows[i][0]
  {
    FlattenStep(rows, i - 1);
    FlattenCut(rows, rows[..i], rows[i..]);
    FlattenHead(rows, i);
    JointEnds(Flatten(rows[..i - 1]), rows[i - 1], rows[i], Flatten(rows[i + 1..]));
  }

  lemma JointEnds(pre: seq<Line>, above: seq<Line>, here: seq<Line>, post: seq<Line>)
    requires above != [] && here != []
    ensures (pre + above)[|pre + above| - 1] == above[|above| - 1] && (here + post)[0] == here[0]
  {
  }

  /** The rows from `i` on start strictly below the rows before. */
  lemma StrictStep(tol: real, a: seq<Line>, rows: seq<seq<Line>>, i: nat)
    requires tol >= 0.0 && IsRows(tol, a, rows) && CentersSorted(a) && 0 < i < |rows|
    ensures var low, high := Flatten(rows[..i]), Flatten(rows[i..]);
            a == low + high && low != [] && high != [] && Center(low[|low| - 1]) < Center(high[0])
  {
    RowsDescend(tol, a, rows, i);
    RowsCut(rows, i);
  }

  ghost predicate Arranged(tol: real, a: seq<Line>, b: seq<Line>, ra: seq<seq<Line>>, rb: seq<seq<Line>>) {
    && tol >= 0.0 && IsRows(tol, a, ra) && SameShape(ra, rb) && Flatten(rb) == b
    && multiset(a) == multiset(b) && SameCenters(a, b) && CentersSorted(a)
  }

  lemma StrictCutAgrees(a: seq<Line>, b: seq<Line>, low: seq<Line>, high: seq<Line>, low2: seq<Line>, high2: seq<Line>)
    requires multiset(a) == multiset(b) && SameCenters(a, b) && CentersSorted(a) && a == low + high && b == low2 + high2
    requires |low| == |low2| && low != [] && high != [] && Center(low[|low| - 1]) < Center(high[0])
    ensures multiset(low) == multiset(low2)
  {
    CutBefore(low, high);
    SameCut(low, low2, high, high2, Center(high[0]));
    CutAgrees(low, low2, high, high2, Center(high[0]));
  }

  lemma {:induction false} EndPrefixes(rows: seq<seq<Line>>)
    ensures Flatten(rows[..0]) == [] && Flatten(rows[..|rows|]) == Flatten(rows)
  {
    assert rows[..|rows|] == rows;
  }

  lemma PrefixLengths(a: seq<seq<Line>>, b: seq<seq<Line>>, i: nat)
    requires SameShape(a, b) && i <= |a|
    ensures |Flatten(a[..i])| == |Flatten(b[..i])|
  {
    SameLengths(a[..i], b[..i]);
  }

  lemma PrefixesAgree(tol: real, a: seq<Line>, b: seq<Line>, ra: seq<seq<Line>>, rb: seq<seq<Line>>, i: nat)
    requires Arranged(tol, a, b, ra, rb) && i <= |ra|
    ensures multiset(Flatten(ra[..i])) == multiset(Flatten(rb[..i]))
  {
    if 0 < i < |ra| {
      InnerPrefixesAgree(tol, a, b, ra, rb, i);
    } else {
      EndPrefixes(ra);
      EndPrefixes(rb);
    }
  }

  lemma InnerPrefixesAgree(tol: real, a: seq<Line>, b: seq<Line>, ra: seq<seq<Line>>, rb: seq<seq<Line>>, i: nat)
    requires Arranged(tol, a, b, ra, rb) && 0 < i < |ra|
    ensures multiset(Flatten(ra[..i])) == multiset(Flatten(rb[..i]))
  {
    var low, high, low2, high2 := CutParts(tol, a, b, ra, rb, i);
    StrictCutAgrees(a, b, low, high, low2, high2);
  }

  lemma {:induction false} OtherCut(rows: seq<seq<Line>>, i: nat)
    requires i <= |rows|
    ensures Flatten(rows) == Flatten(rows[..i]) + Flatten(rows[i..])
  {
    FlattenCut(rows, rows[..i], rows[i..]);
  }

  lemma CutParts(tol: real, a: seq<Line>, b: seq<Line>, ra: seq<seq<Line>>, rb: seq<seq<Line>>, i: nat)
      returns (low: seq<Line>, high: seq<Line>, low2: seq<Line>, high2: seq<Line>)
    requires Arranged(tol, a, b, ra, rb) && 0 < i < |ra|
    ensures low == Flatten(ra[..i]) && low2 == Flatten(rb[..i]) && a == low + high && b == low2 + high2
    ensures |low| == |low2| && low != [] && high != [] && Center(low[|low| - 1]) < Center(high[0])
  {
    StrictStep(tol, a, ra, i);
    PrefixLengths(ra, rb, i);
    OtherCut(rb, i);
    low, high, low2, high2 := Flatten(ra[..i]), Flatten(ra[i..]), Flatten(rb[..i]), Flatten(rb[i..]);
  }

  lemma SubtractPart(a: seq<Line>, b: seq<Line>, x: seq<Line>, y: seq<Line>)
    requires multiset(a) == multiset(b) && multiset(a + x) == multiset(b + y)
    ensures multiset(x) == multiset(y)
  {
    assert multiset(x) == multiset(a + x) - multiset(a);
    assert multiset(y) == multiset(b + y) - multiset(b);
  }

  lemma SameRowLines(tol: real, a: seq<Line>, b: seq<Line>, ra: seq<seq<Line>>, rb: seq<seq<Line>>, i: nat)
    requires Arranged(tol, a, b, ra, rb) && i < |ra|
    ensures multiset(ra[i]) == multiset(rb[i])
  {
    PrefixesAgree(tol, a, b, ra, rb, i);
    PrefixesAgree(tol, a, b, ra, rb, i + 1);
    FlattenStep(ra, i);
    FlattenStep(rb, i);
    SubtractPart(Flatten(ra[..i]), Flatten(rb[..i]), ra[i], rb[i]);
  }

  // ----- a sorted row is determined by its lines -----

  predicate ByXThenCenter(a: Line, b: Line) { Lex(ByX, ByCenter, a, b) }

  lemma XThenCenterOrder()
    ensures KeyOrder(ByXThenCenter)
  {
    KeysAreOrders();
    forall a, b ensures Comparable(ByXThenCenter, a, b) { assert Comparable(ByX, a, b) && Comparable(ByCenter, a, b); }
    forall a, b, c ensures Chained(ByXThenCenter, a, b, c) {
      assert Chained(ByX, a, b, c) && Chained(ByX, b, c, a) && Chained(ByX, c, a, b) && Chained(ByCenter, a, b, c);
    }
  }

  lemma OnlyTies(a: Line, b: Line)
    requires ByXThenCenter(a, b) && ByXThenCenter(b, a)
    ensures Tied(a, b)
  {
    TextOrder(a, b, a);
  }

  ghost predicate NoTies(lines: seq<Line>) { forall a, b :: a in lines && b in lines && Tied(a, b) ==> a == b }

  lemma {:induction false} SortedRowUnique(a: seq<Line>, b: seq<Line>)
    requires SortedBy(ByCenter, a) && SortedBy(ByCenter, b) && multiset(a) == multiset(b) && NoTies(a)
    ensures SortBy(ByX, a) == SortBy(ByX, b)
  {
    KeysAreOrders();
    XThenCenterOrder();
    SortByTwice(ByX, ByCenter, a);
    SortByTwice(ByX, ByCenter, b);
    var x, y := SortBy(ByX, a), SortBy(ByX, b);
    assert |multiset(x)| == |x| && |multiset(y)| == |y|;
    forall l, m | l in x && m in x && ByXThenCenter(l, m) && ByXThenCenter(m, l) ensures l == m {
      OnlyTies(l, m);
      assert l in multiset(a) && m in multiset(a);
    }
    SortedUniquely(ByXThenCenter, x, y);
  }

  lemma PartSorted(lines: seq<Line>, pre: seq<Line>, part: seq<Line>, post: seq<Line>)
    requires SortedBy(ByCenter, lines) && lines == pre + part + post
    ensures SortedBy(ByCenter, part) && forall l :: l in part ==> l in lines
  {
    forall i, j | 0 <= i < j < |part| ensures ByCenter(part[i], part[j]) {
      assert ByCenter(lines[|pre| + i], lines[|pre| + j]);
    }
  }

  lemma {:induction false} RowSorted(lines: seq<Line>, rows: seq<seq<Line>>, i: nat)
    requires SortedBy(ByCenter, lines) && Flatten(rows) == lines && i < |rows|
    ensures SortedBy(ByCenter, rows[i]) && forall l :: l in rows[i] ==> l in lines
  {
    RowAt(rows, i);
    PartSorted(lines, Flatten(rows[..i]), rows[i], Flatten(rows[i + 1..]));
  }

  // ----- one column -----

  lemma SameTolerance(a: seq<Line>, b: seq<Line>)
    requires multiset(a) == multiset(b) && a != [] && b != []
    ensures Tolerance(a) == Tolerance(b)
  {
    KeysAreOrders();
    MapReordered(Height, a, b);
    var x, y := Mapped(Height, a), Mapped(Height, b);
    SortBySorts(ByHeight, x);
    SortBySorts(ByHeight, y);
    SortedUniquely(ByHeight, SortBy(ByHeight, x), SortBy(ByHeight, y));
  }

  lemma SortedSameCenters(a: seq<Line>, b: seq<Line>)
    requires SortedBy(ByCenter, a) && SortedBy(ByCenter, b) && multiset(a) == multiset(b)
    ensures SameCenters(a, b)
  {
    KeysAreOrders();
    assert |multiset(a)| == |a| && |multiset(b)| == |b|;
    forall i | 0 <= i < |a| ensures Center(a[i]) == Center(b[i]) {
      SameSortedKeys(ByCenter, a, b, i);
      SameSortedKeys(ByCenter, b, a, i);
    }
  }

  lemma ColumnOrderIndependent(a: seq<Line>, b: seq<Line>)
    requires multiset(a) == multiset(b) && NoTies(a)
    ensures Column(a) == Column(b)
  {
    assert |multiset(a)| == |a| && |multiset(b)| == |b|;
    if a != [] {
      var tol, sa, sb := Tolerance(a), SortBy(ByCenter, a), SortBy(ByCenter, b);
      SameTolerance(a, b);
      KeysAreOrders();
      SortBySorts(ByCenter, a);
      SortBySorts(ByCenter, b);
      SameMembers(a, sa);
      RowsArranged(tol, sa, sb);
      SortedRowsAgree(tol, sa, sb, Rows(tol, sa), Rows(tol, sb));
    }
  }

  lemma RowsAgree(tol: real, sa: seq<Line>, sb: seq<Line>, ra: seq<seq<Line>>, rb: seq<seq<Line>>, i: nat)
    requires SortedBy(ByCenter, sa) && SortedBy(ByCenter, sb) && Arranged(tol, sa, sb, ra, rb) && NoTies(sa) && i < |ra|
    ensures SortBy(ByX, ra[i]) == SortBy(ByX, rb[i])
  {
    RowSorted(sa, ra, i);
    RowSorted(sb, rb, i);
    SameRowLines(tol, sa, sb, ra, rb, i);
    SortedRowUnique(ra[i], rb[i]);
  }

  lemma {:induction false} RowsArranged(tol: real, sa: seq<Line>, sb: seq<Line>)
    requires tol >= 0.0 && SortedBy(ByCenter, sa) && SortedBy(ByCenter, sb) && multiset(sa) == multiset(sb)
    ensures Arranged(tol, sa, sb, Rows(tol, sa), Rows(tol, sb))
  {
    SortedSameCenters(sa, sb);
    SortedCenters(sa);
    RowsSameShape(tol, sa, sb);
    RowsExactly(tol, sa, Rows(tol, sa));
    RowsExactly(tol, sb, Rows(tol, sb));
  }

  lemma SameMembers(a: seq<Line>, b: seq<Line>)
    requires multiset(a) == multiset(b)
    ensures NoTies(a) <==> NoTies(b)
  {
    forall l ensures l in a <==> l in b { assert l in multiset(a) <==> l in multiset(b); }
  }

  lemma SortedRowsAgree(tol: real, sa: seq<Line>, sb: seq<Line>, ra: seq<seq<Line>>, rb: seq<seq<Line>>)
    requires SortedBy(ByCenter, sa) && SortedBy(ByCenter, sb) && Arranged(tol, sa, sb, ra, rb) && NoTies(sa)
    ensures SortedRows(ra) == SortedRows(rb)
  {
    forall i | 0 <= i < |ra| ensures SortedRows(ra)[i] == SortedRows(rb)[i] { RowsAgree(tol, sa, sb, ra, rb, i); }
  }

  // ----- ties keep their order -----

  function TiedWith(x: Line): Line -> bool { (l: Line) => Tied(l, x) }

  lemma TiesShareKeys(x: Line)
    ensures OneKey(ByCenter, TiedWith(x)) && OneKey(ByX, TiedWith(x))
  {
  }

  lemma {:induction false} SortedRowsStable(p: Line -> bool, rows: seq<seq<Line>>)
    requires OneKey(ByX, p)
    ensures Keep(p, Flatten(SortedRows(rows))) == Keep(p, Flatten(rows))
  {
    if rows != [] {
      var k := |rows| - 1;
      SortedRowsStable(p, rows[..k]);
      SortStable(ByX, p, rows[k]);
      assert SortedRows(rows)[..k] == SortedRows(rows[..k]);
      KeepConcat(p, Flatten(SortedRows(rows)[..k]), SortedRows(rows)[k]);
      KeepConcat(p, Flatten(rows[..k]), rows[k]);
    }
  }

  lemma {:induction false} ColumnStable(x: Line, lines: seq<Line>)
    ensures Keep(TiedWith(x), Column(lines)) == Keep(TiedWith(x), lines)
  {
    if lines != [] {
      TiesShareKeys(x);
      var tol, sorted := Tolerance(lines), SortBy(ByCenter, lines);
      RowsExactly(tol, sorted, Rows(tol, sorted));
      SortedRowsStable(TiedWith(x), Rows(tol, sorted));
      SortStable(ByCenter, TiedWith(x), lines);
    }
  }

  lemma {:induction false} KeepSnoc(p: Line -> bool, lines: seq<Line>, l: Line)
    ensures Keep(p, lines + [l]) == Keep(p, lines) + if p(l) then [l] else []
  {
    assert (lines + [l])[..|lines|] == lines;
  }

  lemma {:induction false} NearStep(x: Line, front: seq<Line>, last: Line, middle: real, left: bool)
    requires (x.x0 < middle) == left && Keep(TiedWith(x), Side(front, middle, left)) == Keep(TiedWith(x), front)
    ensures Keep(TiedWith(x), Side(front + [last], middle, left)) == Keep(TiedWith(x), front + [last])
  {
    KeepSnoc(TiedWith(x), Side(front, middle, left), last);
    KeepSnoc(TiedWith(x), front, last);
    SideSnoc(front, last, middle, left);
    assert TiedWith(x)(last) ==> last.x0 == x.x0;
  }

  /** The side of `x` holds all lines that tie with it, in their order. */
  lemma {:induction false} NearSide(x: Line, lines: seq<Line>, middle: real, left: bool)
    requires (x.x0 < middle) == left
    ensures Keep(TiedWith(x), Side(lines, middle, left)) == Keep(TiedWith(x), lines)
  {
    if lines != [] {
      var front, last := lines[..|lines| - 1], lines[|lines| - 1];
      NearSide(x, front, middle, left);
      NearStep(x, front, last, middle, left);
      assert lines == front + [last];
    }
  }

  /** The other side holds none. */
  lemma {:induction false} FarSide(x: Line, lines: seq<Line>, middle: real, left: bool)
    requires (x.x0 < middle) != left
    ensures Keep(TiedWith(x), Side(lines, middle, left)) == []
  {
    SideMembers(lines, middle, left);
    KeepNone(TiedWith(x), Side(lines, middle, left));
  }

  lemma {:induction false} KeepNone(p: Line -> bool, lines: seq<Line>)
    requires forall l :: l in lines ==> !p(l)
    ensures Keep(p, lines) == []
  {
    if lines != [] { KeepNone(p, lines[..|lines| - 1]); }
  }

  /** Lines that tie come out in the order in which they went in. */
  lemma {:induction false} LayoutStable(x: Line, lines: seq<Line>, middle: real)
    ensures Keep(TiedWith(x), Layout(lines, middle)) == Keep(TiedWith(x), lines)
  {
    SidesKept(x, lines, middle);
    BothColumnsStable(x, Side(lines, middle, true), Side(lines, middle, false));
  }

  /** The lines that tie are on one side, in their order. */
  lemma {:induction false} SidesKept(x: Line, lines: seq<Line>, middle: real)
    ensures Keep(TiedWith(x), Side(lines, middle, true)) + Keep(TiedWith(x), Side(lines, middle, false))
            == Keep(TiedWith(x), lines)
  {
    if x.x0 < middle {
      NearSide(x, lines, middle, true);
      FarSide(x, lines, middle, false);
    } else {
      NearSide(x, lines, middle, false);
      FarSide(x, lines, middle, true);
    }
  }

  lemma {:induction false} BothColumnsStable(x: Line, left: seq<Line>, right: seq<Line>)
    ensures Keep(TiedWith(x), Beside(Column(left), Column(right))) == Keep(TiedWith(x), left) + Keep(TiedWith(x), right)
  {
    ColumnStable(x, left);
    ColumnStable(x, right);
    KeepBeside(TiedWith(x), Column(left), Column(right));
  }

  lemma {:induction false} KeepBeside(p: Line -> bool, left: seq<Line>, right: seq<Line>)
    ensures Keep(p, Beside(left, right)) == Keep(p, left) + Keep(p, right)
  {
    KeepConcat(p, left, right);
  }

  lemma {:induction false} SwapTies(x: Line, y: Line, pre: seq<Line>, mid: seq<Line>, post: seq<Line>)
    requires Tied(x, y) && x != y
    ensures Keep(TiedWith(x), pre + ([x] + (mid + [y] + post))) != Keep(TiedWith(x), pre + ([y] + (mid + [x] + post)))
  {
    KeepSecond(TiedWith(x), pre, x, mid + [y] + post);
    KeepSecond(TiedWith(x), pre, y, mid + [x] + post);
  }

  lemma {:induction false} KeepSecond(p: Line -> bool, pre: seq<Line>, x: Line, rest: seq<Line>)
    requires p(x)
    ensures |Keep(p, pre)| < |Keep(p, pre + ([x] + rest))| && Keep(p, pre + ([x] + rest))[|Keep(p, pre)|] == x
  {
    KeepConcat(p, pre, [x] + rest);
    KeepConcat(p, [x], rest);
    assert Keep(p, [x]) == [x] by { assert [x][..0] == []; }
  }

  ghost predicate OrderIndependent(lines: seq<Line>, middle: real) {
    forall other: seq<Line> :: multiset(other) == multiset(lines) ==> Layout(other, middle) == Layout(lines, middle)
  }

  lemma {:induction false} SidesReordered(a: seq<Line>, middle: real, left: bool, l: Line)
    ensures multiset(Side(a, middle, left))[l] == if (l.x0 < middle) == left then multiset(a)[l] else 0
  {
    if a != [] {
      var front, last := a[..|a| - 1], a[|a| - 1];
      SidesReordered(front, middle, left, l);
      assert a == front + [last];
      SideSnoc(front, last, middle, left);
      CountLast(front, last, l);
      CountLast(Side(front, middle, left), last, l);
    }
  }

  lemma CountLast(lines: seq<Line>, last: Line, l: Line)
    ensures multiset(lines + [last])[l] == multiset(lines)[l] + if l == last then 1 else 0
  {
  }

  lemma LayoutReordered(a: seq<Line>, b: seq<Line>, middle: real)
    requires multiset(a) == multiset(b) && NoTies(a)
    ensures Layout(a, middle) == Layout(b, middle)
  {
    forall left: bool ensures Column(Side(a, middle, left)) == Column(Side(b, middle, left)) {
      forall l ensures multiset(Side(a, middle, left))[l] == multiset(Side(b, middle, left))[l] {
        SidesReordered(a, middle, left, l);
        SidesReordered(b, middle, left, l);
        assert multiset(a)[l] == multiset(b)[l];
      }
      SideWithin(a, middle, left);
      ColumnOrderIndependent(Side(a, middle, left), Side(b, middle, left));
    }
  }

  lemma {:induction false} SideWithin(lines: seq<Line>, middle: real, left: bool)
    ensures forall l :: l in Side(lines, middle, left) ==> l in lines
  {
    if lines != [] {
      SideWithin(lines[..|lines| - 1], middle, left);
    }
  }

  /** The reading order is independent of the input order exactly when no two different lines agree in
      x0, y0, y1 and text. */
  lemma OrderIndependentExactly(lines: seq<Line>, middle: real)
    ensures OrderIndependent(lines, middle) <==> NoTies(lines)
  {
    if NoTies(lines) {
      forall other: seq<Line> | multiset(other) == multiset(lines)
        ensures Layout(other, middle) == Layout(lines, middle) {
        LayoutReordered(lines, other, middle);
      }
    } else {
      var x, y :| x in lines && y in lines && Tied(x, y) && x != y;
      var i :| 0 <= i < |lines| && lines[i] == x;
      var j :| 0 <= j < |lines| && lines[j] == y;
      Swapped(lines, middle, if i < j then i else j, if i < j then j else i);
    }
  }

  lemma Swapped(lines: seq<Line>, middle: real, i: nat, j: nat)
    requires i < j < |lines| && Tied(lines[i], lines[j]) && lines[i] != lines[j]
    ensures !OrderIndependent(lines, middle)
  {
    var x, y, pre, mid, post := lines[i], lines[j], lines[..i], lines[i + 1..j], lines[j + 1..];
    assert lines == pre + ([x] + (mid + [y] + post));
    var other := pre + ([y] + (mid + [x] + post));
    SwapTies(x, y, pre, mid, post);
    assert multiset(other) == multiset(pre + ([x] + (mid + [y] + post)));
    Distinguished(x, lines, other, middle);
  }

  lemma {:induction false} Distinguished(x: Line, lines: seq<Line>, other: seq<Line>, middle: real)
    requires multiset(other) == multiset(lines) && Keep(TiedWith(x), other) != Keep(TiedWith(x), lines)
    ensures !OrderIndependent(lines, middle)
  {
    LayoutStable(x, lines, middle);
    LayoutStable(x, other, middle);
  }
}
