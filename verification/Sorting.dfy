/** Python's `sorted`: a stable sort by a key order, and what only depends on the elements and not on their order. */
module Sorting {
  /** The order of a sort key: total and transitive, but two values may share a key. */
  ghost predicate KeyOrder<T(!new)>(le: (T, T) -> bool) {
    && (forall x, y :: Comparable(le, x, y))
    && (forall x, y, z :: Chained(le, x, y, z))
  }

  predicate Comparable<T>(le: (T, T) -> bool, x: T, y: T) { le(x, y) || le(y, x) }

  predicate Chained<T>(le: (T, T) -> bool, x: T, y: T, z: T) { le(x, y) && le(y, z) ==> le(x, z) }

  predicate SortedBy<T>(le: (T, T) -> bool, s: seq<T>) {
    forall i, j :: 0 <= i < j < |s| ==> le(s[i], s[j])
  }

  /** `x` goes behind everything that does not come after it. */
  function Insert<T>(le: (T, T) -> bool, x: T, s: seq<T>): (r: seq<T>)
    ensures |r| == |s| + 1
  {
    if s == [] || le(s[|s| - 1], x) then s + [x]
    else Insert(le, x, s[..|s| - 1]) + [s[|s| - 1]]
  }

  function SortBy<T>(le: (T, T) -> bool, s: seq<T>): (r: seq<T>)
    ensures |r| == |s|
  {
    if s == [] then [] else Insert(le, s[|s| - 1], SortBy(le, s[..|s| - 1]))
  }

  lemma AppendSorted<T>(le: (T, T) -> bool, s: seq<T>, x: T)
    requires SortedBy(le, s) && forall i :: 0 <= i < |s| ==> le(s[i], x)
    ensures SortedBy(le, s + [x])
  {
  }

  lemma {:induction false} InsertSorted<T(!new)>(le: (T, T) -> bool, x: T, s: seq<T>)
    requires KeyOrder(le) && SortedBy(le, s)
    ensures SortedBy(le, Insert(le, x, s)) && multiset(Insert(le, x, s)) == multiset(s) + multiset{x}
  {
    if s != [] {
      var front, last := s[..|s| - 1], s[|s| - 1];
      assert s == front + [last];
      if le(last, x) {
        forall i | 0 <= i < |s| ensures le(s[i], x) { assert Chained(le, s[i], last, x); }
        AppendSorted(le, s, x);
      } else {
        InsertSorted(le, x, front);
        var r := Insert(le, x, front);
        forall i | 0 <= i < |r| ensures le(r[i], last) {
          assert r[i] in multiset(r) && Comparable(le, last, x);
          assert r[i] in front || r[i] == x;
        }
        AppendSorted(le, r, last);
      }
    }
  }

  lemma {:induction false} SortBySorts<T(!new)>(le: (T, T) -> bool, s: seq<T>)
    requires KeyOrder(le)
    ensures SortedBy(le, SortBy(le, s)) && multiset(SortBy(le, s)) == multiset(s)
  {
    if s != [] {
      SortBySorts(le, s[..|s| - 1]);
      InsertSorted(le, s[|s| - 1], SortBy(le, s[..|s| - 1]));
      assert s == s[..|s| - 1] + [s[|s| - 1]];
    }
  }

  // ----- counting -----

  function Count<T>(p: T -> bool, s: seq<T>): nat {
    if s == [] then 0 else Count(p, s[..|s| - 1]) + if p(s[|s| - 1]) then 1 else 0
  }

  lemma {:induction false} CountConcat<T>(p: T -> bool, a: seq<T>, b: seq<T>)
    ensures Count(p, a + b) == Count(p, a) + Count(p, b)
  {
    if b == [] {
      assert a + b == a;
    } else {
      CountConcat(p, a, b[..|b| - 1]);
      assert (a + b)[..|a + b| - 1] == a + b[..|b| - 1];
    }
  }

  lemma SplitAll<T>(p: T -> bool, front: seq<T>, last: T)
    ensures (forall x :: x in front + [last] ==> p(x)) <==> (forall x :: x in front ==> p(x)) && p(last)
  {
    assert last in front + [last] && forall x :: x in front ==> x in front + [last];
  }

  lemma {:induction false} CountBounded<T>(p: T -> bool, s: seq<T>)
    ensures Count(p, s) <= |s|
    ensures Count(p, s) == |s| <==> forall x :: x in s ==> p(x)
    ensures Count(p, s) == 0 <==> forall x :: x in s ==> !p(x)
  {
    if s != [] {
      var front, last := s[..|s| - 1], s[|s| - 1];
      CountBounded(p, front);
      assert s == front + [last];
      SplitAll(p, front, last);
      SplitAll((x: T) => !p(x), front, last);
    }
  }

  lemma {:induction false} CountImplied<T>(p: T -> bool, q: T -> bool, s: seq<T>)
    requires forall x :: x in s && p(x) ==> q(x)
    ensures Count(p, s) <= Count(q, s)
  {
    if s != [] {
      CountImplied(p, q, s[..|s| - 1]);
    }
  }

  lemma RemoveAt<T>(s: seq<T>, j: nat, x: T)
    requires j < |s| && s[j] == x
    ensures multiset(s[..j] + s[j + 1..]) == multiset(s) - multiset{x}
  {
    assert s == s[..j] + [x] + s[j + 1..];
  }

  /** Counting does not depend on the order. */
  lemma {:induction false} CountReordered<T>(p: T -> bool, a: seq<T>, b: seq<T>)
    requires multiset(a) == multiset(b)
    ensures Count(p, a) == Count(p, b) && |a| == |b|
  {
    assert |multiset(a)| == |a| && |multiset(b)| == |b|;
    if a != [] {
      var n, x := |a| - 1, a[|a| - 1];
      assert x in multiset(b);
      var j :| 0 <= j < |b| && b[j] == x;
      RemoveAt(a, n, x);
      RemoveAt(b, j, x);
      assert a[..n] + a[n + 1..] == a[..n];
      CountReordered(p, a[..n], b[..j] + b[j + 1..]);
      CountConcat(p, b[..j], b[j + 1..]);
      CountConcat(p, b[..j], [x]);
      CountConcat(p, b[..j] + [x], b[j + 1..]);
      assert b == b[..j] + [x] + b[j + 1..];
    }
  }

  lemma {:induction false} CountAtLeast<T>(p: T -> bool, s: seq<T>, k: nat)
    requires k <= |s| && forall j :: 0 <= j < k ==> p(s[j])
    ensures Count(p, s) >= k
  {
    CountBounded(p, s[..k]);
    CountConcat(p, s[..k], s[k..]);
    assert s == s[..k] + s[k..];
  }

  lemma {:induction false} CountAtMost<T>(p: T -> bool, s: seq<T>, k: nat)
    requires k <= |s| && forall j :: k <= j < |s| ==> !p(s[j])
    ensures Count(p, s) <= k
  {
    CountBounded(p, s[k..]);
    CountBounded(p, s[..k]);
    CountConcat(p, s[..k], s[k..]);
    assert s == s[..k] + s[k..];
  }

  /** Two sorted arrangements of the same elements agree, place by place, up to ties. */
  lemma SameSortedKeys<T(!new)>(le: (T, T) -> bool, a: seq<T>, b: seq<T>, i: nat)
    requires KeyOrder(le) && SortedBy(le, a) && SortedBy(le, b) && multiset(a) == multiset(b) && i < |a|
    ensures |b| == |a| && le(a[i], b[i])
  {
    assert |multiset(a)| == |a| && |multiset(b)| == |b|;
    if !le(a[i], b[i]) {
      var pivot := b[i];
      var below := (x: T) => le(x, pivot);
      forall j | 0 <= j < i + 1 ensures below(b[j]) { assert Comparable(le, b[j], b[j]); }
      forall j | i <= j < |a| ensures !below(a[j]) {
        assert Chained(le, a[i], a[j], pivot) && Comparable(le, a[j], a[j]);
      }
      CountAtLeast(below, b, i + 1);
      CountAtMost(below, a, i);
      CountReordered(below, a, b);
    }
  }

  /** ... and are equal when ties are only between equal elements. */
  lemma SortedUniquely<T(!new)>(le: (T, T) -> bool, a: seq<T>, b: seq<T>)
    requires KeyOrder(le) && SortedBy(le, a) && SortedBy(le, b) && multiset(a) == multiset(b)
    requires forall x, y :: x in a && y in a && le(x, y) && le(y, x) ==> x == y
    ensures a == b
  {
    assert |multiset(a)| == |a| && |multiset(b)| == |b|;
    forall i | 0 <= i < |a| ensures a[i] == b[i] {
      SameSortedKeys(le, a, b, i);
      SameSortedKeys(le, b, a, i);
      assert b[i] in multiset(a);
    }
  }

  // ----- stability -----

  function Keep<T>(p: T -> bool, s: seq<T>): seq<T> {
    if s == [] then [] else Keep(p, s[..|s| - 1]) + if p(s[|s| - 1]) then [s[|s| - 1]] else []
  }

  lemma {:induction false} KeepConcat<T>(p: T -> bool, a: seq<T>, b: seq<T>)
    ensures Keep(p, a + b) == Keep(p, a) + Keep(p, b)
  {
    if b == [] {
      assert a + b == a;
    } else {
      KeepConcat(p, a, b[..|b| - 1]);
      assert (a + b)[..|a + b| - 1] == a + b[..|b| - 1];
    }
  }

  /** `p` picks values with one and the same sort key. */
  ghost predicate OneKey<T(!new)>(le: (T, T) -> bool, p: T -> bool) { forall x, y :: p(x) && p(y) ==> le(x, y) }

  lemma {:induction false} InsertStable<T(!new)>(le: (T, T) -> bool, p: T -> bool, x: T, s: seq<T>)
    requires OneKey(le, p)
    ensures Keep(p, Insert(le, x, s)) == Keep(p, s + [x])
  {
    if s != [] && !le(s[|s| - 1], x) {
      var front, last := s[..|s| - 1], s[|s| - 1];
      InsertStable(le, p, x, front);
      assert (Insert(le, x, front) + [last])[..|front| + 1] == Insert(le, x, front);
      assert (front + [x])[..|front|] == front && (s + [x])[..|s|] == s;
    }
  }

  /** Values that share a key keep their order. */
  lemma {:induction false} SortStable<T(!new)>(le: (T, T) -> bool, p: T -> bool, s: seq<T>)
    requires OneKey(le, p)
    ensures Keep(p, SortBy(le, s)) == Keep(p, s)
  {
    if s != [] {
      var sorted, x := SortBy(le, s[..|s| - 1]), s[|s| - 1];
      SortStable(le, p, s[..|s| - 1]);
      InsertStable(le, p, x, sorted);
      assert (sorted + [x])[..|sorted|] == sorted;
    }
  }

  /** By `le`, then by `tie`. */
  predicate Lex<T>(le: (T, T) -> bool, tie: (T, T) -> bool, x: T, y: T) { le(x, y) && (le(y, x) ==> tie(x, y)) }

  predicate SortedLex<T>(le: (T, T) -> bool, tie: (T, T) -> bool, s: seq<T>) {
    forall i, j :: 0 <= i < j < |s| ==> Lex(le, tie, s[i], s[j])
  }

  lemma AppendSortedLex<T>(le: (T, T) -> bool, tie: (T, T) -> bool, s: seq<T>, x: T)
    requires SortedLex(le, tie, s) && forall i :: 0 <= i < |s| ==> Lex(le, tie, s[i], x)
    ensures SortedLex(le, tie, s + [x])
  {
  }

  lemma {:induction false} InsertSortsLex<T(!new)>(le: (T, T) -> bool, tie: (T, T) -> bool, x: T, s: seq<T>)
    requires KeyOrder(le) && SortedLex(le, tie, s) && forall i :: 0 <= i < |s| ==> tie(s[i], x)
    ensures SortedLex(le, tie, Insert(le, x, s)) && multiset(Insert(le, x, s)) == multiset(s) + multiset{x}
  {
    if s != [] {
      var front, last := s[..|s| - 1], s[|s| - 1];
      assert s == front + [last];
      if le(last, x) {
        forall i | 0 <= i < |s| ensures Lex(le, tie, s[i], x) {
          assert i < |s| - 1 ==> Lex(le, tie, s[i], last);
          assert Chained(le, s[i], last, x);
        }
        AppendSortedLex(le, tie, s, x);
      } else {
        InsertSortsLex(le, tie, x, front);
        var r := Insert(le, x, front);
        forall i | 0 <= i < |r| ensures Lex(le, tie, r[i], last) {
          assert r[i] in multiset(r) && Comparable(le, last, x);
          if r[i] != x {
            var j :| 0 <= j < |front| && front[j] == r[i];
            assert Lex(le, tie, s[j], last);
          }
        }
        AppendSortedLex(le, tie, r, last);
      }
    }
  }

  lemma BelowLast<T>(tie: (T, T) -> bool, front: seq<T>, x: T, r: seq<T>, i: nat)
    requires SortedBy(tie, front + [x]) && multiset(r) == multiset(front) && i < |r|
    ensures tie(r[i], x)
  {
    assert r[i] in multiset(front);
    var j :| 0 <= j < |front| && front[j] == r[i];
    assert tie((front + [x])[j], (front + [x])[|front|]);
  }

  lemma SortedFront<T>(tie: (T, T) -> bool, front: seq<T>, x: T)
    requires SortedBy(tie, front + [x])
    ensures SortedBy(tie, front)
  {
    forall i, j | 0 <= i < j < |front| ensures tie(front[i], front[j]) {
      assert tie((front + [x])[i], (front + [x])[j]);
    }
  }

  /** Sorting by a second key what is already sorted by a first leaves it sorted by both. */
  lemma {:induction false} SortByTwice<T(!new)>(le: (T, T) -> bool, tie: (T, T) -> bool, s: seq<T>)
    requires KeyOrder(le) && SortedBy(tie, s)
    ensures SortedLex(le, tie, SortBy(le, s)) && multiset(SortBy(le, s)) == multiset(s)
  {
    if s != [] {
      var front, x := s[..|s| - 1], s[|s| - 1];
      assert s == front + [x];
      SortedFront(tie, front, x);
      SortByTwice(le, tie, front);
      var r := SortBy(le, front);
      forall i | 0 <= i < |r| ensures tie(r[i], x) { BelowLast(tie, front, x, r, i); }
      InsertSortsLex(le, tie, x, r);
    }
  }

  lemma {:induction false} MapReordered<T, U>(f: T -> U, a: seq<T>, b: seq<T>)
    requires multiset(a) == multiset(b)
    ensures multiset(Mapped(f, a)) == multiset(Mapped(f, b))
  {
    assert |multiset(a)| == |a| && |multiset(b)| == |b|;
    if a != [] {
      var n, x := |a| - 1, a[|a| - 1];
      assert x in multiset(b);
      var j :| 0 <= j < |b| && b[j] == x;
      RemoveAt(a, n, x);
      RemoveAt(b, j, x);
      assert a[..n] + a[n + 1..] == a[..n];
      MapReordered(f, a[..n], b[..j] + b[j + 1..]);
      assert Mapped(f, a) == Mapped(f, a[..n]) + [f(x)];
      assert Mapped(f, b) == Mapped(f, b[..j]) + [f(x)] + Mapped(f, b[j + 1..]);
      assert Mapped(f, b[..j] + b[j + 1..]) == Mapped(f, b[..j]) + Mapped(f, b[j + 1..]);
    }
  }

  function Mapped<T, U>(f: T -> U, s: seq<T>): seq<U> { seq(|s|, i requires 0 <= i < |s| => f(s[i])) }
}
