/** Text that the corpus code relies on: decimal numerals, code-point order, sorted tuples of ids, joined lines. */
module Strings {

  // ----- decimal numerals -----

  predicate IsDigit(c: char) { '0' <= c <= '9' }

  predicate AllDigits(s: string) { forall i :: 0 <= i < |s| ==> IsDigit(s[i]) }

  function DigitChar(d: nat): char
    requires d < 10
  {
    '0' + d as char
  }

  function DigitValue(c: char): (d: nat)
    requires IsDigit(c)
    ensures d < 10
  {
    (c - '0') as nat
  }

  function Decimal(n: nat): string {
    if n < 10 then [DigitChar(n)] else Decimal(n / 10) + [DigitChar(n % 10)]
  }

  function Value(s: string): nat
    requires AllDigits(s)
  {
    if s == "" then 0 else 10 * Value(s[..|s| - 1]) + DigitValue(s[|s| - 1])
  }

  lemma {:induction false} DecimalShape(n: nat)
    ensures |Decimal(n)| >= 1 && AllDigits(Decimal(n))
    ensures n > 0 ==> Decimal(n)[0] != '0'
  {
    if n >= 10 {
      DecimalShape(n / 10);
    }
  }

  lemma {:induction false} DecimalLength(n: nat, k: nat, low: nat)
    requires k >= 1 && low == TenTo(k - 1) && (k == 1 || low <= n) && n < 10 * low
    ensures |Decimal(n)| == k
  {
    if k > 1 {
      assert low == 10 * TenTo(k - 2);
      DecimalLength(n / 10, k - 1, TenTo(k - 2));
    }
  }

  function TenTo(k: nat): nat { if k == 0 then 1 else 10 * TenTo(k - 1) }

  /** A numeral reads back as the number it was printed from. */
  lemma {:induction false} ValueOfDecimal(n: nat)
    ensures AllDigits(Decimal(n)) && Value(Decimal(n)) == n
  {
    DecimalShape(n);
    if n >= 10 {
      ValueOfDecimal(n / 10);
      var s := Decimal(n);
      assert s[..|s| - 1] == Decimal(n / 10);
    } else {
      var s := Decimal(n);
      assert s[..|s| - 1] == "";
    }
  }

  /** A numeral without a leading zero is the one its value prints as. */
  lemma {:induction false} DecimalOfValue(s: string)
    requires s != "" && AllDigits(s) && (|s| > 1 ==> s[0] != '0')
    ensures Decimal(Value(s)) == s
  {
    var front, last := s[..|s| - 1], s[|s| - 1];
    assert s == front + [last];
    if front == "" {
      assert Value(front) == 0;
    } else {
      DecimalOfValue(front);
      ValuePositive(front);
      DecimalGrows(Value(front), DigitValue(last));
    }
  }

  lemma DecimalGrows(n: nat, digit: nat)
    requires n > 0 && digit < 10
    ensures Decimal(10 * n + digit) == Decimal(n) + Decimal(digit)
  {
  }

  lemma {:induction false} ValuePositive(s: string)
    requires s != "" && AllDigits(s) && s[0] != '0'
    ensures Value(s) > 0
  {
    if |s| > 1 {
      ValuePositive(s[..|s| - 1]);
    } else {
      assert s[..0] == "";
    }
  }

  /** A leading zero does not change the number. */
  lemma {:induction false} PaddedValue(digits: string)
    requires AllDigits(digits)
    ensures AllDigits("0" + digits) && Value("0" + digits) == Value(digits)
  {
    var padded := "0" + digits;
    if digits == "" {
      assert padded[..0] == "";
    } else {
      PaddedValue(digits[..|digits| - 1]);
      assert padded[..|padded| - 1] == "0" + digits[..|digits| - 1];
    }
  }

  // ----- code-point order of strings -----

  predicate Less(a: string, b: string) {
    if b == "" then false
    else if a == "" then true
    else a[0] < b[0] || (a[0] == b[0] && Less(a[1..], b[1..]))
  }

  lemma {:induction false} LessIrreflexive(a: string)
    ensures !Less(a, a)
  {
    if a != "" {
      LessIrreflexive(a[1..]);
    }
  }

  lemma {:induction false} LessTransitive(a: string, b: string, c: string)
    requires Less(a, b) && Less(b, c)
    ensures Less(a, c)
  {
    if a != "" && a[0] == b[0] == c[0] {
      LessTransitive(a[1..], b[1..], c[1..]);
    }
  }

  lemma {:induction false} LessTotal(a: string, b: string)
    ensures a == b || Less(a, b) || Less(b, a)
  {
    if a != "" && b != "" {
      LessTotal(a[1..], b[1..]);
      if a[0] == b[0] && a[1..] == b[1..] {
        assert a == [a[0]] + a[1..] && b == [b[0]] + b[1..];
      }
    }
  }

  // ----- sorted tuples of distinct ids -----

  predicate StrictlySorted(s: seq<string>) {
    forall i, j :: 0 <= i < j < |s| ==> Less(s[i], s[j])
  }

  function Elements<T>(s: seq<T>): set<T> { set x | x in s }

  predicate IsLeast(x: string, ids: set<string>) {
    x in ids && forall y :: y in ids ==> x == y || Less(x, y)
  }

  lemma {:induction false} LeastExists(ids: set<string>)
    requires ids != {}
    ensures exists x :: IsLeast(x, ids)
  {
    var y :| y in ids;
    if ids == {y} {
      assert IsLeast(y, ids);
    } else {
      LeastExists(ids - {y});
      var x :| IsLeast(x, ids - {y});
      LessTotal(x, y);
      if Less(y, x) {
        forall z | z in ids && z != y ensures Less(y, z) {
          if z != x { LessTransitive(y, x, z); }
        }
        assert IsLeast(y, ids);
      } else {
        assert IsLeast(x, ids);
      }
    }
  }

  lemma LeastUnique(ids: set<string>)
    ensures forall x, y :: IsLeast(x, ids) && IsLeast(y, ids) ==> x == y
  {
    forall x, y | IsLeast(x, ids) && IsLeast(y, ids) ensures x == y {
      if x != y {
        LessTransitive(x, y, x);
        LessIrreflexive(x);
      }
    }
  }

  /** `tuple(sorted(ids))` of a set of ids. */
  function Sorted(ids: set<string>): (r: seq<string>)
    ensures StrictlySorted(r) && Elements(r) == ids
  {
    if ids == {} then []
    else
      LeastExists(ids);
      LeastUnique(ids);
      var x :| x in ids && IsLeast(x, ids);
      var rest := Sorted(ids - {x});
      assert forall y :: y in rest ==> y in Elements(rest);
      assert Elements([x] + rest) == {x} + Elements(rest);
      [x] + rest
  }

  lemma NoElements(s: seq<string>)
    ensures Elements(s) == {} ==> s == []
  {
    if s != [] { assert s[0] in Elements(s); }
  }

  /** A strictly sorted tuple is determined by its set of elements. */
  lemma {:induction false} SortedUnique(a: seq<string>, b: seq<string>)
    requires StrictlySorted(a) && StrictlySorted(b) && Elements(a) == Elements(b)
    ensures a == b
  {
    if a == [] {
      NoElements(b);
    } else {
      assert a[0] in Elements(b) && b != [] && b[0] in Elements(a) by {
        assert a[0] in Elements(a);
        assert b != [];
        assert b[0] in Elements(b);
      }
      HeadsAgree(a, b);
      TailElements(a);
      TailElements(b);
      SortedUnique(a[1..], b[1..]);
      assert a == [a[0]] + a[1..] && b == [b[0]] + b[1..];
    }
  }

  lemma HeadsAgree(a: seq<string>, b: seq<string>)
    requires StrictlySorted(a) && StrictlySorted(b) && a != [] && b != []
    requires a[0] in b && b[0] in a
    ensures a[0] == b[0]
  {
    if a[0] != b[0] {
      var i :| 0 <= i < |b| && b[i] == a[0];
      var j :| 0 <= j < |a| && a[j] == b[0];
      assert Less(b[0], a[0]) && Less(a[0], b[0]);
      LessTransitive(a[0], b[0], a[0]);
      LessIrreflexive(a[0]);
    }
  }

  lemma TailElements(a: seq<string>)
    requires StrictlySorted(a) && a != []
    ensures Elements(a[1..]) == Elements(a) - {a[0]}
  {
    assert a == [a[0]] + a[1..];
    forall j | 1 <= j < |a| ensures a[j] != a[0] {
      LessIrreflexive(a[0]);
      assert Less(a[0], a[j]);
    }
  }

  // ----- lines -----

  /** `"\n".join(lines)` */
  function JoinLines(lines: seq<string>): string {
    if lines == [] then ""
    else if |lines| == 1 then lines[0]
    else JoinLines(lines[..|lines| - 1]) + "\n" + lines[|lines| - 1]
  }
}
