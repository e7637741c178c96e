/** Lines and reviewed word wraps (src/ingestion/normalize.py). */
module Normalizer {
  import opened NormalForms
  import opened Sorting
  import opened Strings
  import opened Wrappers

  /** Reviewed evidence that the word cut at the end of `line` continues on the next one. */
  datatype Wrap = Wrap(hash: string, line: nat, left: string, right: string)

  /** Evidence for one repeated header or footer line. */
  datatype LineEvidence = LineEvidence(text: string, pages: nat, occurrences: nat, y0: real, y1: real,
                                       line: Option<nat>, hash: string)

  predicate Fragment(s: string) { 3 <= |s| <= 64 && forall c :: c in s ==> Letter(c) }

  predicate WrapValid(w: Wrap) { Fragment(w.left) && Fragment(w.right) }

  // ----- lines -----

  /** `s.split("\n")` */
  function Lines(s: string): (lines: seq<string>)
    ensures lines != []
  {
    if s == "" then [""]
    else
      var lines, c := Lines(s[..|s| - 1]), s[|s| - 1];
      if c == '\n' then lines + [""] else lines[..|lines| - 1] + [lines[|lines| - 1] + [c]]
  }

  predicate OneLine(l: string) { '\n' !in l }

  lemma {:induction false} LinesJoin(s: string)
    ensures JoinLines(Lines(s)) == s && forall l :: l in Lines(s) ==> OneLine(l)
  {
    if s != "" {
      var front, c := s[..|s| - 1], s[|s| - 1];
      LinesJoin(front);
      if c == '\n' {
        NewLine(front, Lines(front));
      } else {
        LongerLine(front, Lines(front), c);
      }
      assert s == front + [c];
    }
  }

  lemma {:induction false} NewLine(s: string, lines: seq<string>)
    requires lines != [] && JoinLines(lines) == s && forall l :: l in lines ==> OneLine(l)
    ensures JoinLines(lines + [""]) == s + "\n" && forall l :: l in lines + [""] ==> OneLine(l)
  {
    assert (lines + [""])[..|lines|] == lines;
  }

  lemma LongerLine(s: string, lines: seq<string>, c: char)
    requires lines != [] && JoinLines(lines) == s && c != '\n' && forall l :: l in lines ==> OneLine(l)
    ensures var longer := lines[..|lines| - 1] + [lines[|lines| - 1] + [c]];
            JoinLines(longer) == s + [c] && forall l :: l in longer ==> OneLine(l)
  {
    var front, last := lines[..|lines| - 1], lines[|lines| - 1];
    assert lines == front + [last] && last in lines;
    LongerLast(front, last, c);
  }

  lemma {:induction false} LongerLast(front: seq<string>, last: string, c: char)
    ensures JoinLines(front + [last + [c]]) == JoinLines(front + [last]) + [c]
  {
    assert (front + [last + [c]])[..|front|] == front && (front + [last])[..|front|] == front;
    if front != [] { assert JoinLines(front) + "\n" + (last + [c]) == JoinLines(front) + "\n" + last + [c]; }
  }

  /** `"\n".join(clean(line) for line in s.split("\n"))` */
  function CleanLines(s: string): string { JoinLines(Mapped(CleanLine, Lines(s))) }

  lemma {:induction false} JoinChars(lines: seq<string>, c: char)
    requires c in JoinLines(lines)
    ensures c == '\n' || exists l :: l in lines && c in l
  {
    if |lines| == 1 {
      assert lines[0] in lines;
    } else if |lines| > 1 {
      var front, last := lines[..|lines| - 1], lines[|lines| - 1];
      assert last in lines;
      if c in JoinLines(front) { JoinChars(front, c); }
    }
  }

  lemma CleanLinesTidy(s: string)
    requires Plain(s)
    ensures Tidy(CleanLines(s)) && Plain(CleanLines(s)) && (Tidy(s) ==> CleanLines(s) == s)
  {
    LinesJoin(s);
    var lines := Lines(s);
    var cleaned := Mapped(CleanLine, lines);
    forall l | l in cleaned ensures Tidy(l) && Plain(l) {
      var i :| 0 <= i < |cleaned| && cleaned[i] == l;
      assert lines[i] in lines;
      CleanLineTidy(lines[i]);
      LinePlain(s, lines[i]);
    }
    JoinTidy(cleaned);
    forall c | c in CleanLines(s) ensures !Separator(c) && c != '\r' { JoinChars(cleaned, c); }
    if Tidy(s) {
      JoinTidy(lines);
      forall i | 0 <= i < |lines| ensures CleanLine(lines[i]) == lines[i] {
        assert lines[i] in lines;
        TidyLineClean(lines[i]);
      }
      assert cleaned == lines;
    }
  }

  lemma {:induction false} LinePlain(s: string, l: string)
    requires Plain(s) && l in Lines(s)
    ensures Plain(l)
  {
    LinesJoin(s);
    forall c | c in l ensures c in s { LineChars(Lines(s), l, c); }
  }

  lemma {:induction false} LineChars(lines: seq<string>, l: string, c: char)
    requires l in lines && c in l
    ensures c in JoinLines(lines)
  {
    if |lines| > 1 && l != lines[|lines| - 1] { LineChars(lines[..|lines| - 1], l, c); }
  }

  // ----- reviewed wraps -----

  predicate StartsWith(s: string, prefix: string) { |prefix| <= |s| && s[..|prefix|] == prefix }

  predicate EndsWith(s: string, suffix: string) { |suffix| <= |s| && s[|s| - |suffix|..] == suffix }

  predicate LaterFirst(a: Wrap, b: Wrap) { a.line >= b.line }

  predicate Applies(lines: seq<string>, w: Wrap, hash: string) {
    && w.hash == hash && w.line + 1 < |lines|
    && EndsWith(lines[w.line], w.left + "-") && StartsWith(lines[w.line + 1], w.right)
  }

  function Apply(lines: seq<string>, w: Wrap, hash: string): seq<string> {
    if !Applies(lines, w, hash) then lines
    else
      var i := w.line;
      lines[..i] + [lines[i][..|lines[i]| - 1] + lines[i + 1]] + lines[i + 2..]
  }

  function ApplyAll(lines: seq<string>, wraps: seq<Wrap>, hash: string): seq<string> {
    if wraps == [] then lines else Apply(ApplyAll(lines, wraps[..|wraps| - 1], hash), wraps[|wraps| - 1], hash)
  }

  function Wrapped(text: string, wraps: seq<Wrap>, hash: string): string {
    JoinLines(ApplyAll(Lines(text), SortBy(LaterFirst, wraps), hash))
  }

  /** The body of the loop for one wrap. */
  method ApplyOne(lines: seq<string>, w: Wrap, hash: string) returns (r: seq<string>)
    ensures r == Apply(lines, w, hash)
  {
    r := lines;
    if w.hash == hash && w.line + 1 < |lines| {
      var left, right := lines[w.line], lines[w.line + 1];
      if EndsWith(left, w.left + "-") && StartsWith(right, w.right) {
        r := lines[w.line := left[..|left| - 1] + right];
        r := r[..w.line + 1] + r[w.line + 2..];
      }
    }
  }

  /** `_apply_lexical_wraps`. */
  method ApplyLexicalWraps(text: string, wraps: seq<Wrap>, hash: string) returns (r: string)
    ensures r == Wrapped(text, wraps, hash)
  {
    var lines, ordered := Lines(text), SortBy(LaterFirst, wraps);
    for k := 0 to |ordered|
      invariant lines == ApplyAll(Lines(text), ordered[..k], hash)
    {
      assert ordered[..k + 1][..k] == ordered[..k];
      lines := ApplyOne(lines, ordered[k], hash);
    }
    assert ordered[..|ordered|] == ordered;
    r := JoinLines(lines);
  }

  // ----- a wrap only deletes a hyphen and a line end between two letters -----

  predicate HardWrap(s: string) { |s| >= 4 && Letter(s[0]) && s[1] == '-' && s[2] == '\n' && Letter(s[3]) }

  /** `b` is `a` without some of its hyphens at line ends between letters, each with its line end. */
  predicate Joined(a: string, b: string) {
    if a == "" then b == ""
    else b != "" && a[0] == b[0] && (Joined(a[1..], b[1..]) || (HardWrap(a) && Joined(a[3..], b[1..])))
  }

  lemma {:induction false} JoinedReflexive(a: string)
    ensures Joined(a, a)
  {
    if a != "" { JoinedReflexive(a[1..]); }
  }

  lemma {:induction false} JoinedPrefix(p: string, a: string, b: string)
    requires Joined(a, b)
    ensures Joined(p + a, p + b)
  {
    if p == "" {
      assert p + a == a && p + b == b;
    } else {
      JoinedPrefix(p[1..], a, b);
      assert (p + a)[1..] == p[1..] + a && (p + b)[1..] == p[1..] + b;
    }
  }

  lemma {:induction false} JoinedTransitive(a: string, b: string, c: string)
    requires Joined(a, b) && Joined(b, c)
    ensures Joined(a, c)
    decreases |a|
  {
    if a != "" {
      if Joined(a[1..], b[1..]) && Joined(b[1..], c[1..]) {
        JoinedTransitive(a[1..], b[1..], c[1..]);
      } else if Joined(b[1..], c[1..]) {
        JoinedTransitive(a[3..], b[1..], c[1..]);
      } else {
        SecondWrap(a, b);
        JoinedTransitive(a[3..], b[3..], c[1..]);
      }
    }
  }

  /** A wrap that is still there after the first pass was there before. */
  lemma {:induction false} SecondWrap(a: string, b: string)
    requires Joined(a, b) && HardWrap(b)
    ensures HardWrap(a) && Joined(a[3..], b[3..])
  {
    assert b[1..][0] == '-' && b[2..][0] == '\n' && b[3..][0] == b[3];
    assert Joined(a[1..], b[1..]);
    assert a[1..][1..] == a[2..] && b[1..][1..] == b[2..] && Joined(a[2..], b[2..]);
    assert a[2..][1..] == a[3..] && b[2..][1..] == b[3..] && Joined(a[3..], b[3..]);
  }

  function Before(lines: seq<string>): string { if lines == [] then "" else JoinLines(lines) + "\n" }

  function After(lines: seq<string>): string { if lines == [] then "" else "\n" + JoinLines(lines) }

  lemma {:induction false} JoinSnoc(front: seq<string>, last: string)
    requires front != []
    ensures JoinLines(front + [last]) == JoinLines(front) + "\n" + last
  {
    assert (front + [last])[..|front|] == front;
  }

  lemma AfterSnoc(front: seq<string>, last: string)
    ensures After(front + [last]) == After(front) + ("\n" + last)
  {
    if front != [] {
      JoinSnoc(front, last);
    } else {
      assert JoinLines([last]) == last && [] + [last] == [last];
    }
  }

  lemma {:induction false} JoinMore(p: string, mid: seq<string>, front: seq<string>, last: string)
    requires mid != [] && JoinLines(mid) == p + After(front)
    ensures JoinLines(mid + [last]) == p + After(front + [last])
  {
    JoinSnoc(mid, last);
    AfterSnoc(front, last);
    AppendAfter(p, After(front), last);
  }

  lemma AppendAfter(p: string, after: string, last: string)
    ensures (p + after) + "\n" + last == p + (after + ("\n" + last))
  {
  }

  lemma SameConcat(mid: seq<string>, front: seq<string>, last: string)
    ensures mid + (front + [last]) == (mid + front) + [last]
  {
  }

  lemma {:induction false} JoinFrom(p: string, mid: seq<string>, b: seq<string>)
    requires mid != [] && JoinLines(mid) == p
    ensures JoinLines(mid + b) == p + After(b)
  {
    if b == [] {
      assert mid + b == mid;
    } else {
      var front, last := b[..|b| - 1], b[|b| - 1];
      assert b == front + [last];
      JoinFrom(p, mid, front);
      JoinMore(p, mid + front, front, last);
      SameConcat(mid, front, last);
    }
  }

  lemma {:induction false} JoinMiddle(a: seq<string>, l: string, b: seq<string>)
    ensures JoinLines(a + [l] + b) == Before(a) + l + After(b)
  {
    if a != [] { JoinSnoc(a, l); }
    JoinFrom(Before(a) + l, a + [l], b);
  }

  lemma AfterCons(l: string, b: seq<string>)
    ensures After([l] + b) == "\n" + l + After(b)
  {
    JoinFrom(l, [l], b);
  }

  lemma {:induction false} OneWrapJoined(p: string, c: char, d: char, q: string)
    requires Letter(c) && Letter(d)
    ensures Joined(p + ([c] + "-\n" + [d] + q), p + ([c] + [d] + q))
  {
    var a, b := [c] + "-\n" + [d] + q, [c] + [d] + q;
    JoinedReflexive([d] + q);
    assert a[3..] == [d] + q && b[1..] == [d] + q && HardWrap(a);
    JoinedPrefix(p, a, b);
  }

  lemma {:induction false} Regroup(a: string, x: string, c: char, d: char, y: string, b: string)
    requires Letter(c) && Letter(d)
    ensures Joined(a + (x + [c] + "-") + ("\n" + ([d] + y) + b), a + (x + [c] + ([d] + y)) + b)
  {
    OneWrapJoined(a + x, c, d, y + b);
    assert a + (x + [c] + "-") + ("\n" + ([d] + y) + b) == (a + x) + ([c] + "-\n" + [d] + (y + b));
    assert a + (x + [c] + ([d] + y)) + b == (a + x) + ([c] + [d] + (y + b));
  }

  lemma {:induction false} JoinTwo(a: seq<string>, x: string, y: string, b: seq<string>)
    ensures JoinLines(a + [x] + ([y] + b)) == Before(a) + x + ("\n" + y + After(b))
  {
    JoinMiddle(a, x, [y] + b);
    AfterCons(y, b);
  }

  lemma {:induction false} ApplyJoined(lines: seq<string>, w: Wrap, hash: string)
    requires WrapValid(w)
    ensures Joined(JoinLines(lines), JoinLines(Apply(lines, w, hash)))
  {
    if Applies(lines, w, hash) {
      var i := w.line;
      var x, y := lines[i], lines[i + 1];
      assert lines == lines[..i] + [x] + ([y] + lines[i + 2..]);
      JoinTwo(lines[..i], x, y, lines[i + 2..]);
      JoinMiddle(lines[..i], x[..|x| - 1] + y, lines[i + 2..]);
      WrapShape(x, y, w);
      var m := |x| - 2;
      assert x[..|x| - 1] == x[..m] + [x[m]];
      Regroup(Before(lines[..i]), x[..m], x[m], y[0], y[1..], After(lines[i + 2..]));
    } else {
      JoinedReflexive(JoinLines(lines));
    }
  }

  lemma WrapShape(x: string, y: string, w: Wrap)
    requires WrapValid(w) && EndsWith(x, w.left + "-") && StartsWith(y, w.right)
    ensures |x| >= 4 && x == x[..|x| - 2] + [x[|x| - 2]] + "-" && Letter(x[|x| - 2]) && y == [y[0]] + y[1..]
            && Letter(y[0])
  {
    var k := |w.left|;
    var tail := x[|x| - k - 1..];
    assert tail[k] == '-' && tail[k - 1] == w.left[k - 1] && w.left[k - 1] in w.left && w.right[0] in w.right;
    assert y[..|w.right|][0] == y[0];
  }

  lemma {:induction false} AllJoined(lines: seq<string>, wraps: seq<Wrap>, hash: string)
    requires forall w :: w in wraps ==> WrapValid(w)
    ensures Joined(JoinLines(lines), JoinLines(ApplyAll(lines, wraps, hash)))
  {
    if wraps == [] {
      JoinedReflexive(JoinLines(lines));
    } else {
      var front, last := wraps[..|wraps| - 1], wraps[|wraps| - 1];
      AllJoined(lines, front, hash);
      ApplyJoined(ApplyAll(lines, front, hash), last, hash);
      JoinedTransitive(JoinLines(lines), JoinLines(ApplyAll(lines, front, hash)),
                       JoinLines(ApplyAll(lines, wraps, hash)));
    }
  }

  lemma WrapOrder()
    ensures KeyOrder(LaterFirst)
  {
  }

  /** Whatever the evidence, the wraps delete nothing but hyphens at line ends between letters. */
  lemma {:induction false} WrapsOnlyJoin(text: string, wraps: seq<Wrap>, hash: string)
    requires forall w :: w in wraps ==> WrapValid(w)
    ensures Joined(text, Wrapped(text, wraps, hash))
  {
    WrapOrder();
    SortBySorts(LaterFirst, wraps);
    var ordered := SortBy(LaterFirst, wraps);
    forall w | w in ordered ensures WrapValid(w) { assert w in multiset(wraps); }
    LinesJoin(text);
    AllJoined(Lines(text), ordered, hash);
  }
}
