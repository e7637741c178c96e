/** Composed text stays composed (src/ingestion/normalize.py). */
module ComposedText {
  // What the normalizer relies on about canonical composition (NFC, Unicode Standard Annex #15), and
  // that each of its passes keeps a composed text composed.

  import opened NormalForms
  import opened Normalizer
  import opened Sorting
  import opened Strings

  predicate Composed(nfc: string -> string, s: string) { nfc(s) == s }

  /** Characters that compose with nothing, before or behind them. */
  predicate Inert(c: char) { c == ' ' || c == '\n' || c == DOT }

  predicate Settles(nfc: string -> string, s: string) { Composed(nfc, nfc(s)) }

  predicate Splits(nfc: string -> string, a: string, b: string) {
    Composed(nfc, a + b) ==> Composed(nfc, a) && Composed(nfc, b)
  }

  predicate InertJoins(nfc: string -> string, a: string, c: char, b: string) {
    Inert(c) && Composed(nfc, a) && Composed(nfc, b) ==> Composed(nfc, a + [c] + b)
  }

  predicate LetterJoins(nfc: string -> string, a: string, b: string) {
    b != "" && Letter(b[0]) && Composed(nfc, a) && Composed(nfc, b) ==> Composed(nfc, a + b)
  }

  /** Composition: its results are composed, parts of composed texts are, and so are texts joined by an inert
      character or before an ASCII letter, which composes with nothing before it. */
  ghost predicate Composition(nfc: string -> string) {
    && (forall s :: Settles(nfc, s)) && (forall a, b :: Splits(nfc, a, b))
    && (forall a, c, b :: InertJoins(nfc, a, c, b)) && (forall a, b :: LetterJoins(nfc, a, b))
  }

  lemma JoinInert(nfc: string -> string, a: string, c: char, b: string)
    requires Composition(nfc) && Inert(c) && Composed(nfc, a) && Composed(nfc, b)
    ensures Composed(nfc, a + ([c] + b))
  {
    assert InertJoins(nfc, a, c, b) && a + [c] + b == a + ([c] + b);
  }

  lemma SplitComposed(nfc: string -> string, s: string, a: string, b: string)
    requires Composition(nfc) && s == a + b && Composed(nfc, s)
    ensures Composed(nfc, a) && Composed(nfc, b)
  {
    assert Splits(nfc, a, b);
  }

  /** `p`, `c` and the rest, apart. */
  lemma TakeApart(nfc: string -> string, p: string, s: string)
    requires Composition(nfc) && s != "" && Composed(nfc, p + s)
    ensures Composed(nfc, p) && Composed(nfc, s) && Composed(nfc, s[1..]) && Composed(nfc, p + [s[0]])
            && Composed(nfc, "")
    ensures (p + [s[0]]) + s[1..] == p + s
  {
    assert s == [s[0]] + s[1..] && (p + [s[0]]) + s[1..] == p + s && p == p + "";
    SplitComposed(nfc, p + s, p, s);
    SplitComposed(nfc, s, [s[0]], s[1..]);
    SplitComposed(nfc, p + s, p + [s[0]], s[1..]);
    SplitComposed(nfc, p, p, "");
  }

  lemma Regrouped(p: string, c: char, rest: string)
    ensures (p + [c]) + rest == p + ([c] + rest) && "" + rest == rest
  {
  }

  // ----- pass by pass -----

  lemma {:induction false} TranslateComposed(nfc: string -> string, p: string, s: string)
    requires Composition(nfc) && Composed(nfc, p + s)
    ensures Composed(nfc, p + Translate(s))
    decreases |s|
  {
    if s != "" {
      TakeApart(nfc, p, s);
      if Separator(s[0]) {
        Regrouped("", DOT, s[1..]);
        TranslateComposed(nfc, "", s[1..]);
        Regrouped("", DOT, Translate(s[1..]));
        JoinInert(nfc, p, DOT, Translate(s[1..]));
      } else {
        TranslateComposed(nfc, p + [s[0]], s[1..]);
        Regrouped(p, s[0], Translate(s[1..]));
      }
    }
  }

  lemma {:induction false} UnixComposed(nfc: string -> string, p: string, s: string)
    requires Composition(nfc) && Composed(nfc, p + s)
    ensures Composed(nfc, p + UnixLines(s))
    decreases |s|
  {
    if s != "" {
      TakeApart(nfc, p, s);
      if s[0] == '\r' {
        var rest := if |s| > 1 && s[1] == '\n' then s[2..] else s[1..];
        Regrouped("", '\n', s[1..]);
        if |s| > 1 {
          TakeApart(nfc, "", s[1..]);
          assert s[1..][1..] == s[2..];
        }
        Regrouped("", '\n', rest);
        UnixComposed(nfc, "", rest);
        Regrouped("", '\n', UnixLines(rest));
        JoinInert(nfc, p, '\n', UnixLines(rest));
      } else {
        UnixComposed(nfc, p + [s[0]], s[1..]);
        Regrouped(p, s[0], UnixLines(s[1..]));
      }
    }
  }

  lemma {:induction false} CollapseComposed(nfc: string -> string, p: string, s: string)
    requires Composition(nfc) && Composed(nfc, p) && Composed(nfc, s)
    requires Composed(nfc, p + s) || (s != "" && Blank(s[0]))
    ensures Composed(nfc, p + Collapse(s))
    decreases |s|
  {
    if s != "" {
      Regrouped("", ' ', s);
      TakeApart(nfc, "", s);
      if !Blank(s[0]) {
        TakeApart(nfc, p, s);
        CollapseComposed(nfc, p + [s[0]], s[1..]);
        Regrouped(p, s[0], Collapse(s[1..]));
      } else if |s| > 1 && Blank(s[1]) {
        CollapseComposed(nfc, p, s[1..]);
      } else {
        Regrouped("", ' ', s[1..]);
        CollapseComposed(nfc, "", s[1..]);
        Regrouped("", ' ', Collapse(s[1..]));
        JoinInert(nfc, p, ' ', Collapse(s[1..]));
      }
    }
  }

  lemma {:induction false} TrimLeftComposed(nfc: string -> string, s: string)
    requires Composition(nfc) && Composed(nfc, s)
    ensures Composed(nfc, TrimLeft(s))
  {
    if s != "" && (Blank(s[0]) || s[0] == '\n') {
      SplitComposed(nfc, s, [s[0]], s[1..]);
      TrimLeftComposed(nfc, s[1..]);
    }
  }

  lemma {:induction false} TrimRightComposed(nfc: string -> string, s: string)
    requires Composition(nfc) && Composed(nfc, s)
    ensures Composed(nfc, TrimRight(s))
  {
    if s != "" && (Blank(s[|s| - 1]) || s[|s| - 1] == '\n') {
      SplitComposed(nfc, s, s[..|s| - 1], [s[|s| - 1]]);
      TrimRightComposed(nfc, s[..|s| - 1]);
    }
  }

  lemma CleanLineComposed(nfc: string -> string, line: string)
    requires Composition(nfc) && Composed(nfc, line)
    ensures Composed(nfc, CleanLine(line))
  {
    assert "" + line == line && "" + Collapse(line) == Collapse(line);
    SplitComposed(nfc, line, "", line);
    CollapseComposed(nfc, "", line);
    TrimLeftComposed(nfc, Collapse(line));
    TrimRightComposed(nfc, TrimLeft(Collapse(line)));
  }

  /** A text is composed exactly when its lines are. */
  lemma {:induction false} JoinComposed(nfc: string -> string, lines: seq<string>)
    requires Composition(nfc) && Composed(nfc, "")
    ensures Composed(nfc, JoinLines(lines)) <==> forall l :: l in lines ==> Composed(nfc, l)
  {
    if |lines| > 1 {
      var front, last := lines[..|lines| - 1], lines[|lines| - 1];
      JoinComposed(nfc, front);
      assert lines == front + [last];
      if Composed(nfc, JoinLines(lines)) {
        SplitComposed(nfc, JoinLines(lines), JoinLines(front) + "\n", last);
        SplitComposed(nfc, JoinLines(front) + "\n", JoinLines(front), "\n");
      }
      if Composed(nfc, JoinLines(front)) && Composed(nfc, last) {
        JoinInert(nfc, JoinLines(front), '\n', last);
        assert JoinLines(front) + (['\n'] + last) == JoinLines(lines);
      }
    } else if |lines| == 1 {
      assert lines == [lines[0]];
    }
  }

  lemma EmptyComposed(nfc: string -> string, s: string)
    requires Composition(nfc) && Composed(nfc, s)
    ensures Composed(nfc, "")
  {
    SplitComposed(nfc, s, s, "");
  }

  lemma CleanLinesComposed(nfc: string -> string, s: string)
    requires Composition(nfc) && Composed(nfc, s)
    ensures Composed(nfc, CleanLines(s))
  {
    EmptyComposed(nfc, s);
    LinesJoin(s);
    JoinComposed(nfc, Lines(s));
    var cleaned := Mapped(CleanLine, Lines(s));
    forall l | l in cleaned ensures Composed(nfc, l) {
      var i :| 0 <= i < |cleaned| && cleaned[i] == l;
      assert Lines(s)[i] in Lines(s);
      CleanLineComposed(nfc, Lines(s)[i]);
    }
    JoinComposed(nfc, cleaned);
  }

  /** Removing what stands between two letters keeps a text composed. */
  lemma JoinLetters(nfc: string -> string, p: string, s: string)
    requires Composition(nfc) && |s| >= 4 && Letter(s[3]) && Composed(nfc, p + s)
    ensures Composed(nfc, (p + [s[0]]) + s[3..])
  {
    TakeApart(nfc, p, s);
    assert s == s[..3] + s[3..];
    SplitComposed(nfc, s, s[..3], s[3..]);
    assert LetterJoins(nfc, p + [s[0]], s[3..]);
  }

  lemma {:induction false} SoftenComposed(nfc: string -> string, p: string, s: string)
    requires Composition(nfc) && Composed(nfc, p + s)
    ensures Composed(nfc, p + Soften(s))
    decreases |s|
  {
    if s != "" {
      TakeApart(nfc, p, s);
      if SoftWrap(s) {
        JoinLetters(nfc, p, s);
        SoftenComposed(nfc, p + [s[0]], s[3..]);
        Regrouped(p, s[0], Soften(s[3..]));
      } else {
        SoftenComposed(nfc, p + [s[0]], s[1..]);
        Regrouped(p, s[0], Soften(s[1..]));
      }
    }
  }

  lemma {:induction false} JoinedComposed(nfc: string -> string, p: string, a: string, b: string)
    requires Composition(nfc) && Composed(nfc, p + a) && Joined(a, b)
    ensures Composed(nfc, p + b)
    decreases |a|
  {
    if a != "" {
      TakeApart(nfc, p, a);
      Regrouped(p, b[0], b[1..]);
      assert b == [b[0]] + b[1..];
      if Joined(a[1..], b[1..]) {
        JoinedComposed(nfc, p + [a[0]], a[1..], b[1..]);
      } else {
        JoinLetters(nfc, p, a);
        JoinedComposed(nfc, p + [a[0]], a[3..], b[1..]);
      }
    }
  }

  lemma {:induction false} SqueezeComposed(nfc: string -> string, p: string, s: string)
    requires Composition(nfc) && Composed(nfc, p + s)
    ensures Composed(nfc, p + Squeeze(s))
    decreases |s|
  {
    if s != "" {
      TakeApart(nfc, p, s);
      if ThreeEnds(s) {
        Regrouped("", '\n', s[1..]);
        TakeApart(nfc, "", s[1..]);
        assert s[1..] == ['\n'] + s[1..][1..];
        JoinInert(nfc, p, '\n', s[1..][1..]);
        SqueezeComposed(nfc, p, s[1..]);
      } else {
        SqueezeComposed(nfc, p + [s[0]], s[1..]);
        Regrouped(p, s[0], Squeeze(s[1..]));
      }
    }
  }

  lemma {:induction false} StripLeftComposed(nfc: string -> string, s: string)
    requires Composition(nfc) && Composed(nfc, s)
    ensures Composed(nfc, StripLeft(s))
  {
    if s != "" && s[0] == '\n' {
      SplitComposed(nfc, s, [s[0]], s[1..]);
      StripLeftComposed(nfc, s[1..]);
    }
  }

  lemma {:induction false} StripRightComposed(nfc: string -> string, s: string)
    requires Composition(nfc) && Composed(nfc, s)
    ensures Composed(nfc, StripRight(s))
  {
    if s != "" && s[|s| - 1] == '\n' {
      SplitComposed(nfc, s, s[..|s| - 1], [s[|s| - 1]]);
      StripRightComposed(nfc, s[..|s| - 1]);
    }
  }
}
