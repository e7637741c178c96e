/** The passes of the text normalizer over characters, and the texts they leave alone (src/ingestion/normalize.py). */
module NormalForms {
  import opened Strings

  const SOFT := '\U{00AD}'
  const DOT := '\U{00B7}'

  /** Whitespace other than the line feed. */
  predicate Blank(c: char) {
    || c == ' ' || '\t' == c || '\U{000B}' <= c <= '\r' || '\U{001C}' <= c <= '\U{001F}' || c == '\U{0085}'
      || c == '\U{00A0}'
    || c == '\U{1680}' || '\U{2000}' <= c <= '\U{200A}' || c == '\U{2028}' || c == '\U{2029}' || c == '\U{202F}'
    || c == '\U{205F}' || c == '\U{3000}'
  }

  predicate Letter(c: char) { 'A' <= c <= 'Z' || 'a' <= c <= 'z' }

  predicate Separator(c: char) { c == '\U{FF65}' || c == '\U{30FB}' }

  // ----- separators and line ends -----

  /** `translate` with the separator table. */
  function Translate(s: string): string {
    if s == "" then "" else [if Separator(s[0]) then DOT else s[0]] + Translate(s[1..])
  }

  /** Both replacements of carriage returns. */
  function UnixLines(s: string): string {
    if s == "" then ""
    else if s[0] == '\r' then
      if |s| > 1 && s[1] == '\n' then UnixLines(s[1..]) else ['\n'] + UnixLines(s[1..])
    else [s[0]] + UnixLines(s[1..])
  }

  predicate Plain(s: string) { forall c :: c in s ==> !Separator(c) && c != '\r' }

  lemma {:induction false} Translated(s: string)
    ensures forall c :: c in Translate(s) ==> !Separator(c)
    ensures (forall c :: c in s ==> !Separator(c)) ==> Translate(s) == s
  {
    if s != "" {
      Translated(s[1..]);
      assert s == [s[0]] + s[1..];
    }
  }

  lemma {:induction false} Unixed(s: string)
    ensures forall c :: c in UnixLines(s) ==> c != '\r' && (c in s || c == '\n')
    ensures (forall c :: c in s ==> c != '\r') ==> UnixLines(s) == s
  {
    if s != "" {
      Unixed(s[1..]);
      assert s == [s[0]] + s[1..];
      assert s[0] in s && forall c :: c in s[1..] ==> c in s;
    }
  }

  // ----- one line -----

  /** Every run of whitespace becomes one space. */
  function Collapse(s: string): string {
    if s == "" then ""
    else if !Blank(s[0]) then [s[0]] + Collapse(s[1..])
    else if |s| > 1 && Blank(s[1]) then Collapse(s[1..])
    else " " + Collapse(s[1..])
  }

  function TrimLeft(s: string): string { if s != "" && (Blank(s[0]) || s[0] == '\n') then TrimLeft(s[1..]) else s }

  function TrimRight(s: string): string {
    if s != "" && (Blank(s[|s| - 1]) || s[|s| - 1] == '\n') then TrimRight(s[..|s| - 1]) else s
  }

  function CleanLine(line: string): string { TrimRight(TrimLeft(Collapse(line))) }

  // ----- tidy texts -----

  /** Of two neighbours, a blank is a plain space beside something that is neither blank nor a line end. */
  predicate Neighbours(a: char, b: char) {
    (Blank(a) ==> a == ' ' && !Blank(b) && b != '\n') && (Blank(b) ==> b == ' ' && !Blank(a) && a != '\n')
  }

  /** All neighbours are in order, with `before` in front and a line end behind. */
  predicate TidyAfter(before: char, s: string)
    decreases s
  {
    if s == "" then Neighbours(before, '\n') else Neighbours(before, s[0]) && TidyAfter(s[0], s[1..])
  }

  /** Single spaces only, none at the start or end of a line. */
  predicate Tidy(s: string) { TidyAfter('\n', s) }

  lemma {:induction false} TidyConcat(before: char, a: string, b: string)
    ensures TidyAfter(before, a + "\n" + b) <==> TidyAfter(before, a) && TidyAfter('\n', b)
    decreases a
  {
    var s := a + "\n" + b;
    if a == "" {
      assert s == "\n" + b && s[1..] == b;
    } else {
      TidyConcat(a[0], a[1..], b);
      assert s[1..] == a[1..] + "\n" + b;
    }
  }

  lemma {:induction false} JoinTidy(lines: seq<string>)
    ensures Tidy(JoinLines(lines)) <==> forall l :: l in lines ==> Tidy(l)
  {
    assert Tidy("");
    if |lines| > 1 {
      var front, last := lines[..|lines| - 1], lines[|lines| - 1];
      JoinTidy(front);
      TidyConcat('\n', JoinLines(front), last);
      assert lines == front + [last];
      assert JoinLines(lines) == JoinLines(front) + "\n" + last;
      assert (forall l :: l in lines ==> Tidy(l)) <==> Tidy(last) && forall l :: l in front ==> Tidy(l);
    } else if |lines| == 1 {
      assert lines == [lines[0]];
    }
  }

  /** Collapsed: every blank is a single plain space. */
  predicate Single(s: string) {
    s == "" || ((Blank(s[0]) ==> s[0] == ' ' && (|s| == 1 || !Blank(s[1]))) && Single(s[1..]))
  }

  lemma {:induction false} CollapseSingle(s: string)
    ensures Single(Collapse(s)) && (Collapse(s) == "" <==> s == "")
    ensures s != "" ==> (Blank(Collapse(s)[0]) <==> Blank(s[0]))
    ensures forall c :: c in Collapse(s) ==> c in s || c == ' '
  {
    if s != "" {
      CollapseSingle(s[1..]);
      var head := if Blank(s[0]) then ' ' else s[0];
      assert ([head] + Collapse(s[1..]))[1..] == Collapse(s[1..]);
      assert s == [s[0]] + s[1..];
    }
  }

  lemma {:induction false} TrimLeftSingle(s: string)
    requires Single(s)
    ensures Single(TrimLeft(s)) && (TrimLeft(s) != "" ==> !Blank(TrimLeft(s)[0]) && TrimLeft(s)[0] != '\n')
    ensures forall c :: c in TrimLeft(s) ==> c in s
  {
    if s != "" && (Blank(s[0]) || s[0] == '\n') {
      TrimLeftSingle(s[1..]);
    }
  }

  lemma {:induction false} SingleFront(s: string)
    requires Single(s) && s != ""
    ensures Single(s[..|s| - 1])
  {
    if |s| > 1 {
      SingleFront(s[1..]);
      assert s[..|s| - 1][1..] == s[1..][..|s| - 2];
    }
  }

  lemma {:induction false} TrimRightSingle(s: string)
    requires Single(s)
    ensures Single(TrimRight(s)) && TrimRight(s) <= s
    ensures var r := TrimRight(s); r != "" ==> !Blank(r[|r| - 1]) && r[|r| - 1] != '\n'
  {
    if s != "" && (Blank(s[|s| - 1]) || s[|s| - 1] == '\n') {
      SingleFront(s);
      TrimRightSingle(s[..|s| - 1]);
    }
  }

  lemma {:induction false} SingleTidy(before: char, s: string)
    requires Single(s) && '\n' !in s && (s != "" ==> !Blank(s[|s| - 1]))
    requires if s == "" then !Blank(before) else Neighbours(before, s[0])
    ensures TidyAfter(before, s)
    decreases s
  {
    if s != "" {
      assert |s| > 1 ==> s[1..][|s| - 2] == s[|s| - 1];
      assert forall c :: c in s[1..] ==> c in s;
      SingleTidy(s[0], s[1..]);
    }
  }

  lemma CleanLineTidy(line: string)
    requires '\n' !in line
    ensures Tidy(CleanLine(line)) && forall c :: c in CleanLine(line) ==> c in line || c == ' '
  {
    CollapseSingle(line);
    TrimLeftSingle(Collapse(line));
    TrimRightSingle(TrimLeft(Collapse(line)));
    var r := CleanLine(line);
    assert forall c :: c in r ==> c in TrimLeft(Collapse(line));
    SingleTidy('\n', r);
  }

  lemma {:induction false} TidyCollapsed(before: char, s: string)
    requires TidyAfter(before, s)
    ensures Collapse(s) == s && (s != "" ==> !Blank(s[|s| - 1]))
    decreases s
  {
    if s != "" {
      TidyCollapsed(s[0], s[1..]);
      assert s == [s[0]] + s[1..] && (|s| > 1 ==> s[1..][|s| - 2] == s[|s| - 1]);
    }
  }

  lemma TidyLineClean(line: string)
    requires '\n' !in line && Tidy(line)
    ensures CleanLine(line) == line
  {
    TidyCollapsed('\n', line);
    if line != "" { assert line[|line| - 1] in line && line[0] in line; }
  }

  // ----- soft hyphens at line ends -----

  /** A letter, a soft hyphen, a line end and a letter. */
  predicate SoftWrap(s: string) { |s| >= 4 && Letter(s[0]) && s[1] == SOFT && s[2] == '\n' && Letter(s[3]) }

  /** Drops the soft hyphen and the line end between two letters. */
  function Soften(s: string): string {
    if s == "" then ""
    else if SoftWrap(s) then [s[0]] + Soften(s[3..])
    else [s[0]] + Soften(s[1..])
  }

  predicate NoSoftWrap(s: string) { s == "" || (!SoftWrap(s) && NoSoftWrap(s[1..])) }

  lemma {:induction false} SoftenHead(s: string)
    ensures Soften(s) == "" <==> s == ""
    ensures s != "" ==> Soften(s)[0] == s[0]
    ensures s != "" && !SoftWrap(s) ==> Soften(s)[1..] == Soften(s[1..])
  {
  }

  lemma {:induction false} SoftenStable(s: string)
    ensures NoSoftWrap(Soften(s))
    ensures NoSoftWrap(s) <==> Soften(s) == s
    ensures |Soften(s)| <= |s| && forall c :: c in Soften(s) ==> c in s
  {
    if s != "" {
      assert s == [s[0]] + s[1..];
      if SoftWrap(s) {
        SoftenStable(s[3..]);
        SoftenHead(s[3..]);
        assert ([s[0]] + Soften(s[3..]))[1..] == Soften(s[3..]);
      } else {
        SoftenStable(s[1..]);
        SoftenHead(s);
        SoftenHead(s[1..]);
        if |s| > 2 && s[1] == SOFT { SoftenHead(s[2..]); }
        if |s| > 3 && s[1] == SOFT && s[2] == '\n' { SoftenHead(s[3..]); }
      }
    }
  }

  lemma {:induction false} SoftenTidy(before: char, s: string)
    requires TidyAfter(before, s)
    ensures TidyAfter(before, Soften(s))
    decreases |s|
  {
    if s != "" {
      SoftenHead(s);
      if SoftWrap(s) {
        assert s[1..][1..] == s[2..] && s[2..][1..] == s[3..];
        assert TidyAfter(s[1], s[2..]) && TidyAfter(s[2], s[3..]);
        SoftenTidy(s[0], s[3..]);
        assert ([s[0]] + Soften(s[3..]))[1..] == Soften(s[3..]);
      } else {
        SoftenTidy(s[0], s[1..]);
      }
    }
  }

  // ----- blank lines -----

  predicate ThreeEnds(s: string) { |s| >= 3 && s[0] == '\n' && s[1] == '\n' && s[2] == '\n' }

  /** Three or more line ends in a row become two. */
  function Squeeze(s: string): string {
    if s == "" then "" else if ThreeEnds(s) then Squeeze(s[1..]) else [s[0]] + Squeeze(s[1..])
  }

  predicate NoThreeEnds(s: string) { s == "" || (!ThreeEnds(s) && NoThreeEnds(s[1..])) }

  lemma {:induction false} SqueezeHead(s: string)
    ensures Squeeze(s) == "" <==> s == ""
    ensures s != "" ==> Squeeze(s)[0] == s[0]
    ensures s != "" && s[0] != '\n' ==> Squeeze(s)[1..] == Squeeze(s[1..])
    ensures |s| > 1 && s[0] == '\n' ==> |Squeeze(s)| > 1 && Squeeze(s)[1] == s[1]
    ensures s == "\n" ==> Squeeze(s) == s
  {
    if s != "" { SqueezeHead(s[1..]); }
  }

  lemma {:induction false} SqueezeStable(s: string)
    ensures NoThreeEnds(Squeeze(s))
    ensures NoThreeEnds(s) <==> Squeeze(s) == s
    ensures |Squeeze(s)| <= |s| && forall c :: c in Squeeze(s) ==> c in s
  {
    if s != "" {
      assert s == [s[0]] + s[1..];
      SqueezeStable(s[1..]);
      if !ThreeEnds(s) {
        SqueezeHead(s[1..]);
        assert ([s[0]] + Squeeze(s[1..]))[1..] == Squeeze(s[1..]);
      }
    }
  }

  lemma {:induction false} SqueezeTidy(before: char, s: string)
    requires TidyAfter(before, s)
    ensures TidyAfter(before, Squeeze(s))
    decreases |s|
  {
    if s != "" {
      if ThreeEnds(s) {
        SqueezeTidy(before, s[1..]);
      } else {
        SqueezeTidy(s[0], s[1..]);
        assert ([s[0]] + Squeeze(s[1..]))[1..] == Squeeze(s[1..]);
      }
    }
  }

  lemma {:induction false} SqueezeNoSoftWrap(s: string)
    requires NoSoftWrap(s)
    ensures NoSoftWrap(Squeeze(s))
  {
    if s != "" {
      SqueezeNoSoftWrap(s[1..]);
      if !ThreeEnds(s) {
        assert ([s[0]] + Squeeze(s[1..]))[1..] == Squeeze(s[1..]);
        SqueezeHead(s[1..]);
        if |s| > 2 { SqueezeHead(s[2..]); }
        if |s| > 3 { SqueezeHead(s[3..]); }
      }
    }
  }

  // ----- line ends at both ends of the text -----

  function StripLeft(s: string): string { if s != "" && s[0] == '\n' then StripLeft(s[1..]) else s }

  function StripRight(s: string): string { if s != "" && s[|s| - 1] == '\n' then StripRight(s[..|s| - 1]) else s }

  function Strip(s: string): string { StripRight(StripLeft(s)) }

  predicate Stripped(s: string) { s != "" ==> s[0] != '\n' && s[|s| - 1] != '\n' }

  /** What a normalized text looks like, apart from soft wraps. */
  predicate NearlyNormal(s: string) { Plain(s) && Tidy(s) && NoThreeEnds(s) && Stripped(s) }

  predicate Normal(s: string) { NearlyNormal(s) && NoSoftWrap(s) }

  lemma {:induction false} StripLeftKeeps(s: string)
    requires Tidy(s)
    ensures Tidy(StripLeft(s)) && (NoThreeEnds(s) ==> NoThreeEnds(StripLeft(s)))
            && (NoSoftWrap(s) ==> NoSoftWrap(StripLeft(s)))
    ensures StripLeft(s) != "" ==> StripLeft(s)[0] != '\n'
    ensures forall c :: c in StripLeft(s) ==> c in s
  {
    if s != "" && s[0] == '\n' {
      StripLeftKeeps(s[1..]);
    }
  }

  lemma {:induction false} FrontKeeps(s: string)
    requires s != ""
    ensures NoThreeEnds(s) ==> NoThreeEnds(s[..|s| - 1])
    ensures NoSoftWrap(s) ==> NoSoftWrap(s[..|s| - 1])
  {
    if |s| > 1 {
      FrontKeeps(s[1..]);
      assert s[..|s| - 1][1..] == s[1..][..|s| - 2];
    }
  }

  lemma {:induction false} StripRightKeeps(s: string)
    requires Tidy(s)
    ensures Tidy(StripRight(s)) && (NoThreeEnds(s) ==> NoThreeEnds(StripRight(s)))
            && (NoSoftWrap(s) ==> NoSoftWrap(StripRight(s)))
    ensures StripRight(s) <= s && (StripRight(s) != "" ==> StripRight(s)[|StripRight(s)| - 1] != '\n')
  {
    if s != "" && s[|s| - 1] == '\n' {
      var front := s[..|s| - 1];
      FrontKeeps(s);
      TidyConcat('\n', front, "");
      assert s == front + "\n" + "";
      StripRightKeeps(front);
    }
  }

  lemma {:induction false} StripKeeps(s: string)
    requires Tidy(s) && NoThreeEnds(s) && Plain(s)
    ensures NearlyNormal(Strip(s)) && (NoSoftWrap(s) ==> NoSoftWrap(Strip(s)))
  {
    StripLeftKeeps(s);
    StripRightKeeps(StripLeft(s));
    var r := Strip(s);
    assert forall c :: c in r ==> c in StripLeft(s);
    if r != "" { assert r[0] == StripLeft(s)[0]; }
  }
}
