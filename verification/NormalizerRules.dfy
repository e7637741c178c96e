/** What each pass of the normalizer does, spelled out (src/ingestion/normalize.py). */
module NormalizerRules {
  // Lines, words, removed lines and joined wraps in terms of the text alone, independently of how the passes work.

  import opened NormalForms
  import opened NormalizedText
  import opened Normalizer
  import opened Sorting
  import opened Strings
  import opened TextWords
  import opened UncoveredWraps
  import opened Wrappers

  // ----- a cleaned line is the sentence of its words -----

  lemma {:induction false} CollapseWord(word: string, rest: string)
    requires IsWord(Blank, word)
    ensures Collapse(word + rest) == word + Collapse(rest)
  {
    var s := word + rest;
    assert s[1..] == word[1..] + rest && !Blank(s[0]);
    if |word| > 1 {
      assert IsWord(Blank, word[1..]);
      CollapseWord(word[1..], rest);
    } else {
      assert word[1..] + rest == rest;
    }
  }

  /** The collapsed line is the sentence, with a blank on either side where there is white space. */
  predicate Collapsed(s: string) {
    Collapse(s) == Gap(Leads(Blank, s)) + (Sentence(WordsOf(Blank, s)) + Gap(Trails(Blank, s)))
  }

  lemma {:induction false} CollapseIsSentence(s: string)
    ensures Collapsed(s)
    decreases |s|
  {
    if s != "" {
      if Blank(s[0]) {
        CollapseIsSentence(s[1..]);
        CollapseBlank(s);
      } else {
        CollapseIsSentence(s[WordEnd(Blank, s, 0)..]);
        CollapseFirst(s, WordEnd(Blank, s, 0));
      }
    }
  }

  lemma CollapseBlank(s: string)
    requires s != "" && Blank(s[0]) && Collapsed(s[1..])
    ensures Collapsed(s)
  {
    assert Trails(Blank, s) <==> Trails(Blank, s[1..]);
    var tail := Sentence(WordsOf(Blank, s[1..])) + Gap(Trails(Blank, s[1..]));
    assert "" + tail == tail;
  }

  lemma {:induction false} CollapseFirst(s: string, k: nat)
    requires s != "" && !Blank(s[0]) && k == WordEnd(Blank, s, 0) && Collapsed(s[k..])
    ensures Collapsed(s)
  {
    FirstWord(Blank, s, k);
    CollapseWord(s[..k], s[k..]);
    CollapsedFrom(s, s[..k], s[k..], WordsOf(Blank, s[k..]), Trails(Blank, s[k..]));
  }

  lemma {:induction false} CollapsedFrom(s: string, word: string, rest: string, words: seq<string>, trails: bool)
    requires s != "" && !Blank(s[0]) && (words != [] ==> rest != "") && (trails ==> words != [])
    ensures (&& Collapse(s) == word + Collapse(rest)
             && Collapse(rest) == Gap(rest != "") + (Sentence(words) + Gap(trails))
             && WordsOf(Blank, s) == [word] + words
             && Trails(Blank, s) == (rest != "" && (trails || words == []))) ==> Collapsed(s)
  {
    FirstJoins(word, words, rest != "", trails);
    var all := Sentence([word] + words) + Gap(rest != "" && (trails || words == []));
    assert "" + all == all;
  }

  /** Neither a blank nor a line end at either end. */
  predicate Bare(t: string) {
    t != "" ==> !Blank(t[0]) && t[0] != '\n' && !Blank(t[|t| - 1]) && t[|t| - 1] != '\n'
  }

  lemma {:induction false} TrimEnds(t: string, lead: bool, trail: bool)
    requires Bare(t) && (t == "" ==> !trail)
    ensures TrimRight(TrimLeft(Gap(lead) + (t + Gap(trail)))) == t
  {
    var r := t + Gap(trail);
    assert "" + r == r && t + "" == t && (" " + r)[1..] == r;
    assert TrimLeft(Gap(lead) + r) == TrimLeft(r);
    if t != "" {
      assert r[0] == t[0] && TrimLeft(r) == r;
      TrimTrail(t);
    }
  }

  lemma {:induction false} TrimTrail(t: string)
    requires Bare(t) && t != ""
    ensures TrimRight(t) == t && TrimRight(t + " ") == t
  {
    var r := t + " ";
    assert r[..|r| - 1] == t;
  }

  lemma {:induction false} WordsInside(s: string)
    requires '\n' !in s
    ensures forall i :: 0 <= i < |WordsOf(Blank, s)| ==> '\n' !in WordsOf(Blank, s)[i]
    decreases |s|
  {
    if s != "" {
      var k := WordEnd(Blank, s, 0);
      assert forall c :: c in s[1..] ==> c in s;
      assert forall c :: c in s[k..] ==> c in s;
      assert forall c :: c in s[..k] ==> c in s;
      if Blank(s[0]) { WordsInside(s[1..]); } else { WordsInside(s[k..]); }
    }
  }

  lemma {:induction false} SentenceBare(words: seq<string>)
    requires forall i :: 0 <= i < |words| ==> IsWord(Blank, words[i]) && '\n' !in words[i]
    ensures Bare(Sentence(words))
  {
    if words != [] {
      SentenceEnds(Blank, words);
      SentenceBare(words[1..]);
      assert words[0][0] in words[0] && words[0][|words[0]| - 1] in words[0];
      if |words| > 1 { SentenceEnds(Blank, words[1..]); }
    }
  }

  /** A cleaned line is its words with one blank between them. */
  lemma {:induction false} CleanLineIsSentence(line: string)
    requires '\n' !in line
    ensures CleanLine(line) == Sentence(WordsOf(Blank, line))
  {
    CollapseIsSentence(line);
    WordsInside(line);
    SentenceBare(WordsOf(Blank, line));
    TrimEnds(Sentence(WordsOf(Blank, line)), Leads(Blank, line), Trails(Blank, line));
  }

  // ----- lines -----

  /** Where the first line ends: at a line feed or a carriage return, or at the end. */
  function LineEnd(s: string, i: nat): (k: nat)
    requires i <= |s|
    ensures i <= k <= |s| && (forall j :: i <= j < k ==> s[j] != '\n' && s[j] != '\r')
    ensures k < |s| ==> s[k] == '\n' || s[k] == '\r'
    decreases |s| - i
  {
    if i < |s| && s[i] != '\n' && s[i] != '\r' then LineEnd(s, i + 1) else i
  }

  /** The lines of a text; a carriage return with a line feed behind it ends one line. */
  function TextLines(s: string): seq<string>
    decreases |s|
  {
    var k := LineEnd(s, 0);
    if k == |s| then [s]
    else if s[k] == '\r' && k + 1 < |s| && s[k + 1] == '\n' then [s[..k]] + TextLines(s[k + 2..])
    else [s[..k]] + TextLines(s[k + 1..])
  }

  /** The text with a middle dot for either of the two katakana separators. */
  predicate Dotted(s: string, t: string) {
    && |t| == |s|
    && forall i :: 0 <= i < |s| ==> t[i] == if s[i] == '\U{FF65}' || s[i] == '\U{30FB}' then '\U{00B7}' else s[i]
  }

  lemma {:induction false} TranslateDots(s: string)
    ensures Dotted(s, Translate(s))
  {
    if s != "" {
      TranslateDots(s[1..]);
      forall i | 0 <= i < |s| ensures i > 0 ==> s[i] == s[1..][i - 1] {}
    }
  }

  predicate NoReturn(s: string) { forall i :: 0 <= i < |s| ==> s[i] != '\r' }

  /** Plain characters in front of a line end. */
  lemma {:induction false} UnixFront(front: string, rest: string)
    requires NoReturn(front)
    ensures UnixLines(front + rest) == front + UnixLines(rest)
  {
    if front == "" {
      assert front + rest == rest && front + UnixLines(rest) == UnixLines(rest);
    } else {
      var s := front + rest;
      assert s[0] == front[0] && s[1..] == front[1..] + rest;
      UnixFront(front[1..], rest);
      assert [front[0]] + (front[1..] + UnixLines(rest)) == front + UnixLines(rest);
    }
  }

  /** The lines with one character more. */
  lemma {:induction false} LinesMore(s: string, c: char)
    ensures Lines(s + [c])
            == if c == '\n' then Lines(s) + [""] else Lines(s)[..|Lines(s)| - 1] + [Lines(s)[|Lines(s)| - 1] + [c]]
  {
    assert (s + [c])[..|s|] == s;
  }

  /** Cutting at a line feed cuts the lines. */
  lemma {:induction false} LinesCut(a: string, b: string)
    ensures Lines(a + "\n" + b) == Lines(a) + Lines(b)
  {
    if b == "" {
      LinesMore(a, '\n');
      assert a + "\n" + b == a + ['\n'];
    } else {
      LinesCut(a, b[..|b| - 1]);
      CutMore(a, b[..|b| - 1], b[|b| - 1]);
      assert b == b[..|b| - 1] + [b[|b| - 1]];
    }
  }

  lemma {:induction false} CutMore(a: string, b: string, c: char)
    requires Lines(a + "\n" + b) == Lines(a) + Lines(b)
    ensures Lines(a + "\n" + (b + [c])) == Lines(a) + Lines(b + [c])
  {
    assert a + "\n" + (b + [c]) == (a + "\n" + b) + [c];
    SameMore(a + "\n" + b, Lines(a), b, c);
  }

  lemma {:induction false} SameMore(whole: string, front: seq<string>, b: string, c: char)
    requires Lines(whole) == front + Lines(b)
    ensures Lines(whole + [c]) == front + Lines(b + [c])
  {
    LinesMore(whole, c);
    LinesMore(b, c);
    LinesLast(front, Lines(b), c);
  }

  lemma LinesLast(a: seq<string>, b: seq<string>, c: char)
    requires b != []
    ensures (a + b)[..|a + b| - 1] + [(a + b)[|a + b| - 1] + [c]] == a + (b[..|b| - 1] + [b[|b| - 1] + [c]])
    ensures (a + b) + [""] == a + (b + [""])
  {
  }

  lemma {:induction false} OneLineLines(s: string)
    requires '\n' !in s
    ensures Lines(s) == [s]
  {
    if s != "" {
      var front, c := s[..|s| - 1], s[|s| - 1];
      assert s == front + [c] && c in s && forall x :: x in front ==> x in s;
      OneLineLines(front);
    }
  }

  /** The first line is plain. */
  lemma {:induction false} FirstLine(s: string, k: nat)
    requires k == LineEnd(s, 0)
    ensures NoReturn(s[..k]) && '\n' !in s[..k]
  {
  }

  /** What is behind the first line end. */
  function Behind(s: string, k: nat): string
    requires k < |s|
  {
    if s[k] == '\r' && k + 1 < |s| && s[k + 1] == '\n' then s[k + 2..] else s[k + 1..]
  }

  lemma FrontAndRest(s: string, k: nat)
    requires k <= |s|
    ensures s == s[..k] + s[k..]
  {
  }

  /** The lines behind both replacements of carriage returns are the lines of the text. */
  lemma {:induction false} LinesAreTextLines(s: string)
    ensures Lines(UnixLines(s)) == TextLines(s)
    decreases |s|
  {
    var k := LineEnd(s, 0);
    FirstLine(s, k);
    if k == |s| {
      assert s[..k] == s && s + "" == s;
      UnixFront(s, "");
      OneLineLines(s);
    } else {
      LinesAreTextLines(Behind(s, k));
      UnixFirst(s, k);
      LinesCut(s[..k], UnixLines(Behind(s, k)));
      OneLineLines(s[..k]);
    }
  }

  lemma {:induction false} UnixFirst(s: string, k: nat)
    requires k == LineEnd(s, 0) && k < |s|
    ensures UnixLines(s) == s[..k] + "\n" + UnixLines(Behind(s, k))
  {
    FirstLine(s, k);
    FrontAndRest(s, k);
    UnixFront(s[..k], s[k..]);
    UnixEnd(s, k);
    assert s[..k] + (['\n'] + UnixLines(Behind(s, k))) == s[..k] + "\n" + UnixLines(Behind(s, k));
  }

  lemma UnixEnd(s: string, k: nat)
    requires k < |s| && (s[k] == '\n' || s[k] == '\r')
    ensures UnixLines(s[k..]) == ['\n'] + UnixLines(Behind(s, k))
  {
    assert s[k..][1..] == s[k + 1..];
    if s[k] == '\r' && k + 1 < |s| && s[k + 1] == '\n' { assert s[k + 1..][1..] == s[k + 2..]; }
  }

  /** The first passes leave, line by line, the words of the composed text with its separators as middle dots. */
  lemma PreparedExactly(tools: Tools, text: string) returns (dotted: string, lines: seq<string>)
    ensures Dotted(tools.nfc(text), dotted)
    ensures |lines| == |TextLines(dotted)| && Prepared(tools, text) == JoinLines(lines)
    ensures forall i :: 0 <= i < |lines| ==> lines[i] == Sentence(WordsOf(Blank, TextLines(dotted)[i]))
  {
    dotted := Translate(tools.nfc(text));
    TranslateDots(tools.nfc(text));
    LinesAreTextLines(dotted);
    LinesJoin(UnixLines(dotted));
    lines := Mapped(CleanLine, Lines(UnixLines(dotted)));
    forall i | 0 <= i < |lines| ensures lines[i] == Sentence(WordsOf(Blank, TextLines(dotted)[i])) {
      assert TextLines(dotted)[i] in Lines(UnixLines(dotted));
      CleanLineIsSentence(TextLines(dotted)[i]);
    }
  }

  // ----- soft hyphens -----

  /** `[A-Za-z]` */
  predicate AsciiLetter(c: char) { 65 <= c as int <= 90 || 97 <= c as int <= 122 }

  /** A letter, a soft hyphen, a line end and a letter. */
  predicate HalvesAt(s: string, i: nat) {
    i + 4 <= |s| && AsciiLetter(s[i]) && s[i + 1] == '\U{00AD}' && s[i + 2] == '\n' && AsciiLetter(s[i + 3])
  }

  predicate NoHalves(s: string) { forall i :: 0 <= i < |s| ==> !HalvesAt(s, i) }

  lemma HalvesMove(s: string)
    requires s != ""
    ensures forall i: nat :: HalvesAt(s[1..], i) <==> HalvesAt(s, i + 1)
  {
  }

  lemma {:induction false} NoHalvesExactly(s: string)
    ensures NoHalves(s) <==> NoSoftWrap(s)
  {
    if s != "" {
      NoHalvesExactly(s[1..]);
      HalvesMove(s);
      assert HalvesAt(s, 0) <==> SoftWrap(s);
      if NoHalves(s[1..]) {
        forall i | 1 <= i < |s| ensures !HalvesAt(s, i) { assert !HalvesAt(s[1..], i - 1); }
      }
      if NoHalves(s) {
        forall i | 0 <= i < |s[1..]| ensures !HalvesAt(s[1..], i) { assert !HalvesAt(s, i + 1); }
      }
    }
  }

  /** `b` is `a` without some of its soft hyphens at line ends between letters, each with its line end. */
  predicate HalvesJoined(a: string, b: string) {
    if a == "" then b == ""
    else
      && b != "" && a[0] == b[0]
      && (|| HalvesJoined(a[1..], b[1..])
          || (HalvesAt(a, 0) && HalvesJoined(a[3..], b[1..])))
  }

  lemma {:induction false} SoftenJoins(s: string)
    ensures HalvesJoined(s, Soften(s))
    decreases |s|
  {
    if s != "" {
      assert HalvesAt(s, 0) <==> SoftWrap(s);
      if SoftWrap(s) {
        SoftenJoins(s[3..]);
        assert ([s[0]] + Soften(s[3..]))[1..] == Soften(s[3..]);
      } else {
        SoftenJoins(s[1..]);
        assert ([s[0]] + Soften(s[1..]))[1..] == Soften(s[1..]);
      }
    }
  }

  /** A soft wrap that is kept is still one. */
  lemma KeptWrap(a: string, b: string)
    requires a != "" && b != "" && a[0] == b[0] && HalvesJoined(a[1..], b[1..]) && SoftWrap(a)
    ensures SoftWrap(b)
  {
    assert a[1..][1..] == a[2..] && b[1..][1..] == b[2..] && HalvesJoined(a[2..], b[2..]);
    assert a[2..][1..] == a[3..] && b[2..][1..] == b[3..] && HalvesJoined(a[3..], b[3..]);
  }

  /** Exactly the soft hyphens at line ends between letters go. */
  lemma {:induction false} SoftenExactly(a: string, b: string)
    ensures b == Soften(a) <==> HalvesJoined(a, b) && NoHalves(b)
  {
    NoHalvesExactly(b);
    if b == Soften(a) {
      SoftenJoins(a);
      SoftenStable(a);
    }
    if HalvesJoined(a, b) && NoSoftWrap(b) { JoinedIsSoftened(a, b); }
  }

  lemma {:induction false} JoinedIsSoftened(a: string, b: string)
    requires HalvesJoined(a, b) && NoSoftWrap(b)
    ensures b == Soften(a)
    decreases |a|
  {
    if a != "" {
      assert b == [b[0]] + b[1..];
      assert HalvesAt(a, 0) <==> SoftWrap(a);
      if SoftWrap(a) {
        if HalvesJoined(a[1..], b[1..]) { KeptWrap(a, b); }
        JoinedIsSoftened(a[3..], b[1..]);
      } else {
        JoinedIsSoftened(a[1..], b[1..]);
      }
    }
  }

  // ----- repeated lines -----

  /** A line that a piece of evidence names: seen on more than half of the pages, within the top or the bottom tenth,
      for this very text; its number, or no other line like it. */
  predicate IsNamed(e: LineEvidence, line: string, hash: string, lines: seq<string>, k: nat)
    requires k < |lines|
  {
    && 2 * e.occurrences > e.pages && (10.0 * e.y1 <= 1.0 || 10.0 * e.y0 >= 9.0) && e.hash == hash
    && lines[k] == line
    && (e.line == Some(k) || (e.line == None && forall j :: 0 <= j < |lines| && lines[j] == line ==> j == k))
  }

  /** Evidence on one line reads as its words. */
  predicate OneLineEvidence(tools: Tools, e: LineEvidence) { TextLines(tools.nfc(e.text)) == [tools.nfc(e.text)] }

  lemma {:induction false} EvidenceWords(tools: Tools, e: LineEvidence, dotted: string)
    requires OneLineEvidence(tools, e) && Dotted(tools.nfc(e.text), dotted)
    ensures EvidenceText(tools, e.text) == Sentence(WordsOf(Blank, dotted))
  {
    var s := tools.nfc(e.text);
    TranslateDots(s);
    assert dotted == Translate(s);
    SingleLine(s);
    assert forall i :: 0 <= i < |s| ==> dotted[i] != '\n' && dotted[i] != '\r';
    UnixFront(dotted, "");
    assert dotted + "" == dotted;
    CleanLineIsSentence(dotted);
  }

  lemma {:induction false} SingleLine(s: string)
    requires TextLines(s) == [s]
    ensures forall i :: 0 <= i < |s| ==> s[i] != '\n' && s[i] != '\r'
  {
    FirstOfLines(s);
    assert |s[..LineEnd(s, 0)]| == LineEnd(s, 0);
  }

  lemma {:induction false} FirstOfLines(s: string)
    ensures TextLines(s) != [] && TextLines(s)[0] == s[..LineEnd(s, 0)]
  {
  }

  /** Exactly the lines go that some evidence names. */
  lemma RemovedExactly(tools: Tools, lines: seq<string>, evidence: seq<LineEvidence>, dotted: seq<string>, hash: string,
                       k: nat)
    requires |dotted| == |evidence| && k < |lines|
    requires forall i :: 0 <= i < |evidence| ==>
               OneLineEvidence(tools, evidence[i]) && Dotted(tools.nfc(evidence[i].text), dotted[i])
    ensures Removed(tools, lines, evidence, hash, k)
            <==> exists i :: 0 <= i < |evidence|
                             && IsNamed(evidence[i], Sentence(WordsOf(Blank, dotted[i])), hash, lines, k)
  {
    forall i | 0 <= i < |evidence|
      ensures Names(tools, lines, evidence[i], hash, k)
              <==> IsNamed(evidence[i], Sentence(WordsOf(Blank, dotted[i])), hash, lines, k)
    {
      EvidenceWords(tools, evidence[i], dotted[i]);
    }
  }

  // ----- blank lines -----

  /** `b` is `a` without some line ends that two more follow. */
  predicate Thinned(a: string, b: string)
    decreases |a|
  {
    if a == "" then b == ""
    else
      || (b != "" && a[0] == b[0] && Thinned(a[1..], b[1..]))
      || (|a| >= 3 && a[0] == '\n' && a[1] == '\n' && a[2] == '\n' && Thinned(a[1..], b))
  }

  lemma {:induction false} SqueezeThins(s: string)
    ensures Thinned(s, Squeeze(s)) && NoThreeEnds(Squeeze(s))
    decreases |s|
  {
    SqueezeStable(s);
    if s != "" {
      SqueezeThins(s[1..]);
      assert ([s[0]] + Squeeze(s[1..]))[1..] == Squeeze(s[1..]);
    }
  }

  predicate OnlyEnds(s: string) { forall i :: 0 <= i < |s| ==> s[i] == '\n' }

  lemma {:induction false} StripLeftTakes(s: string) returns (ends: string)
    ensures OnlyEnds(ends) && s == ends + StripLeft(s)
    ensures StripLeft(s) != "" ==> StripLeft(s)[0] != '\n'
  {
    ends := "";
    if s != "" && s[0] == '\n' {
      ends := StripLeftTakes(s[1..]);
      ends := "\n" + ends;
    }
  }

  lemma {:induction false} StripRightTakes(s: string) returns (ends: string)
    ensures OnlyEnds(ends) && s == StripRight(s) + ends
    ensures StripRight(s) != "" ==> StripRight(s)[|StripRight(s)| - 1] != '\n'
  {
    ends := "";
    if s != "" && s[|s| - 1] == '\n' {
      ends := StripRightTakes(s[..|s| - 1]);
      ends := ends + "\n";
    }
  }

  /** Nothing but line ends goes at either end, and all of them. */
  lemma StripTakes(s: string) returns (before: string, after: string)
    ensures OnlyEnds(before) && OnlyEnds(after) && s == before + Strip(s) + after && Stripped(Strip(s))
  {
    before := StripLeftTakes(s);
    after := StripRightTakes(StripLeft(s));
    assert Strip(s) != "" ==> Strip(s)[0] == StripLeft(s)[0];
  }

  /** The result is the remaining lines without surplus line ends. */
  lemma ResultThinned(tools: Tools, text: string, evidence: seq<LineEvidence>, wraps: seq<Wrap>)
      returns (thinned: string, before: string, after: string)
    ensures Thinned(Kept(tools, text, evidence, wraps), thinned) && NoThreeEnds(thinned)
    ensures OnlyEnds(before) && OnlyEnds(after)
    ensures thinned == before + Normalized(tools, text, evidence, wraps) + after
    ensures Stripped(Normalized(tools, text, evidence, wraps))
  {
    thinned := Squeeze(Kept(tools, text, evidence, wraps));
    SqueezeThins(Kept(tools, text, evidence, wraps));
    before, after := StripTakes(thinned);
  }

  // ----- reviewed wraps -----

  /** The first of these lines ends in the left half and a hyphen, and the second starts with the right half. */
  predicate Halves(lines: seq<string>, w: Wrap) {
    && |lines| >= 2 && |w.left| < |lines[0]| && |w.right| <= |lines[1]|
    && lines[0][|lines[0]| - |w.left| - 1..] == w.left + "-" && lines[1][..|w.right|] == w.right
  }

  /** The first two of these lines joined, without the hyphen, for every wrap in turn that fits. */
  function JoinFirst(lines: seq<string>, wraps: seq<Wrap>, hash: string): seq<string> {
    if wraps == [] then lines
    else
      var before, w := JoinFirst(lines, wraps[..|wraps| - 1], hash), wraps[|wraps| - 1];
      if w.hash == hash && Halves(before, w)
      then [before[0][..|before[0]| - 1] + before[1]] + before[2..] else before
  }

  function AtLine(i: nat): Wrap -> bool { (w: Wrap) => w.line == i }

  /** The lines from `i` on, each joined with what the lines below it have become. */
  function JoinedBelow(lines: seq<string>, wraps: seq<Wrap>, hash: string, i: nat): seq<string>
    requires i <= |lines|
    decreases |lines| - i
  {
    if i == |lines| then []
    else JoinFirst([lines[i]] + JoinedBelow(lines, wraps, hash, i + 1), Keep(AtLine(i), wraps), hash)
  }

  function FromLine(i: nat): Wrap -> bool { (w: Wrap) => w.line >= i }

  lemma {:induction false} AllAt(i: nat, wraps: seq<Wrap>)
    ensures forall w :: w in Keep(AtLine(i), wraps) ==> w.line == i
  {
    if wraps != [] { AllAt(i, wraps[..|wraps| - 1]); }
  }

  lemma {:induction false} AllFrom(i: nat, wraps: seq<Wrap>)
    ensures forall w :: w in Keep(FromLine(i), wraps) ==> w.line >= i
  {
    if wraps != [] { AllFrom(i, wraps[..|wraps| - 1]); }
  }

  lemma {:induction false} AllKept(wraps: seq<Wrap>)
    ensures Keep(FromLine(0), wraps) == wraps
  {
    if wraps != [] {
      AllKept(wraps[..|wraps| - 1]);
      assert wraps == wraps[..|wraps| - 1] + [wraps[|wraps| - 1]];
    }
  }

  /** In order from the last line up, the wraps from line `i` on are those from the next line on, then its own. */
  lemma {:induction false} KeepSplits(i: nat, wraps: seq<Wrap>)
    requires SortedBy(LaterFirst, wraps)
    ensures Keep(FromLine(i), wraps) == Keep(FromLine(i + 1), wraps) + Keep(AtLine(i), wraps)
  {
    if wraps != [] {
      var front, last := wraps[..|wraps| - 1], wraps[|wraps| - 1];
      KeepSplits(i, front);
      if last.line > i { NoneAt(i, front, last); }
      KeptWith(Keep(FromLine(i + 1), front), Keep(AtLine(i), front), last);
    }
  }

  lemma KeptWith(a: seq<Wrap>, b: seq<Wrap>, last: Wrap)
    ensures (a + b) + [last] == a + (b + [last]) && (b == [] ==> (a + b) + [last] == (a + [last]) + b)
    ensures (a + b) + [] == a + b && a + [] == a && b + [] == b
  {
  }

  lemma {:induction false} NoneAt(i: nat, front: seq<Wrap>, last: Wrap)
    requires SortedBy(LaterFirst, front + [last]) && last.line > i
    ensures Keep(AtLine(i), front) == []
  {
    AllAt(i, front);
    CountKept(i, front);
    forall w | w in front ensures w.line != i {
      var k :| 0 <= k < |front| && front[k] == w;
      assert LaterFirst((front + [last])[k], (front + [last])[|front|]);
    }
  }

  lemma {:induction false} CountKept(i: nat, wraps: seq<Wrap>)
    ensures (forall w :: w in wraps ==> w.line != i) ==> Keep(AtLine(i), wraps) == []
  {
    if wraps != [] {
      CountKept(i, wraps[..|wraps| - 1]);
      assert forall w :: w in wraps[..|wraps| - 1] ==> w in wraps;
    }
  }

  lemma {:induction false} ApplyJoins(lines: seq<string>, a: seq<Wrap>, b: seq<Wrap>, hash: string)
    ensures ApplyAll(lines, a + b, hash) == ApplyAll(ApplyAll(lines, a, hash), b, hash)
  {
    if b == [] {
      assert a + b == a;
    } else {
      ApplyJoins(lines, a, b[..|b| - 1], hash);
      assert (a + b)[..|a + b| - 1] == a + b[..|b| - 1];
    }
  }

  /** A wrap at the first line behind `front` leaves `front` alone. */
  lemma ApplyBehind(front: seq<string>, lines: seq<string>, w: Wrap, hash: string)
    requires w.line == |front|
    ensures Apply(front + lines, w, hash)
            == front + if w.hash == hash && Halves(lines, w)
                       then [lines[0][..|lines[0]| - 1] + lines[1]] + lines[2..] else lines
  {
    var all, i := front + lines, |front|;
    if |lines| >= 2 {
      assert all[i] == lines[0] && all[i + 1] == lines[1] && all[..i] == front && all[i + 2..] == lines[2..];
      assert |w.left + "-"| == |w.left| + 1;
    }
  }

  lemma {:induction false} ApplyGroup(front: seq<string>, lines: seq<string>, wraps: seq<Wrap>, hash: string)
    requires forall w :: w in wraps ==> w.line == |front|
    ensures ApplyAll(front + lines, wraps, hash) == front + JoinFirst(lines, wraps, hash)
  {
    if wraps != [] {
      var last := wraps[|wraps| - 1];
      assert last in wraps && forall w :: w in wraps[..|wraps| - 1] ==> w in wraps;
      ApplyGroup(front, lines, wraps[..|wraps| - 1], hash);
      ApplyBehind(front, JoinFirst(lines, wraps[..|wraps| - 1], hash), last, hash);
    }
  }

  /** Wraps behind the last line do nothing. */
  lemma {:induction false} ApplyNothing(lines: seq<string>, wraps: seq<Wrap>, hash: string)
    requires forall w :: w in wraps ==> w.line >= |lines|
    ensures ApplyAll(lines, wraps, hash) == lines
  {
    if wraps != [] {
      assert wraps[|wraps| - 1] in wraps && forall w :: w in wraps[..|wraps| - 1] ==> w in wraps;
      ApplyNothing(lines, wraps[..|wraps| - 1], hash);
    }
  }

  /** What the wraps from line `i` on do. */
  ghost predicate Applied(lines: seq<string>, wraps: seq<Wrap>, ordered: seq<Wrap>, hash: string, i: nat)
    requires i <= |lines|
  {
    ApplyAll(lines, Keep(FromLine(i), ordered), hash) == lines[..i] + JoinedBelow(lines, wraps, hash, i)
  }

  lemma AppliedNone(lines: seq<string>, wraps: seq<Wrap>, ordered: seq<Wrap>, hash: string)
    ensures Applied(lines, wraps, ordered, hash, |lines|)
  {
    AllFrom(|lines|, ordered);
    ApplyNothing(lines, Keep(FromLine(|lines|), ordered), hash);
    assert lines[..|lines|] + [] == lines;
  }

  lemma {:induction false} AppliedStep(lines: seq<string>, wraps: seq<Wrap>, ordered: seq<Wrap>, hash: string, i: nat)
    requires i < |lines| && SortedBy(LaterFirst, ordered) && Keep(AtLine(i), ordered) == Keep(AtLine(i), wraps)
    requires Applied(lines, wraps, ordered, hash, i + 1)
    ensures Applied(lines, wraps, ordered, hash, i)
  {
    var below, own := JoinedBelow(lines, wraps, hash, i + 1), Keep(AtLine(i), wraps);
    KeepSplits(i, ordered);
    AllAt(i, wraps);
    ApplyJoins(lines, Keep(FromLine(i + 1), ordered), own, hash);
    OneLineLess(lines, i, below);
    ApplyGroup(lines[..i], [lines[i]] + below, own, hash);
  }

  lemma OneLineLess(lines: seq<string>, i: nat, below: seq<string>)
    requires i < |lines|
    ensures lines[..i + 1] + below == lines[..i] + ([lines[i]] + below)
  {
  }

  /** The wraps for each line are in the same order. */
  ghost predicate SameGroups(wraps: seq<Wrap>, ordered: seq<Wrap>) {
    forall i: nat :: Keep(AtLine(i), ordered) == Keep(AtLine(i), wraps)
  }

  lemma {:induction false} AppliedFrom(lines: seq<string>, wraps: seq<Wrap>, ordered: seq<Wrap>, hash: string, i: nat)
    requires i <= |lines| && SortedBy(LaterFirst, ordered) && SameGroups(wraps, ordered)
    ensures Applied(lines, wraps, ordered, hash, i)
    decreases |lines| - i
  {
    if i == |lines| {
      AppliedNone(lines, wraps, ordered, hash);
    } else {
      AppliedFrom(lines, wraps, ordered, hash, i + 1);
      AppliedStep(lines, wraps, ordered, hash, i);
    }
  }

  lemma {:induction false} SameGroup(wraps: seq<Wrap>, i: nat)
    ensures Keep(AtLine(i), SortBy(LaterFirst, wraps)) == Keep(AtLine(i), wraps)
  {
    SortStable(LaterFirst, AtLine(i), wraps);
  }

  /** From the last line up, every line is joined with what follows it as the evidence for its number says. */
  lemma {:induction false} WrapsExactly(text: string, wraps: seq<Wrap>, hash: string)
    ensures Wrapped(text, wraps, hash) == JoinLines(JoinedBelow(Lines(text), wraps, hash, 0))
  {
    var ordered := SortBy(LaterFirst, wraps);
    WrapOrder();
    SortBySorts(LaterFirst, wraps);
    forall i: nat ensures Keep(AtLine(i), ordered) == Keep(AtLine(i), wraps) { SameGroup(wraps, i); }
    AppliedFrom(Lines(text), wraps, ordered, hash, 0);
    AllKept(ordered);
    assert Lines(text)[..0] + JoinedBelow(Lines(text), wraps, hash, 0) == JoinedBelow(Lines(text), wraps, hash, 0);
  }

  // ----- the whole pass -----

  /** The places of the lines that no evidence removes. */
  predicate ArePlaces(gone: seq<bool>, places: seq<nat>) {
    && (forall j :: 0 <= j < |places| ==> places[j] < |gone| && !gone[places[j]])
    && (forall i, j :: 0 <= i < j < |places| ==> places[i] < places[j])
    && forall k :: 0 <= k < |gone| && !gone[k] ==> k in places
  }

  function AtPlaces(lines: seq<string>, places: seq<nat>): seq<string>
    requires forall j :: 0 <= j < |places| ==> places[j] < |lines|
  {
    seq(|places|, j requires 0 <= j < |places| => lines[places[j]])
  }

  /** The places of the lines that stay among the first `n`, and these lines. */
  predicate PlacesOf(lines: seq<string>, gone: seq<bool>, n: nat, places: seq<nat>) {
    && n <= |lines| == |gone| && ArePlaces(gone[..n], places) && (forall j :: 0 <= j < |places| ==> places[j] < |lines|)
    && Staying(lines, gone, n) == AtPlaces(lines, places)
  }

  lemma {:induction false} StayingPlaces(lines: seq<string>, gone: seq<bool>, n: nat) returns (places: seq<nat>)
    requires |gone| == |lines| && n <= |lines|
    ensures PlacesOf(lines, gone, n, places)
  {
    if n == 0 {
      places := NoPlaces(lines, gone);
    } else {
      var before := StayingPlaces(lines, gone, n - 1);
      places := PlaceStep(lines, gone, n - 1, before);
    }
  }

  lemma NoPlaces(lines: seq<string>, gone: seq<bool>) returns (places: seq<nat>)
    requires |gone| == |lines|
    ensures PlacesOf(lines, gone, 0, places)
  {
    places := [];
  }

  lemma PlaceStep(lines: seq<string>, gone: seq<bool>, n: nat, before: seq<nat>) returns (places: seq<nat>)
    requires n < |lines| == |gone| && PlacesOf(lines, gone, n, before)
    ensures PlacesOf(lines, gone, n + 1, places)
  {
    PlacesMore(gone, before, n);
    if !gone[n] { OnePlaceMore(lines, before, n); }
    places := if gone[n] then before else before + [n];
  }

  lemma OnePlaceMore(lines: seq<string>, places: seq<nat>, n: nat)
    requires n < |lines| && forall j :: 0 <= j < |places| ==> places[j] < |lines|
    ensures AtPlaces(lines, places + [n]) == AtPlaces(lines, places) + [lines[n]]
  {
  }

  lemma RemainingPlaces(tools: Tools, lines: seq<string>, evidence: seq<LineEvidence>, hash: string)
      returns (places: seq<nat>)
    ensures ArePlaces(Gone(tools, lines, evidence, hash), places)
    ensures forall j :: 0 <= j < |places| ==> places[j] < |lines|
    ensures Remaining(tools, lines, evidence, hash, |lines|) == AtPlaces(lines, places)
  {
    var gone := Gone(tools, lines, evidence, hash);
    RemainingStays(tools, lines, evidence, hash, |lines|);
    places := StayingPlaces(lines, gone, |lines|);
    assert gone[..|lines|] == gone;
  }

  lemma PlacesMore(gone: seq<bool>, places: seq<nat>, n: nat)
    requires n < |gone| && ArePlaces(gone[..n], places)
    ensures ArePlaces(gone[..n + 1], if gone[n] then places else places + [n])
  {
    assert gone[..n + 1] == gone[..n] + [gone[n]];
    if gone[n] { PlacesKept(gone[..n], places); } else { PlacesGrow(gone[..n], places); }
  }

  lemma PlacesKept(front: seq<bool>, places: seq<nat>)
    requires ArePlaces(front, places)
    ensures ArePlaces(front + [true], places)
  {
  }

  lemma PlacesGrow(front: seq<bool>, places: seq<nat>)
    requires ArePlaces(front, places)
    ensures ArePlaces(front + [false], places + [|front|])
  {
    var more := places + [|front|];
    assert more[|places|] == |front|;
    forall k | 0 <= k < |front + [false]| && !(front + [false])[k] ensures k in more {
      if k < |front| { assert k in places; }
    }
  }

  lemma {:induction false} JoinedLines(lines: seq<string>)
    requires lines != [] && forall l :: l in lines ==> OneLine(l)
    ensures Lines(JoinLines(lines)) == lines
  {
    var front, last := lines[..|lines| - 1], lines[|lines| - 1];
    assert lines == front + [last] && last in lines;
    OneLineLines(last);
    if front != [] {
      assert forall l :: l in front ==> l in lines;
      JoinedLines(front);
      LinesCut(JoinLines(front), last);
    }
  }

  lemma {:induction false} SentenceOneLine(line: string)
    requires OneLine(line)
    ensures OneLine(Sentence(WordsOf(Blank, line)))
  {
    CleanLineIsSentence(line);
    CleanLineTidy(line);
  }

  /** The composed text with its separators as dots, and its lines with single blanks between their words. */
  predicate CleanedLines(composed: string, dotted: string, lines: seq<string>) {
    && Dotted(composed, dotted) && |lines| == |TextLines(dotted)|
    && forall i :: 0 <= i < |lines| ==> lines[i] == Sentence(WordsOf(Blank, TextLines(dotted)[i]))
  }

  lemma {:induction false} CleanedLinesKept(tools: Tools, text: string, dotted: string, lines: seq<string>)
    requires CleanedLines(tools.nfc(text), dotted, lines)
    ensures lines != [] && Lines(JoinLines(lines)) == lines
  {
    LinesAreTextLines(dotted);
    LinesJoin(UnixLines(dotted));
    forall l | l in lines ensures OneLine(l) {
      var i :| 0 <= i < |lines| && lines[i] == l;
      assert TextLines(dotted)[i] in Lines(UnixLines(dotted));
      SentenceOneLine(TextLines(dotted)[i]);
    }
    JoinedLines(lines);
  }

  /** The normalizer, step by step: clean the lines, join the reviewed wraps, join the soft wraps, drop the lines that
      evidence names, and thin out the line ends. */
  lemma NormalizedExactly(tools: Tools, text: string, evidence: seq<LineEvidence>, wraps: seq<Wrap>)
      returns (dotted: string, lines: seq<string>, softened: string, places: seq<nat>, thinned: string,
               before: string, after: string)
    ensures CleanedLines(tools.nfc(text), dotted, lines)
    ensures HalvesJoined(JoinLines(JoinedBelow(lines, wraps, tools.sha256(text), 0)), softened)
            && NoHalves(softened)
    ensures ArePlaces(Gone(tools, Lines(softened), evidence, tools.sha256(text)), places)
    ensures Thinned(JoinLines(AtPlaces(Lines(softened), places)), thinned) && NoThreeEnds(thinned)
    ensures OnlyEnds(before) && OnlyEnds(after) && Stripped(Normalized(tools, text, evidence, wraps))
    ensures thinned == before + Normalized(tools, text, evidence, wraps) + after
  {
    var hash := tools.sha256(text);
    dotted, lines := PreparedExactly(tools, text);
    CleanedLinesKept(tools, text, dotted, lines);
    WrapsExactly(Prepared(tools, text), wraps, hash);
    softened := Softened(tools, text, wraps);
    SoftenExactly(Wrapped(Prepared(tools, text), wraps, hash), softened);
    places := RemainingPlaces(tools, Lines(softened), evidence, hash);
    thinned, before, after := ResultThinned(tools, text, evidence, wraps);
  }
}
