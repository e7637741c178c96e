/** `normalize_text` as a whole (src/ingestion/normalize.py). */
module NormalizedText {
  import opened ComposedText
  import opened NormalForms
  import opened Normalizer
  import opened Sorting
  import opened Strings
  import opened UncoveredWraps
  import opened Wrappers

  /** Unicode composition (NFC) and the digest of a text. */
  datatype Tools = Tools(nfc: string -> string, sha256: string -> string)

  // ----- repeated lines -----

  /** On more than half of the pages, inside the top or bottom tenth. */
  predicate SupportsRemoval(e: LineEvidence) { e.occurrences * 2 > e.pages && (e.y1 <= 0.10 || e.y0 >= 0.90) }

  /** `_normalize_evidence_text` */
  function EvidenceText(tools: Tools, text: string): string { CleanLine(UnixLines(Translate(tools.nfc(text)))) }

  /** The evidence names line `k`: by its number, or because no other line has its text. */
  predicate Names(tools: Tools, lines: seq<string>, e: LineEvidence, hash: string, k: nat)
    requires k < |lines|
  {
    && SupportsRemoval(e) && e.hash == hash && lines[k] == EvidenceText(tools, e.text)
    && match e.line
       case Some(i) => i == k
       case None => forall j :: 0 <= j < |lines| && lines[j] == lines[k] ==> j == k
  }

  predicate Removed(tools: Tools, lines: seq<string>, evidence: seq<LineEvidence>, hash: string, k: nat)
    requires k < |lines|
  {
    exists i :: 0 <= i < |evidence| && Names(tools, lines, evidence[i], hash, k)
  }

  function Remaining(tools: Tools, lines: seq<string>, evidence: seq<LineEvidence>, hash: string, n: nat): seq<string>
    requires n <= |lines|
  {
    if n == 0 then []
    else
      Remaining(tools, lines, evidence, hash, n - 1)
      + if Removed(tools, lines, evidence, hash, n - 1) then [] else [lines[n - 1]]
  }

  function Matching(lines: seq<string>, text: string): seq<nat> { MatchingUpTo(lines, text, |lines|) }

  function MatchingUpTo(lines: seq<string>, text: string, n: nat): seq<nat>
    requires n <= |lines|
  {
    if n == 0 then [] else MatchingUpTo(lines, text, n - 1) + if lines[n - 1] == text then [n - 1] else []
  }

  lemma {:induction false} MatchingExactly(lines: seq<string>, text: string, n: nat)
    requires n <= |lines|
    ensures forall k :: k in MatchingUpTo(lines, text, n) <==> 0 <= k < n && lines[k] == text
    ensures forall i, j :: 0 <= i < j < |MatchingUpTo(lines, text, n)| ==>
              MatchingUpTo(lines, text, n)[i] < MatchingUpTo(lines, text, n)[j]
  {
    if n > 0 {
      MatchingExactly(lines, text, n - 1);
      var m := MatchingUpTo(lines, text, n - 1);
      forall i | 0 <= i < |m| ensures m[i] < n - 1 { assert m[i] in m; }
    }
  }

  lemma SingleMatch(lines: seq<string>, text: string)
    ensures var m := Matching(lines, text);
            if |m| == 1 then
              m[0] < |lines| && lines[m[0]] == text && forall j :: 0 <= j < |lines| && lines[j] == text ==> j == m[0]
            else
              forall k :: 0 <= k < |lines| && lines[k] == text ==>
                exists j :: 0 <= j < |lines| && lines[j] == text && j != k
  {
    MatchingExactly(lines, text, |lines|);
    var m := Matching(lines, text);
    if |m| == 1 {
      assert m[0] in m;
      assert forall j :: 0 <= j < |lines| && lines[j] == text ==> j in m;
    } else {
      forall k | 0 <= k < |lines| && lines[k] == text
        ensures exists j :: 0 <= j < |lines| && lines[j] == text && j != k {
        assert k in m;
        var other := if m[0] == k then m[1] else m[0];
        assert other in m && m[0] < m[1];
      }
    }
  }

  /** The lines that one piece of evidence names. */
  lemma NamedLines(tools: Tools, lines: seq<string>, e: LineEvidence, hash: string, k: nat)
    requires k < |lines|
    ensures var text, m := EvidenceText(tools, e.text), Matching(lines, EvidenceText(tools, e.text));
            Names(tools, lines, e, hash, k)
            <==> SupportsRemoval(e) && e.hash == hash
                 && match e.line case Some(i) => i == k && lines[i] == text case None => |m| == 1 && m[0] == k
  {
    SingleMatch(lines, EvidenceText(tools, e.text));
  }

  /** The loop over the repeated lines: exactly the lines that some evidence names. */
  method RemovableIndexes(tools: Tools, lines: seq<string>, evidence: seq<LineEvidence>, hash: string)
      returns (r: set<nat>)
    ensures forall k :: k in r <==> 0 <= k < |lines| && Removed(tools, lines, evidence, hash, k)
  {
    r := {};
    for i := 0 to |evidence|
      invariant forall k ::
                  k in r <==> 0 <= k < |lines| && exists j :: 0 <= j < i && Names(tools, lines, evidence[j], hash, k)
    {
      var e := evidence[i];
      ghost var before := r;
      var text := EvidenceText(tools, e.text);
      if SupportsRemoval(e) && e.hash == hash {
        var m := Matching(lines, text);
        SingleMatch(lines, text);
        if e.line.Some? {
          if e.line.value < |lines| && lines[e.line.value] == text { r := r + {e.line.value}; }
        } else if |m| == 1 {
          r := r + {m[0]};
        }
      }
      forall k: nat | k < |lines| ensures k in r <==> k in before || Names(tools, lines, e, hash, k) {
        NamedLines(tools, lines, e, hash, k);
      }
    }
  }

  // ----- the whole pass -----

  function Prepared(tools: Tools, text: string): string { CleanLines(UnixLines(Translate(tools.nfc(text)))) }

  function Softened(tools: Tools, text: string, wraps: seq<Wrap>): string {
    Soften(Wrapped(Prepared(tools, text), wraps, tools.sha256(text)))
  }

  function Kept(tools: Tools, text: string, evidence: seq<LineEvidence>, wraps: seq<Wrap>): string {
    var lines := Lines(Softened(tools, text, wraps));
    JoinLines(Remaining(tools, lines, evidence, tools.sha256(text), |lines|))
  }

  function Normalized(tools: Tools, text: string, evidence: seq<LineEvidence>, wraps: seq<Wrap>): string {
    Strip(Squeeze(Kept(tools, text, evidence, wraps)))
  }

  lemma {:induction false} NothingRemoved(tools: Tools, lines: seq<string>, evidence: seq<LineEvidence>, hash: string,
                                          n: nat)
    requires n <= |lines| && forall k :: 0 <= k < |lines| ==> !Removed(tools, lines, evidence, hash, k)
    ensures Remaining(tools, lines, evidence, hash, n) == lines[..n]
  {
    if n > 0 {
      NothingRemoved(tools, lines, evidence, hash, n - 1);
      assert lines[..n] == lines[..n - 1] + [lines[n - 1]];
    }
  }

  /** The lines that no evidence removes. */
  method KeepLines(tools: Tools, lines: seq<string>, evidence: seq<LineEvidence>, hash: string, removable: set<nat>)
      returns (kept: seq<string>)
    requires forall k :: k in removable <==> 0 <= k < |lines| && Removed(tools, lines, evidence, hash, k)
    ensures kept == Remaining(tools, lines, evidence, hash, |lines|)
  {
    kept := [];
    for i := 0 to |lines|
      invariant kept == Remaining(tools, lines, evidence, hash, i)
    {
      if i !in removable { kept := kept + [lines[i]]; }
    }
  }

  /** `normalize_text`. */
  method NormalizeText(tools: Tools, text: string, evidence: seq<LineEvidence>, wraps: seq<Wrap>) returns (r: string)
    ensures r == Normalized(tools, text, evidence, wraps)
  {
    var hash := tools.sha256(text);
    r := UnixLines(Translate(tools.nfc(text)));
    r := CleanLines(r);
    r := ApplyLexicalWraps(r, wraps, hash);
    r := Soften(r);
    var lines := Lines(r);
    var removable := RemovableIndexes(tools, lines, evidence, hash);
    LinesJoin(r);
    if removable != {} {
      var kept := KeepLines(tools, lines, evidence, hash, removable);
      r := JoinLines(kept);
    } else {
      NothingRemoved(tools, lines, evidence, hash, |lines|);
      assert lines[..|lines|] == lines;
    }
    r := Strip(Squeeze(r));
  }

  // ----- what every result looks like -----

  lemma {:induction false} JoinedTidy(before: char, a: string, b: string)
    requires Joined(a, b) && TidyAfter(before, a)
    ensures TidyAfter(before, b)
    decreases |a|
  {
    if a != "" {
      if Joined(a[1..], b[1..]) {
        JoinedTidy(a[0], a[1..], b[1..]);
      } else {
        assert a[1..][1..] == a[2..] && a[2..][1..] == a[3..];
        assert TidyAfter(a[1], a[2..]) && TidyAfter(a[2], a[3..]);
        JoinedTidy(a[0], a[3..], b[1..]);
      }
    }
  }

  lemma {:induction false} JoinedChars(a: string, b: string)
    requires Joined(a, b)
    ensures forall c :: c in b ==> c in a
    decreases |a|
  {
    if a != "" {
      assert b == [b[0]] + b[1..] && a[0] in a;
      if Joined(a[1..], b[1..]) { JoinedChars(a[1..], b[1..]); } else { JoinedChars(a[3..], b[1..]); }
    }
  }

  lemma {:induction false} RemainingLines(tools: Tools, lines: seq<string>, evidence: seq<LineEvidence>, hash: string,
                                          n: nat)
    requires n <= |lines|
    ensures forall l :: l in Remaining(tools, lines, evidence, hash, n) ==> l in lines
  {
    if n > 0 { RemainingLines(tools, lines, evidence, hash, n - 1); }
  }

  lemma PreparedTidy(tools: Tools, text: string)
    ensures Tidy(Prepared(tools, text)) && Plain(Prepared(tools, text))
  {
    Translated(tools.nfc(text));
    Unixed(Translate(tools.nfc(text)));
    CleanLinesTidy(UnixLines(Translate(tools.nfc(text))));
  }

  lemma SoftenedTidy(tools: Tools, text: string, wraps: seq<Wrap>)
    requires forall w :: w in wraps ==> WrapValid(w)
    ensures Tidy(Softened(tools, text, wraps)) && Plain(Softened(tools, text, wraps))
            && NoSoftWrap(Softened(tools, text, wraps))
  {
    var prepared := Prepared(tools, text);
    PreparedTidy(tools, text);
    var wrapped := Wrapped(prepared, wraps, tools.sha256(text));
    WrapsOnlyJoin(prepared, wraps, tools.sha256(text));
    JoinedTidy('\n', prepared, wrapped);
    JoinedChars(prepared, wrapped);
    SoftenTidy('\n', wrapped);
    SoftenStable(wrapped);
  }

  /** Whatever the evidence, the result is in normal form but for soft wraps; without evidence it is in normal form. */
  lemma ResultNormal(tools: Tools, text: string, evidence: seq<LineEvidence>, wraps: seq<Wrap>)
    requires forall w :: w in wraps ==> WrapValid(w)
    ensures NearlyNormal(Normalized(tools, text, evidence, wraps))
    ensures evidence == [] ==> Normal(Normalized(tools, text, evidence, wraps))
  {
    var softened, hash := Softened(tools, text, wraps), tools.sha256(text);
    SoftenedTidy(tools, text, wraps);
    LinesJoin(softened);
    var lines := Lines(softened);
    var kept := Remaining(tools, lines, evidence, hash, |lines|);
    RemainingLines(tools, lines, evidence, hash, |lines|);
    JoinTidy(lines);
    JoinTidy(kept);
    forall c | c in JoinLines(kept) ensures !Separator(c) && c != '\r' { KeptChar(softened, kept, c); }
    SqueezeTidy('\n', JoinLines(kept));
    SqueezeStable(JoinLines(kept));
    StripKeeps(Squeeze(JoinLines(kept)));
    if evidence == [] {
      NothingRemoved(tools, lines, evidence, hash, |lines|);
      assert lines[..|lines|] == lines;
      SqueezeNoSoftWrap(softened);
    }
  }

  lemma {:induction false} KeptChar(text: string, kept: seq<string>, c: char)
    requires Plain(text) && c in JoinLines(kept) && forall l :: l in kept ==> l in Lines(text)
    ensures !Separator(c) && c != '\r'
  {
    JoinChars(kept, c);
    if c != '\n' {
      var l :| l in kept && c in l;
      LinePlain(text, l);
    }
  }

  // ----- the second pass -----

  lemma {:induction false} NearlyNormalKept(tools: Tools, s: string)
    requires NearlyNormal(s) && Composed(tools.nfc, s)
    ensures Normalized(tools, s, [], []) == Strip(Squeeze(Soften(s)))
  {
    Translated(s);
    Unixed(s);
    CleanLinesTidy(s);
    LinesJoin(s);
    assert SortBy(LaterFirst, []) == [];
    assert Wrapped(s, [], tools.sha256(s)) == s;
    var lines := Lines(Soften(s));
    LinesJoin(Soften(s));
    NothingRemoved(tools, lines, [], tools.sha256(s), |lines|);
    assert lines[..|lines|] == lines;
  }

  /** A composed text is left alone by a pass without evidence exactly when it is in normal form. */
  lemma UnchangedExactly(tools: Tools, s: string)
    requires Composed(tools.nfc, s)
    ensures Normalized(tools, s, [], []) == s <==> Normal(s)
  {
    ResultNormal(tools, s, [], []);
    if Normal(s) {
      NearlyNormalKept(tools, s);
      SoftenStable(s);
      SqueezeStable(s);
    }
  }

  // ----- composed results -----

  lemma {:induction false} KeptComposed(tools: Tools, softened: string, evidence: seq<LineEvidence>, hash: string)
    requires Composition(tools.nfc) && Composed(tools.nfc, softened)
    ensures Composed(tools.nfc, JoinLines(Remaining(tools, Lines(softened), evidence, hash, |Lines(softened)|)))
  {
    var lines := Lines(softened);
    EmptyComposed(tools.nfc, softened);
    LinesJoin(softened);
    JoinComposed(tools.nfc, lines);
    RemainingLines(tools, lines, evidence, hash, |lines|);
    JoinComposed(tools.nfc, Remaining(tools, lines, evidence, hash, |lines|));
  }

  lemma PreparedComposed(tools: Tools, text: string)
    requires Composition(tools.nfc)
    ensures Composed(tools.nfc, Prepared(tools, text))
  {
    var nfc, s := tools.nfc, tools.nfc(text);
    assert Settles(nfc, text);
    assert "" + s == s && "" + Translate(s) == Translate(s) && "" + UnixLines(Translate(s)) == UnixLines(Translate(s));
    TranslateComposed(nfc, "", s);
    UnixComposed(nfc, "", Translate(s));
    CleanLinesComposed(nfc, UnixLines(Translate(s)));
  }

  /** Every pass keeps composed text composed, so every result is. */
  lemma ResultComposed(tools: Tools, text: string, evidence: seq<LineEvidence>, wraps: seq<Wrap>)
    requires Composition(tools.nfc) && forall w :: w in wraps ==> WrapValid(w)
    ensures Composed(tools.nfc, Normalized(tools, text, evidence, wraps))
  {
    var nfc, prepared, hash := tools.nfc, Prepared(tools, text), tools.sha256(text);
    var wrapped := Wrapped(prepared, wraps, hash);
    var kept := Kept(tools, text, evidence, wraps);
    PreparedComposed(tools, text);
    WrapsOnlyJoin(prepared, wraps, hash);
    assert "" + prepared == prepared && "" + wrapped == wrapped && "" + Soften(wrapped) == Soften(wrapped);
    JoinedComposed(nfc, "", prepared, wrapped);
    SoftenComposed(nfc, "", wrapped);
    KeptComposed(tools, Soften(wrapped), evidence, hash);
    assert "" + kept == kept && "" + Squeeze(kept) == Squeeze(kept);
    SqueezeComposed(nfc, "", kept);
    StripLeftComposed(nfc, Squeeze(kept));
    StripRightComposed(nfc, StripLeft(Squeeze(kept)));
  }

  /** Without evidence of repeated lines, a second pass changes nothing. */
  lemma NormalizeIdempotent(tools: Tools, text: string, wraps: seq<Wrap>)
    requires Composition(tools.nfc) && forall w :: w in wraps ==> WrapValid(w)
    ensures Normalized(tools, Normalized(tools, text, [], wraps), [], []) == Normalized(tools, text, [], wraps)
  {
    ResultNormal(tools, text, [], wraps);
    ResultComposed(tools, text, [], wraps);
    UnchangedExactly(tools, Normalized(tools, text, [], wraps));
  }

  // ----- when a removed line uncovers a soft wrap -----

  /** Which lines the evidence removes. */
  function Gone(tools: Tools, lines: seq<string>, evidence: seq<LineEvidence>, hash: string): seq<bool> {
    seq(|lines|, k requires 0 <= k < |lines| => Removed(tools, lines, evidence, hash, k))
  }

  lemma {:induction false} RemainingStays(tools: Tools, lines: seq<string>, evidence: seq<LineEvidence>, hash: string,
                                          n: nat)
    requires n <= |lines|
    ensures Remaining(tools, lines, evidence, hash, n) == Staying(lines, Gone(tools, lines, evidence, hash), n)
  {
    if n > 0 { RemainingStays(tools, lines, evidence, hash, n - 1); }
  }

  /** The result has a soft wrap exactly where the removal of lines uncovers one. */
  lemma SoftWrapExactly(tools: Tools, text: string, evidence: seq<LineEvidence>, wraps: seq<Wrap>)
    requires forall w :: w in wraps ==> WrapValid(w)
    ensures var lines := Lines(Softened(tools, text, wraps));
            NoSoftWrap(Normalized(tools, text, evidence, wraps))
            <==> !Uncovers(lines, Gone(tools, lines, evidence, tools.sha256(text)))
  {
    var softened, hash := Softened(tools, text, wraps), tools.sha256(text);
    var lines := Lines(softened);
    SoftenedTidy(tools, text, wraps);
    LinesJoin(softened);
    RemainingLines(tools, lines, evidence, hash, |lines|);
    var kept := Remaining(tools, lines, evidence, hash, |lines|);
    JoinTidy(lines);
    JoinTidy(kept);
    StripSqueezeWraps(JoinLines(kept));
    RemainingStays(tools, lines, evidence, hash, |lines|);
    StayingWraps(lines, Gone(tools, lines, evidence, hash));
  }

  /** After a pass with any evidence, a pass without evidence changes something exactly when the first one removed
      all lines between a line that ends in a letter and a soft hyphen and a line that starts with a letter. */
  lemma SecondPassExactly(tools: Tools, text: string, evidence: seq<LineEvidence>, wraps: seq<Wrap>)
    requires Composed(tools.nfc, Normalized(tools, text, evidence, wraps)) && forall w :: w in wraps ==> WrapValid(w)
    ensures var r, lines := Normalized(tools, text, evidence, wraps), Lines(Softened(tools, text, wraps));
            Normalized(tools, r, [], []) != r <==> Uncovers(lines, Gone(tools, lines, evidence, tools.sha256(text)))
  {
    ResultNormal(tools, text, evidence, wraps);
    UnchangedExactly(tools, Normalized(tools, text, evidence, wraps));
    SoftWrapExactly(tools, text, evidence, wraps);
  }

  /** ... in particular for every composition. */
  lemma SecondPassComposed(tools: Tools, text: string, evidence: seq<LineEvidence>, wraps: seq<Wrap>)
    requires Composition(tools.nfc) && forall w :: w in wraps ==> WrapValid(w)
    ensures var r, lines := Normalized(tools, text, evidence, wraps), Lines(Softened(tools, text, wraps));
            Normalized(tools, r, [], []) != r <==> Uncovers(lines, Gone(tools, lines, evidence, tools.sha256(text)))
  {
    ResultComposed(tools, text, evidence, wraps);
    SecondPassExactly(tools, text, evidence, wraps);
  }

  /** A header between the two halves of a word: the first pass removes it, and only a second one closes the word. */
  lemma RemovalUncoversSoftWrap(tools: Tools)
    requires Composed(tools.nfc, ['a', SOFT, '\n', '1', '\n', 'b']) && Composed(tools.nfc, "1")
    requires Composed(tools.nfc, ['a', SOFT, '\n', 'b'])
    ensures var text := ['a', SOFT, '\n', '1', '\n', 'b'];
            var r := Normalized(tools, text, [LineEvidence("1", 3, 2, 0.0, 0.05, Some(1), tools.sha256(text))], []);
            r == ['a', SOFT, '\n', 'b'] && Normalized(tools, r, [], []) != r
  {
    var text, r := ['a', SOFT, '\n', '1', '\n', 'b'], ['a', SOFT, '\n', 'b'];
    var e := LineEvidence("1", 3, 2, 0.0, 0.05, Some(1), tools.sha256(text));
    HeaderSoftened(tools);
    HeaderRemoved(tools, e, tools.sha256(text));
    WrapNearlyNormal();
    SqueezeStable(r);
    assert Strip(r) == r && SoftWrap(r);
    UnchangedExactly(tools, r);
  }

  lemma HeaderSoftened(tools: Tools)
    requires Composed(tools.nfc, ['a', SOFT, '\n', '1', '\n', 'b'])
    ensures var text := ['a', SOFT, '\n', '1', '\n', 'b'];
            Softened(tools, text, []) == text && Lines(text) == [['a', SOFT], ['1'], ['b']]
  {
    var text := ['a', SOFT, '\n', '1', '\n', 'b'];
    HeaderTextNormal();
    Translated(text);
    Unixed(text);
    CleanLinesTidy(text);
    LinesJoin(text);
    assert SortBy(LaterFirst, []) == [];
    SoftenStable(text);
    HeaderLines();
  }

  lemma {:induction false} HeaderRemoved(tools: Tools, e: LineEvidence, hash: string)
    requires Composed(tools.nfc, "1") && e == LineEvidence("1", 3, 2, 0.0, 0.05, Some(1), hash)
    ensures JoinLines(Remaining(tools, [['a', SOFT], ['1'], ['b']], [e], hash, 3)) == ['a', SOFT, '\n', 'b']
  {
    var lines: seq<string> := [['a', SOFT], ['1'], ['b']];
    Translated("1");
    Unixed("1");
    assert Tidy("1");
    TidyLineClean("1");
    assert Names(tools, lines, [e][0], hash, 1);
    assert Remaining(tools, lines, [e], hash, 1) == [lines[0]];
    assert Remaining(tools, lines, [e], hash, 2) == [lines[0]];
    assert Remaining(tools, lines, [e], hash, 3) == [lines[0]] + [lines[2]];
    JoinSnoc([lines[0]], lines[2]);
  }

  lemma HeaderTextNormal()
    ensures var text := ['a', SOFT, '\n', '1', '\n', 'b']; Plain(text) && Tidy(text) && NoSoftWrap(text)
  {
    var t := ['a', SOFT, '\n', '1', '\n', 'b'];
    assert t[1..] == [SOFT, '\n', '1', '\n', 'b'] && t[1..][1..] == ['\n', '1', '\n', 'b'];
    assert ['\n', '1', '\n', 'b'][1..] == ['1', '\n', 'b'] && ['1', '\n', 'b'][1..] == ['\n', 'b']
           && ['\n', 'b'][1..] == ['b'];
  }

  lemma {:induction false} LinesSnoc(front: string, c: char, lines: seq<string>, last: string, whole: string,
                                     all: seq<string>)
    requires Lines(front) == lines + [last] && whole == front + [c]
    requires all == if c == '\n' then lines + [last] + [""] else lines + [last + [c]]
    ensures Lines(whole) == all
  {
    assert whole[..|front|] == front && (lines + [last])[..|lines|] == lines;
  }

  lemma HeaderLines()
    ensures Lines(['a', SOFT, '\n', '1', '\n', 'b']) == [['a', SOFT], ['1'], ['b']]
  {
    assert "" + ['1'] == ['1'] && "" + ['b'] == ['b'];
    LinesSnoc([], 'a', [], [], ['a'], [['a']]);
    LinesSnoc(['a'], SOFT, [], ['a'], ['a', SOFT], [['a', SOFT]]);
    LinesSnoc(['a', SOFT], '\n', [], ['a', SOFT], ['a', SOFT, '\n'], [['a', SOFT], ""]);
    LinesSnoc(['a', SOFT, '\n'], '1', [['a', SOFT]], "", ['a', SOFT, '\n', '1'], [['a', SOFT], ['1']]);
    LinesSnoc(['a', SOFT, '\n', '1'], '\n', [['a', SOFT]], ['1'], ['a', SOFT, '\n', '1', '\n'],
              [['a', SOFT], ['1'], ""]);
    LinesSnoc(['a', SOFT, '\n', '1', '\n'], 'b', [['a', SOFT], ['1']], "", ['a', SOFT, '\n', '1', '\n', 'b'],
              [['a', SOFT], ['1'], ['b']]);
  }

  lemma WrapNearlyNormal()
    ensures NearlyNormal(['a', SOFT, '\n', 'b'])
  {
    var r := ['a', SOFT, '\n', 'b'];
    assert r[1..] == [SOFT, '\n', 'b'] && [SOFT, '\n', 'b'][1..] == ['\n', 'b'] && ['\n', 'b'][1..] == ['b'];
  }
}
