/** The checks on case numbers and ids against the patterns of the source (src/corpus/ids.py). */
module CaseIdPatterns {
  import opened CaseIds
  import opened Patterns
  import opened Strings
  import opened TextWords
  import opened Wrappers

  predicate LowerOrDigit(c: char) { IsDigit(c) || IsLower(c) }
  predicate TokenChar(c: char) { IsDigit(c) || IsLower(c) || c == '-' }
  predicate OneToNine(c: char) { '1' <= c <= '9' }
  predicate OneToEight(c: char) { '1' <= c <= '8' }
  predicate Baprs(c: char) { c in "baprs" }
  predicate NotLineEnd(c: char) { c != '\n' }

  function Digits(low: nat, high: nat): Pattern { Times(Class(IsDigit), low, Some(high)) }
  function Hex(n: nat): Pattern { Times(Class(IsHex), n, Some(n)) }
  function AnyText(): Pattern { Times(Class(NotLineEnd), 1, None) }

  // ----- runs joined by hyphens -----

  /** `[ok]+(?:-[ok]+)*` */
  function Runs(ok: char -> bool): Pattern { Then(Times(Class(ok), 1, None), Times(LaterRun(ok), 0, None)) }

  function LaterRun(ok: char -> bool): Pattern { Then(Text("-"), Times(Class(ok), 1, None)) }

  /** A hyphen and a run. */
  predicate IsLater(ok: char -> bool, s: string) { |s| > 1 && s[0] == '-' && All(ok, s[1..]) }

  predicate AllLater(ok: char -> bool, pieces: seq<string>) { forall i :: 0 <= i < |pieces| ==> IsLater(ok, pieces[i]) }

  lemma {:induction false} LaterRunExactly(ok: char -> bool, s: string)
    ensures Matches(LaterRun(ok), s) <==> IsLater(ok, s)
  {
    TextThen("-", Times(Class(ok), 1, None), s);
    if s != "" { RunsExactly(ok, 1, None, s[1..]); }
    assert "-" <= s <==> s != "" && s[0] == '-';
  }

  lemma {:induction false} LaterRunsExactly(ok: char -> bool, s: string)
    ensures Matches(Times(LaterRun(ok), 0, None), s) <==> exists pieces :: s == Concat(pieces) && AllLater(ok, pieces)
  {
    forall x ensures Matches(LaterRun(ok), x) <==> IsLater(ok, x) { LaterRunExactly(ok, x); }
    if Matches(Times(LaterRun(ok), 0, None), s) {
      var pieces := TimesSplits(LaterRun(ok), 0, None, s);
      assert AllLater(ok, pieces);
    }
    if pieces :| s == Concat(pieces) && AllLater(ok, pieces) { TimesJoins(LaterRun(ok), 0, None, pieces); }
  }

  lemma RunHyphenated(ok: char -> bool, run: string)
    requires run != "" && All(ok, run) && !ok('-')
    ensures Hyphenated(run, ok)
  {
  }

  lemma JoinHyphenated(ok: char -> bool, run: string, rest: string)
    requires run != "" && All(ok, run) && !ok('-') && Hyphenated(rest, ok)
    ensures Hyphenated(run + ("-" + rest), ok)
  {
  }

  lemma {:induction false} PiecesHyphenated(ok: char -> bool, run: string, pieces: seq<string>)
    requires run != "" && All(ok, run) && !ok('-') && AllLater(ok, pieces)
    ensures Hyphenated(run + Concat(pieces), ok)
    decreases |pieces|
  {
    if pieces == [] {
      RunHyphenated(ok, run);
      assert run + "" == run;
    } else {
      var next := FirstPiece(ok, pieces);
      PiecesHyphenated(ok, next, pieces[1..]);
      JoinHyphenated(ok, run, next + Concat(pieces[1..]));
    }
  }

  lemma FirstPiece(ok: char -> bool, pieces: seq<string>) returns (next: string)
    requires pieces != [] && AllLater(ok, pieces)
    ensures next != "" && All(ok, next) && AllLater(ok, pieces[1..])
    ensures Concat(pieces) == "-" + (next + Concat(pieces[1..]))
  {
    assert IsLater(ok, pieces[0]);
    next := pieces[0][1..];
    assert pieces[0] == "-" + next;
  }

  lemma {:induction false} HyphenatedPieces(ok: char -> bool, s: string) returns (run: string, pieces: seq<string>)
    requires Hyphenated(s, ok) && !ok('-')
    ensures s == run + Concat(pieces) && run != "" && All(ok, run) && AllLater(ok, pieces)
    decreases |s|
  {
    var k := WordEnd(IsHyphen, s, 0);
    if k == |s| {
      run, pieces := s, [];
      assert s + "" == s;
    } else {
      AfterHyphen(ok, s, k);
      var next, more := HyphenatedPieces(ok, s[k + 1..]);
      run, pieces := s[..k], ["-" + next] + more;
      PiecesGrow(ok, next, more);
      assert s == s[..k] + ("-" + s[k + 1..]);
    }
  }

  lemma {:induction false} PiecesGrow(ok: char -> bool, next: string, more: seq<string>)
    requires next != "" && All(ok, next) && AllLater(ok, more)
    ensures Concat(["-" + next] + more) == "-" + (next + Concat(more)) && AllLater(ok, ["-" + next] + more)
  {
    assert IsLater(ok, "-" + next);
    assert (["-" + next] + more)[1..] == more;
  }

  predicate IsHyphen(c: char) { c == '-' }

  lemma AfterHyphen(ok: char -> bool, s: string, k: nat)
    requires Hyphenated(s, ok) && k < |s| && s[k] == '-'
    ensures Hyphenated(s[k + 1..], ok)
  {
    var rest := s[k + 1..];
    assert s[k + 1] != '-' && rest[|rest| - 1] == s[|s| - 1];
    assert forall i :: 0 <= i < |rest| ==> rest[i] == s[k + 1 + i];
  }

  /** Runs joined by single hyphens are what the pattern reads. */
  lemma {:induction false} HyphenatedExactly(ok: char -> bool, s: string)
    requires !ok('-')
    ensures Matches(Runs(ok), s) <==> Hyphenated(s, ok)
  {
    if Matches(Runs(ok), s) {
      var k := ThenSplits(Times(Class(ok), 1, None), Times(LaterRun(ok), 0, None), s);
      RunsJoin(ok, s, k);
    }
    if Hyphenated(s, ok) {
      var run, pieces := HyphenatedPieces(ok, s);
      RunsSplit(ok, run, pieces);
    }
  }

  lemma {:induction false} RunsJoin(ok: char -> bool, s: string, k: nat)
    requires !ok('-') && k <= |s| && Matches(Times(Class(ok), 1, None), s[..k])
    requires Matches(Times(LaterRun(ok), 0, None), s[k..])
    ensures Hyphenated(s, ok)
  {
    RunsExactly(ok, 1, None, s[..k]);
    LaterRunsExactly(ok, s[k..]);
    var pieces :| s[k..] == Concat(pieces) && AllLater(ok, pieces);
    PiecesHyphenated(ok, s[..k], pieces);
    assert s == s[..k] + s[k..];
  }

  lemma {:induction false} RunsSplit(ok: char -> bool, run: string, pieces: seq<string>)
    requires run != "" && All(ok, run) && AllLater(ok, pieces)
    ensures Matches(Runs(ok), run + Concat(pieces))
  {
    RunsExactly(ok, 1, None, run);
    LaterRunsExactly(ok, Concat(pieces));
    ThenJoins(Times(Class(ok), 1, None), Times(LaterRun(ok), 0, None), run, Concat(pieces));
  }

  // ----- reserved forms -----

  /** `[0-9]*-[0-9a-f]{8}`, with at least `low` digits */
  function PageAndHash(low: nat): Pattern {
    Then(Times(Class(IsDigit), low, None), Then(Text("-"), Hex(8)))
  }

  lemma {:induction false} HashExactly(s: string)
    ensures Matches(Then(Text("-"), Hex(8)), s) <==> |s| == 9 && s[0] == '-' && AllHex(s[1..])
  {
    TextThen("-", Hex(8), s);
    assert "-" <= s <==> s != "" && s[0] == '-';
    if s != "" { RunsExactly(IsHex, 8, Some(8), s[1..]); }
  }

  predicate PageAndHashAt(s: string, k: nat) {
    k + 9 == |s| && AllDigits(s[..k]) && s[k] == '-' && AllHex(s[k + 1..])
  }

  lemma {:induction false} PageAndHashExactly(low: nat, s: string)
    ensures Matches(PageAndHash(low), s) <==> |s| >= low + 9 && PageAndHashAt(s, |s| - 9)
  {
    RunThen(IsDigit, low, None, Then(Text("-"), Hex(8)), s);
    forall k | 0 <= k <= |s|
      ensures All(IsDigit, s[..k]) && Matches(Then(Text("-"), Hex(8)), s[k..]) <==> PageAndHashAt(s, k)
    {
      HashAt(s, k);
    }
  }

  lemma HashAt(s: string, k: nat)
    requires k <= |s|
    ensures Matches(Then(Text("-"), Hex(8)), s[k..]) <==> k + 9 == |s| && s[k] == '-' && AllHex(s[k + 1..])
  {
    HashExactly(s[k..]);
    if k + 9 == |s| { assert s[k..][1..] == s[k + 1..]; }
  }

  /** `-p[1-9][0-9]*-[0-9a-f]{8}` */
  function DuplicateTail(): Pattern { Then(Text("-p"), Then(Class(OneToNine), PageAndHash(0))) }

  lemma {:induction false} DuplicateTailExactly(t: string)
    ensures Matches(DuplicateTail(), t) <==> IsDuplicateTail(t)
  {
    TextThen("-p", Then(Class(OneToNine), PageAndHash(0)), t);
    assert "-p" <= t <==> |t| >= 2 && t[0] == '-' && t[1] == 'p';
    if |t| >= 2 {
      ClassThen(OneToNine, PageAndHash(0), t[2..]);
      if |t| >= 3 {
        PageAndHashExactly(0, t[3..]);
        if |t| >= 12 { SliceOfRest(t, 3); }
        assert t[2..][1..] == t[3..];
      }
    }
  }

  lemma SliceOfRest(t: string, k: nat)
    requires k + 9 <= |t|
    ensures PageAndHashAt(t[k..], |t| - k - 9) <==>
            AllDigits(t[k..|t| - 9]) && t[|t| - 9] == '-' && AllHex(t[|t| - 8..])
  {
    assert t[k..][..|t| - k - 9] == t[k..|t| - 9] && t[k..][|t| - k - 8..] == t[|t| - 8..];
  }

  /** `.+-p[1-9][0-9]*-[0-9a-f]{8}` */
  function Duplicate(): Pattern { Then(AnyText(), DuplicateTail()) }

  /** In a text of one line, the suffix splits off exactly where the pattern's base ends. */
  lemma {:induction false} DuplicateExactly(s: string)
    requires '\n' !in s
    ensures Matches(Duplicate(), s) <==> SplitDuplicate(s).Some?
    ensures forall k :: 0 <= k <= |s| && Matches(AnyText(), s[..k]) && Matches(DuplicateTail(), s[k..]) ==>
              SplitDuplicate(s) == Some(k)
  {
    forall k | 0 <= k <= |s|
      ensures Matches(AnyText(), s[..k]) && Matches(DuplicateTail(), s[k..]) <==> SplitDuplicate(s) == Some(k)
    {
      RunsExactly(NotLineEnd, 1, None, s[..k]);
      DuplicateTailExactly(s[k..]);
      SplitDuplicateExact(s, k);
      forall i | 0 <= i < k ensures NotLineEnd(s[i]) { assert s[i] in s; }
    }
    if SplitDuplicate(s).Some? {
      var k := SplitDuplicate(s).value;
      assert Matches(AnyText(), s[..k]) && Matches(DuplicateTail(), s[k..]);
    }
  }

  /** `p[0-9]+-[0-9a-f]{8}` */
  function LikeTail(): Pattern { Then(Text("p"), PageAndHash(1)) }

  lemma {:induction false} LikeTailExactly(t: string)
    ensures Matches(LikeTail(), t) <==> IsDuplicateLikeTail("-" + t)
  {
    TextThen("p", PageAndHash(1), t);
    assert "p" <= t <==> t != "" && t[0] == 'p';
    if t != "" { PageAndHashExactly(1, t[1..]); }
    LikeTailChecked(t);
  }

  lemma LikeTailChecked(t: string)
    ensures IsDuplicateLikeTail("-" + t) <==> |t| >= 11 && t[0] == 'p' && PageAndHashAt(t[1..], |t| - 10)
  {
    if |t| >= 11 {
      SliceOfRest("-" + t, 2);
      assert ("-" + t)[2..] == t[1..];
    }
  }

  /** `(?:.+-)?p[0-9]+-[0-9a-f]{8}` */
  function DuplicateLike(): Pattern { Then(Maybe(Then(AnyText(), Text("-"))), LikeTail()) }

  lemma {:induction false} LeadExactly(s: string)
    ensures Matches(Maybe(Then(AnyText(), Text("-"))), s) <==> s == "" || IsLead(s)
  {
    RunThen(NotLineEnd, 1, None, Text("-"), s);
    forall k | 0 <= k <= |s| ensures Matches(Text("-"), s[k..]) <==> k + 1 == |s| && s[k] == '-' { OneHyphen(s, k); }
    if |s| > 1 { assert Within(|s| - 1, 1, None); }
  }

  /** Some text on one line, and a hyphen. */
  predicate IsLead(s: string) { |s| > 1 && s[|s| - 1] == '-' && All(NotLineEnd, s[..|s| - 1]) }

  lemma {:induction false} OneHyphen(s: string, k: nat)
    requires k <= |s|
    ensures Matches(Text("-"), s[k..]) <==> k + 1 == |s| && s[k] == '-'
  {
    if k < |s| { assert s[k..][0] == s[k]; }
  }

  /** In a text of one line, the check for suffix look-alikes is the pattern. */
  lemma {:induction false} DuplicateLikeExactly(s: string)
    requires '\n' !in s
    ensures Matches(DuplicateLike(), s) <==> IsDuplicateLike(s)
  {
    forall k | 0 <= k <= |s|
      ensures Matches(Maybe(Then(AnyText(), Text("-"))), s[..k]) && Matches(LikeTail(), s[k..]) <==> LikeAt(s, k)
    {
      LikeAtExactly(s, k);
    }
    assert s[0..] == s;
    if IsDuplicateLike(s) {
      if IsDuplicateLikeTail("-" + s) {
        assert LikeAt(s, 0);
      } else {
        var k :| 0 < k < |s| && IsDuplicateLikeTail(s[k..]);
        assert "-" + s[k + 1..] == s[k..];
        assert LikeAt(s, k + 1);
      }
    }
  }

  lemma {:induction false} LikeAtExactly(s: string, k: nat)
    requires '\n' !in s && k <= |s|
    ensures Matches(Maybe(Then(AnyText(), Text("-"))), s[..k]) && Matches(LikeTail(), s[k..]) <==> LikeAt(s, k)
  {
    LeadExactly(s[..k]);
    LikeTailExactly(s[k..]);
    forall i | 0 <= i < k ensures NotLineEnd(s[i]) { assert s[i] in s; }
    if k > 1 { assert s[k - 1] == '-' ==> "-" + s[k..] == s[k - 1..]; }
  }

  /** The look-alike starts at `k`, at the front or behind a hyphen. */
  predicate LikeAt(s: string, k: nat)
    requires k <= |s|
  {
    if k == 0 then IsDuplicateLikeTail("-" + s)
    else k > 1 && s[k - 1] == '-' && IsDuplicateLikeTail(s[k - 1..])
  }

  /** `opaque-[0-9a-f]{12}` */
  function Opaque(): Pattern { Then(Text("opaque-"), Hex(12)) }

  lemma {:induction false} OpaqueExactly(s: string)
    ensures Matches(Opaque(), s) <==> IsReservedOpaque(s)
  {
    TextThen("opaque-", Hex(12), s);
    if |s| >= 7 {
      RunsExactly(IsHex, 12, Some(12), s[7..]);
      assert "opaque-" <= s <==> s[..7] == "opaque-";
    }
  }

  /** `senqa-[0-9]{4}-[a-z0-9]+(?:-[a-z0-9]+)*` */
  function CanonicalId(): Pattern {
    Then(Text("senqa-"), Then(Digits(4, 4), Then(Text("-"), Runs(IsBodyChar))))
  }

  lemma {:induction false} CanonicalIdExactly(id: string)
    ensures Matches(CanonicalId(), id) <==>
            |id| > 11 && id[..6] == "senqa-" && AllDigits(id[6..10]) && id[10] == '-'
              && Hyphenated(id[11..], IsBodyChar)
  {
    TextThen("senqa-", Then(Digits(4, 4), Then(Text("-"), Runs(IsBodyChar))), id);
    if |id| >= 6 {
      assert "senqa-" <= id <==> id[..6] == "senqa-";
      YearAndBody(id[6..]);
      if |id| > 11 { assert id[6..][..4] == id[6..10] && id[6..][5..] == id[11..]; }
    }
  }

  lemma {:induction false} YearAndBody(s: string)
    ensures Matches(Then(Digits(4, 4), Then(Text("-"), Runs(IsBodyChar))), s) <==>
            |s| > 5 && AllDigits(s[..4]) && s[4] == '-' && Hyphenated(s[5..], IsBodyChar)
  {
    RunThen(IsDigit, 4, Some(4), Then(Text("-"), Runs(IsBodyChar)), s);
    if |s| >= 4 {
      TextThen("-", Runs(IsBodyChar), s[4..]);
      assert "-" <= s[4..] <==> |s| > 4 && s[4] == '-';
      if |s| > 4 {
        assert s[4..][1..] == s[5..];
        HyphenatedExactly(IsBodyChar, s[5..]);
      }
    }
  }
}
