/** Text layers and their correction history (src/ingestion/normalize.py). */
module TextLayers {
  import opened Patterns
  import opened Wrappers

  /** A timestamp as an instant, and whether it is given in UTC. */
  datatype Timestamp = Timestamp(instant: int, utc: bool)

  datatype Correction = Correction(reviewer: string, at: Timestamp, reason: string, before: string, after: string)

  datatype Layers = Layers(raw: string, normalized: string, corrected: string, corrections: seq<Correction>)

  predicate Alphanumeric(c: char) { 'a' <= c <= 'z' || '0' <= c <= '9' }

  /** At most 64 characters, alphanumeric at both ends, the `extra` characters only in between. */
  predicate Identifier(s: string, extra: set<char>) {
    1 <= |s| <= 64 && Alphanumeric(s[0]) && Alphanumeric(s[|s| - 1]) && forall i :: 0 <= i < |s| ==>
      Alphanumeric(s[i]) || s[i] in extra
  }

  /** `Correction`'s own validator. */
  predicate CorrectionValid(c: Correction) {
    Identifier(c.reviewer, {'.', '_', '-'}) && Identifier(c.reason, {'_', '-'}) && c.at.utc && c.before != c.after
  }

  /** The digest before correction `i`, and after the last one for `i == |corrections|`. */
  function Boundary(sha: string -> string, l: Layers, i: nat): string
    requires i <= |l.corrections|
  {
    if i == 0 then sha(l.normalized) else l.corrections[i - 1].after
  }

  /** Correction `i` is valid and starts where the one before it ended. */
  predicate Linked(sha: string -> string, l: Layers, i: nat)
    requires i < |l.corrections|
  {
    CorrectionValid(l.corrections[i]) && l.corrections[i].before == Boundary(sha, l, i)
  }

  /** The validators of `TextLayers` and its corrections. */
  predicate LayersValid(sha: string -> string, l: Layers) {
    && (forall i :: 0 <= i < |l.corrections| ==> Linked(sha, l, i))
    && (forall i :: 1 <= i < |l.corrections| ==> l.corrections[i - 1].at.instant < l.corrections[i].at.instant)
    && (if l.corrections == [] then l.corrected == l.normalized
        else Boundary(sha, l, |l.corrections|) == sha(l.corrected))
  }

  /** The loop of `has_contiguous_correction_hash_chain`. */
  method CheckChain(sha: string -> string, l: Layers) returns (ok: bool)
    requires forall i :: 0 <= i < |l.corrections| ==> CorrectionValid(l.corrections[i])
    ensures ok <==> LayersValid(sha, l)
  {
    var expected := sha(l.normalized);
    var previous: Option<int> := None;
    for i := 0 to |l.corrections|
      invariant expected == Boundary(sha, l, i)
      invariant previous == if i == 0 then None else Some(l.corrections[i - 1].at.instant)
      invariant forall j :: 0 <= j < i ==> Linked(sha, l, j)
      invariant forall j :: 1 <= j < i ==> l.corrections[j - 1].at.instant < l.corrections[j].at.instant
    {
      var c := l.corrections[i];
      if c.before != expected {
        assert !Linked(sha, l, i);
        return false;
      }
      if previous.Some? && c.at.instant <= previous.value {
        assert l.corrections[i - 1].at.instant >= l.corrections[i].at.instant;
        return false;
      }
      expected, previous := c.after, Some(c.at.instant);
    }
    if l.corrections != [] { return expected == sha(l.corrected); }
    return l.corrected == l.normalized;
  }

  /** One requested correction; the expected digests are optional. */
  datatype Request = Request(after: string, reviewer: string, at: Timestamp, reason: string,
                             expectedBefore: Option<string>, expectedAfter: Option<string>)

  function NewCorrection(sha: string -> string, l: Layers, r: Request): Correction {
    Correction(r.reviewer, r.at, r.reason, sha(l.corrected), sha(r.after))
  }

  predicate Expected(expected: Option<string>, actual: string) { expected.None? || expected.value == actual }

  /** `with_correction`, which copies the layers without running their validator again. */
  function WithCorrection(sha: string -> string, l: Layers, r: Request): Result<Layers> {
    if sha(l.corrected) == sha(r.after) then Err("correction must change text")
    else if l.corrections != [] && r.at.instant <= l.corrections[|l.corrections| - 1].at.instant then
      Err("correction timestamps must strictly increase")
    else if !Expected(r.expectedBefore, sha(l.corrected)) || !Expected(r.expectedAfter, sha(r.after)) then
      Err("SHA-256 boundary does not match text")
    else if !CorrectionValid(NewCorrection(sha, l, r)) then Err("correction is invalid")
    else Ok(l.(corrected := r.after, corrections := l.corrections + [NewCorrection(sha, l, r)]))
  }

  // ----- what a correction needs -----

  function Inside(extra: set<char>): char -> bool { c => Alphanumeric(c) || c in extra }

  /** `[a-z0-9](?:[a-z0-9...]{0,62}[a-z0-9])?` */
  function Name(extra: set<char>): Pattern {
    Then(Class(Alphanumeric), Maybe(Then(Times(Class(Inside(extra)), 0, Some(62)), Class(Alphanumeric))))
  }

  lemma {:induction false} NameEnd(extra: set<char>, s: string)
    ensures Matches(Then(Times(Class(Inside(extra)), 0, Some(62)), Class(Alphanumeric)), s) <==>
            1 <= |s| <= 63 && All(Inside(extra), s[..|s| - 1]) && Alphanumeric(s[|s| - 1])
  {
    RunThen(Inside(extra), 0, Some(62), Class(Alphanumeric), s);
    if 1 <= |s| <= 63 { assert Within(|s| - 1, 0, Some(62)); }
  }

  lemma {:induction false} NameExactly(extra: set<char>, s: string)
    ensures Matches(Name(extra), s) <==> Identifier(s, extra)
  {
    ClassThen(Alphanumeric, Maybe(Then(Times(Class(Inside(extra)), 0, Some(62)), Class(Alphanumeric))), s);
    if s != "" {
      NameEnd(extra, s[1..]);
      MiddleExactly(extra, s);
    }
  }

  lemma MiddleExactly(extra: set<char>, s: string)
    requires s != ""
    ensures Identifier(s, extra) <==>
            && Alphanumeric(s[0])
            && (s[1..] == "" || (1 <= |s[1..]| <= 63 && All(Inside(extra), s[1..][..|s[1..]| - 1])
                                 && Alphanumeric(s[1..][|s[1..]| - 1])))
  {
    if |s| > 1 {
      var middle := s[1..][..|s| - 2];
      assert forall i :: 1 <= i < |s| - 1 ==> s[i] == middle[i - 1];
      assert forall i :: 0 <= i < |middle| ==> middle[i] == s[i + 1];
    }
  }

  /** A correction goes through exactly when it changes the digest, is later than the last one, meets its own
      expectations, and carries a reviewer, a reason and a UTC time in the canonical form; it then only adds itself. */
  lemma WithCorrectionExactly(sha: string -> string, l: Layers, r: Request)
    ensures WithCorrection(sha, l, r).Ok? <==>
            && sha(r.after) != sha(l.corrected)
            && (l.corrections != [] ==> r.at.instant > l.corrections[|l.corrections| - 1].at.instant)
            && r.expectedBefore in [None, Some(sha(l.corrected))] && r.expectedAfter in [None, Some(sha(r.after))]
            && Matches(Name({'.', '_', '-'}), r.reviewer) && Matches(Name({'_', '-'}), r.reason) && r.at.utc
    ensures WithCorrection(sha, l, r).Ok? ==>
              WithCorrection(sha, l, r).value
              == Layers(l.raw, l.normalized, r.after,
                        l.corrections + [Correction(r.reviewer, r.at, r.reason, sha(l.corrected), sha(r.after))])
  {
    NameExactly({'.', '_', '-'}, r.reviewer);
    NameExactly({'_', '-'}, r.reason);
    ExpectedExactly(r.expectedBefore, sha(l.corrected));
    ExpectedExactly(r.expectedAfter, sha(r.after));
  }

  lemma ExpectedExactly(expected: Option<string>, actual: string)
    ensures Expected(expected, actual) <==> expected in [None, Some(actual)]
  {
  }

  lemma AppendedBoundaries(sha: string -> string, l: Layers, next: Layers, c: Correction)
    requires next.normalized == l.normalized && next.corrections == l.corrections + [c]
    ensures forall i :: 0 <= i <= |l.corrections| ==> Boundary(sha, next, i) == Boundary(sha, l, i)
    ensures Boundary(sha, next, |next.corrections|) == c.after
  {
  }

  lemma AppendedTimes(cs: seq<Correction>, c: Correction)
    requires forall i :: 1 <= i < |cs| ==> cs[i - 1].at.instant < cs[i].at.instant
    requires cs != [] ==> cs[|cs| - 1].at.instant < c.at.instant
    ensures forall i :: 1 <= i < |cs| + 1 ==> (cs + [c])[i - 1].at.instant < (cs + [c])[i].at.instant
  {
  }

  /** Valid layers stay valid although nothing checks them again; the other layers and the history so far are kept. */
  lemma CorrectionKeepsChain(sha: string -> string, l: Layers, r: Request)
    requires LayersValid(sha, l) && WithCorrection(sha, l, r).Ok?
    ensures var next := WithCorrection(sha, l, r).value;
            && LayersValid(sha, next) && next.raw == l.raw && next.normalized == l.normalized
              && next.corrected == r.after
            && |next.corrections| == |l.corrections| + 1 && l.corrections <= next.corrections
  {
    var next, n, c := WithCorrection(sha, l, r).value, |l.corrections|, NewCorrection(sha, l, r);
    AppendedBoundaries(sha, l, next, c);
    AppendedTimes(l.corrections, c);
    assert Boundary(sha, l, n) == sha(l.corrected);
    forall i | 0 <= i < |next.corrections| ensures Linked(sha, next, i) {
      if i < n { LinkKept(sha, l, next, c, i); }
    }
  }

  lemma LinkKept(sha: string -> string, l: Layers, next: Layers, c: Correction, i: nat)
    requires next.normalized == l.normalized && next.corrections == l.corrections + [c] && i < |l.corrections|
             && Linked(sha, l, i)
    ensures Linked(sha, next, i)
  {
    assert next.corrections[i] == l.corrections[i];
  }

  // ----- the valid histories are the ones that corrections make -----

  function Undone(l: Layers, text: string): Layers
    requires l.corrections != []
  {
    l.(corrected := text, corrections := l.corrections[..|l.corrections| - 1])
  }

  function RequestOf(l: Layers): Request
    requires l.corrections != []
  {
    var c := l.corrections[|l.corrections| - 1];
    Request(l.corrected, c.reviewer, c.at, c.reason, None, None)
  }

  /** `l` is what the requests make of the uncorrected layers, with the given texts in between. */
  predicate MadeBy(sha: string -> string, l: Layers, texts: seq<string>)
    decreases |l.corrections|
  {
    && |texts| == |l.corrections| + 1 && texts[0] == l.normalized && texts[|l.corrections|] == l.corrected
    && (l.corrections != [] ==>
          var n := |l.corrections|;
          MadeBy(sha, Undone(l, texts[n - 1]), texts[..n])
            && WithCorrection(sha, Undone(l, texts[n - 1]), RequestOf(l)) == Ok(l))
  }

  /** The texts carry the digests at the boundaries. */
  predicate Witnessed(sha: string -> string, l: Layers, texts: seq<string>) {
    && |texts| == |l.corrections| + 1 && texts[0] == l.normalized && texts[|l.corrections|] == l.corrected
    && forall i :: 0 <= i < |texts| ==> sha(texts[i]) == Boundary(sha, l, i)
  }

  /** Layers are valid, with these texts at the boundaries, exactly when corrections made them from these texts. */
  lemma {:induction false} ValidExactlyMade(sha: string -> string, l: Layers, texts: seq<string>)
    ensures LayersValid(sha, l) && Witnessed(sha, l, texts) <==> MadeBy(sha, l, texts)
    decreases |l.corrections|
  {
    var n := |l.corrections|;
    if n > 0 && |texts| == n + 1 {
      var before := Undone(l, texts[n - 1]);
      ValidExactlyMade(sha, before, texts[..n]);
      UndoneBoundaries(sha, l, texts[n - 1]);
      assert l.corrections == before.corrections + [l.corrections[n - 1]];
      if MadeBy(sha, l, texts) {
        CorrectionKeepsChain(sha, before, RequestOf(l));
        WitnessGrows(sha, l, texts);
      }
      if LayersValid(sha, l) && Witnessed(sha, l, texts) {
        WitnessShrinks(sha, l, texts);
        UndoneValid(sha, l, texts);
      }
    }
  }

  lemma WitnessShrinks(sha: string -> string, l: Layers, texts: seq<string>)
    requires l.corrections != [] && Witnessed(sha, l, texts)
    ensures Witnessed(sha, Undone(l, texts[|l.corrections| - 1]), texts[..|l.corrections|])
  {
    var n := |l.corrections|;
    UndoneBoundaries(sha, l, texts[n - 1]);
    forall i | 0 <= i < n ensures sha(texts[..n][i]) == Boundary(sha, Undone(l, texts[n - 1]), i) {
      assert sha(texts[i]) == Boundary(sha, l, i);
    }
  }

  lemma WitnessGrows(sha: string -> string, l: Layers, texts: seq<string>)
    requires l.corrections != [] && |texts| == |l.corrections| + 1 && texts[|l.corrections|] == l.corrected
             && texts[0] == l.normalized
    requires Witnessed(sha, Undone(l, texts[|l.corrections| - 1]), texts[..|l.corrections|])
    requires l.corrections[|l.corrections| - 1].after == sha(l.corrected)
    ensures Witnessed(sha, l, texts)
  {
    var n := |l.corrections|;
    UndoneBoundaries(sha, l, texts[n - 1]);
    forall i | 0 <= i <= n ensures sha(texts[i]) == Boundary(sha, l, i) {
      if i < n { assert sha(texts[..n][i]) == Boundary(sha, Undone(l, texts[n - 1]), i); }
    }
  }

  lemma UndoneBoundaries(sha: string -> string, l: Layers, text: string)
    requires l.corrections != []
    ensures forall i :: 0 <= i < |l.corrections| ==> Boundary(sha, Undone(l, text), i) == Boundary(sha, l, i)
  {
  }

  lemma UndoneValid(sha: string -> string, l: Layers, texts: seq<string>)
    requires LayersValid(sha, l) && Witnessed(sha, l, texts) && l.corrections != []
    ensures LayersValid(sha, Undone(l, texts[|l.corrections| - 1]))
    ensures WithCorrection(sha, Undone(l, texts[|l.corrections| - 1]), RequestOf(l)) == Ok(l)
  {
    var n := |l.corrections|;
    UndoneBoundaries(sha, l, texts[n - 1]);
    assert sha(texts[n - 1]) == Boundary(sha, l, n - 1) && sha(texts[n]) == Boundary(sha, l, n);
    UndoneLinks(sha, l, texts[n - 1]);
    Redone(sha, l, texts[n - 1]);
  }

  /** Valid layers without their last correction are valid. */
  lemma UndoneLinks(sha: string -> string, l: Layers, text: string)
    requires LayersValid(sha, l) && l.corrections != [] && sha(text) == Boundary(sha, l, |l.corrections| - 1)
    requires |l.corrections| == 1 ==> text == l.normalized
    ensures LayersValid(sha, Undone(l, text))
  {
    var before := Undone(l, text);
    UndoneBoundaries(sha, l, text);
    forall i | 0 <= i < |before.corrections| ensures Linked(sha, before, i) { assert Linked(sha, l, i); }
  }

  /** And the last correction makes them again. */
  lemma Redone(sha: string -> string, l: Layers, text: string)
    requires LayersValid(sha, l) && l.corrections != [] && sha(text) == Boundary(sha, l, |l.corrections| - 1)
    ensures WithCorrection(sha, Undone(l, text), RequestOf(l)) == Ok(l)
  {
    var n, before := |l.corrections|, Undone(l, text);
    assert Linked(sha, l, n - 1);
    if n > 1 { assert l.corrections[n - 2].at.instant < l.corrections[n - 1].at.instant; }
    SameLastCorrection(sha, l, text, l.corrections[n - 1]);
    assert l.corrections == before.corrections + [l.corrections[n - 1]];
    WithTheSame(sha, before, RequestOf(l), l.corrections[n - 1]);
  }

  lemma SameLastCorrection(sha: string -> string, l: Layers, text: string, last: Correction)
    requires l.corrections != [] && last == l.corrections[|l.corrections| - 1]
    requires last.before == sha(text) && last.after == sha(l.corrected)
    ensures NewCorrection(sha, Undone(l, text), RequestOf(l)) == last
  {
  }

  /** A request whose correction is valid, later than the last one, and meets its own expectations goes through. */
  lemma WithTheSame(sha: string -> string, l: Layers, r: Request, c: Correction)
    requires NewCorrection(sha, l, r) == c && CorrectionValid(c) && sha(l.corrected) != sha(r.after)
    requires l.corrections != [] ==> l.corrections[|l.corrections| - 1].at.instant < r.at.instant
    requires Expected(r.expectedBefore, sha(l.corrected)) && Expected(r.expectedAfter, sha(r.after))
    ensures WithCorrection(sha, l, r) == Ok(l.(corrected := r.after, corrections := l.corrections + [c]))
  {
  }
}
