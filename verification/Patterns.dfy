/** Regular expressions, with the meaning that the source's patterns have. */
module Patterns {
  import opened Wrappers

  datatype Pattern =
    | Class(ok: char -> bool)
    | Text(text: string)
    | Then(first: Pattern, second: Pattern)
    | Either(one: Pattern, other: Pattern)
    | Maybe(group: Pattern)
    | Times(each: Pattern, low: nat, high: Option<nat>)

  function Concat(pieces: seq<string>): string {
    if pieces == [] then "" else pieces[0] + Concat(pieces[1..])
  }

  predicate Within(n: nat, low: nat, high: Option<nat>) { low <= n && (high.Some? ==> n <= high.value) }

  /** All of the text is read. */
  ghost predicate Matches(p: Pattern, s: string) {
    match p
    case Class(ok) => |s| == 1 && ok(s[0])
    case Text(text) => s == text
    case Then(first, second) => exists k :: 0 <= k <= |s| && Matches(first, s[..k]) && Matches(second, s[k..])
    case Either(one, other) => Matches(one, s) || Matches(other, s)
    case Maybe(group) => s == "" || Matches(group, s)
    case Times(each, low, high) =>
      exists pieces: seq<string> :: s == Concat(pieces) && Within(|pieces|, low, high)
        && forall i :: 0 <= i < |pieces| ==>
        Matches(each, pieces[i])
  }

  /** Some part of the text is read. */
  ghost predicate Found(p: Pattern, s: string) { exists i, j :: 0 <= i <= j <= |s| && Matches(p, s[i..j]) }

  predicate All(ok: char -> bool, s: string) { forall i :: 0 <= i < |s| ==> ok(s[i]) }

  /** The pieces one after the other, read as such. */
  lemma {:induction false} ThenJoins(p: Pattern, q: Pattern, a: string, b: string)
    requires Matches(p, a) && Matches(q, b)
    ensures Matches(Then(p, q), a + b)
  {
    assert (a + b)[..|a|] == a && (a + b)[|a|..] == b;
  }

  lemma ThenSplits(p: Pattern, q: Pattern, s: string) returns (k: nat)
    requires Matches(Then(p, q), s)
    ensures k <= |s| && Matches(p, s[..k]) && Matches(q, s[k..])
  {
    k :| 0 <= k <= |s| && Matches(p, s[..k]) && Matches(q, s[k..]);
  }

  lemma {:induction false} FoundAt(p: Pattern, s: string, i: nat, j: nat)
    requires i <= j <= |s| && Matches(p, s[i..j])
    ensures Found(p, s)
  {
  }

  // ----- runs of a class -----

  function Singles(s: string): seq<string> { seq(|s|, i requires 0 <= i < |s| => [s[i]]) }

  lemma {:induction false} SinglesJoin(s: string)
    ensures Concat(Singles(s)) == s
  {
    if s != "" {
      SinglesJoin(s[1..]);
      assert Singles(s)[1..] == Singles(s[1..]);
    }
  }

  lemma {:induction false} SinglesOnly(ok: char -> bool, pieces: seq<string>)
    requires forall i :: 0 <= i < |pieces| ==> |pieces[i]| == 1 && ok(pieces[i][0])
    ensures |Concat(pieces)| == |pieces| && All(ok, Concat(pieces))
  {
    if pieces != [] { SinglesOnly(ok, pieces[1..]); }
  }

  /** A repeated class reads the runs of it with a fitting length. */
  lemma {:induction false} RunsExactly(ok: char -> bool, low: nat, high: Option<nat>, s: string)
    ensures Matches(Times(Class(ok), low, high), s) <==> Within(|s|, low, high) && All(ok, s)
  {
    if Matches(Times(Class(ok), low, high), s) {
      var pieces: seq<string> :| s == Concat(pieces) && Within(|pieces|, low, high) && forall i :: 0 <= i < |pieces| ==>
        Matches(Class(ok), pieces[i]);
      assert forall i :: 0 <= i < |pieces| ==> Matches(Class(ok), pieces[i]) ==> |pieces[i]| == 1 && ok(pieces[i][0]);
      SinglesOnly(ok, pieces);
    }
    if Within(|s|, low, high) && All(ok, s) {
      SinglesJoin(s);
      forall i | 0 <= i < |Singles(s)| ensures Matches(Class(ok), Singles(s)[i]) { assert Singles(s)[i] == [s[i]]; }
    }
  }

  /** A pattern for runs, and what follows it. */
  lemma {:induction false} RunThen(ok: char -> bool, low: nat, high: Option<nat>, q: Pattern, s: string)
    ensures Matches(Then(Times(Class(ok), low, high), q), s) <==>
            exists k :: 0 <= k <= |s| && Within(k, low, high) && All(ok, s[..k]) && Matches(q, s[k..])
  {
    forall k | 0 <= k <= |s|
      ensures Matches(Times(Class(ok), low, high), s[..k]) <==> Within(k, low, high) && All(ok, s[..k])
    {
      RunsExactly(ok, low, high, s[..k]);
    }
  }

  /** A fixed text, and what follows it. */
  lemma {:induction false} TextThen(text: string, q: Pattern, s: string)
    ensures Matches(Then(Text(text), q), s) <==> text <= s && Matches(q, s[|text|..])
  {
    if text <= s { assert s[..|text|] == text; }
    forall k | 0 <= k <= |s| && s[..k] == text ensures text <= s && k == |text| { assert s[..k] <= s; }
  }

  /** One character of a class, and what follows it. */
  lemma {:induction false} ClassThen(ok: char -> bool, q: Pattern, s: string)
    ensures Matches(Then(Class(ok), q), s) <==> s != "" && ok(s[0]) && Matches(q, s[1..])
  {
    if s != "" { assert s[..1][0] == s[0]; }
    forall k | 0 <= k <= |s| && Matches(Class(ok), s[..k]) ensures k == 1 && ok(s[0]) { assert |s[..k]| == k; }
  }

  // ----- repeated groups -----

  lemma {:induction false} TimesJoins(p: Pattern, low: nat, high: Option<nat>, pieces: seq<string>)
    requires Within(|pieces|, low, high) && forall i :: 0 <= i < |pieces| ==> Matches(p, pieces[i])
    ensures Matches(Times(p, low, high), Concat(pieces))
  {
  }

  lemma TimesSplits(p: Pattern, low: nat, high: Option<nat>, s: string) returns (pieces: seq<string>)
    requires Matches(Times(p, low, high), s)
    ensures s == Concat(pieces) && Within(|pieces|, low, high)
    ensures forall i :: 0 <= i < |pieces| ==> Matches(p, pieces[i])
  {
    pieces :| s == Concat(pieces) && Within(|pieces|, low, high) && forall i :: 0 <= i < |pieces| ==>
      Matches(p, pieces[i]);
  }
}
