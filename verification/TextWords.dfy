/** Words between white space. */
module TextWords {
  // What counts as white space is a parameter: the programs use two notions of it.

  /** The end of the word that starts at `i`. */
  function WordEnd(space: char -> bool, s: string, i: nat): (k: nat)
    requires i <= |s|
    ensures i <= k <= |s| && (forall j :: i <= j < k ==> !space(s[j])) && (k < |s| ==> space(s[k]))
    decreases |s| - i
  {
    if i < |s| && !space(s[i]) then WordEnd(space, s, i + 1) else i
  }

  predicate IsWord(space: char -> bool, w: string) { w != "" && forall i :: 0 <= i < |w| ==> !space(w[i]) }

  /** The words of a text, in order. */
  function WordsOf(space: char -> bool, s: string): (words: seq<string>)
    ensures forall i :: 0 <= i < |words| ==> IsWord(space, words[i])
  {
    if s == "" then []
    else if space(s[0]) then WordsOf(space, s[1..])
    else [s[..WordEnd(space, s, 0)]] + WordsOf(space, s[WordEnd(space, s, 0)..])
  }

  /** The words with one blank between them. */
  function Sentence(words: seq<string>): string {
    if words == [] then ""
    else if |words| == 1 then words[0]
    else words[0] + " " + Sentence(words[1..])
  }

  function Gap(b: bool): string { if b then " " else "" }

  /** White space stands at the end, behind some word. */
  predicate Trails(space: char -> bool, s: string) { s != "" && space(s[|s| - 1]) && WordsOf(space, s) != [] }

  predicate Leads(space: char -> bool, s: string) { s != "" && space(s[0]) }

  lemma {:induction false} SentenceMore(word: string, words: seq<string>)
    ensures words != [] ==> Sentence([word] + words) == word + " " + Sentence(words)
  {
    assert ([word] + words)[1..] == words;
  }

  lemma {:induction false} OnlySpace(space: char -> bool, s: string)
    requires WordsOf(space, s) == []
    ensures forall i :: 0 <= i < |s| ==> space(s[i])
  {
    if s != "" {
      OnlySpace(space, s[1..]);
      forall i | 0 <= i < |s| ensures space(s[i]) {
        if i > 0 { assert s[i] == s[1..][i - 1]; }
      }
    }
  }

  /** Behind the first word, white space trails as it does in the rest. */
  lemma {:induction false} RestTrails(space: char -> bool, s: string, k: nat)
    requires 0 < k <= |s| && k == WordEnd(space, s, 0)
    ensures Trails(space, s) <==> s[k..] != "" && (Trails(space, s[k..]) || WordsOf(space, s[k..]) == [])
  {
    var rest := s[k..];
    if rest != "" {
      assert rest[|rest| - 1] == s[|s| - 1];
      if WordsOf(space, rest) == [] { OnlySpace(space, rest); }
    }
  }

  lemma {:induction false} FirstWord(space: char -> bool, s: string, k: nat)
    requires s != "" && !space(s[0]) && k == WordEnd(space, s, 0)
    ensures 0 < k <= |s| && IsWord(space, s[..k]) && s == s[..k] + s[k..]
    ensures WordsOf(space, s) == [s[..k]] + WordsOf(space, s[k..])
    ensures Leads(space, s[k..]) <==> s[k..] != ""
    ensures Trails(space, s) <==> s[k..] != "" && (Trails(space, s[k..]) || WordsOf(space, s[k..]) == [])
  {
    RestTrails(space, s, k);
  }

  lemma {:induction false} SentenceEnds(space: char -> bool, words: seq<string>)
    requires words != [] && forall i :: 0 <= i < |words| ==> IsWord(space, words[i])
    ensures var t := Sentence(words); t != "" && !space(t[0]) && !space(t[|t| - 1])
  {
    assert IsWord(space, words[0]);
    if |words| > 1 { SentenceEnds(space, words[1..]); }
  }

  /** A word, the blank behind it, and the collapsed rest. */
  lemma {:induction false} FirstJoins(word: string, words: seq<string>, more: bool, trails: bool)
    requires (words != [] ==> more) && (trails ==> words != [])
    ensures word + (Gap(more) + (Sentence(words) + Gap(trails)))
            == Sentence([word] + words) + Gap(more && (trails || words == []))
  {
    SentenceMore(word, words);
    if words == [] {
      assert Gap(more) + ("" + "") == Gap(more);
    } else {
      assert word + (" " + (Sentence(words) + Gap(trails))) == word + " " + Sentence(words) + Gap(trails);
    }
  }
}
