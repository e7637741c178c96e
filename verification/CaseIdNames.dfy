/** What an issued id says of the labels, the number and the title (src/corpus/ids.py). */
module CaseIdNames {
  // Texts are read as words between white space, so nothing here depends on how the printer cleans them.

  import opened CaseIdLaws
  import opened CaseIds
  import opened Strings
  import opened TextWords
  import opened Wrappers

  /** The words of a label, a number or a title. */
  function Words(s: string): (words: seq<string>) { WordsOf(IsSpace, s) }

  /** No white space at its ends, and single blanks inside. */
  predicate Neat(s: string) {
    && s != "" && !IsSpace(s[0]) && !IsSpace(s[|s| - 1])
    && forall i :: 0 <= i < |s| - 1 && IsSpace(s[i]) ==> s[i] == ' ' && !IsSpace(s[i + 1])
  }

  // ----- the cleaned text is the sentence of the words -----

  lemma {:induction false} CollapseWord(word: string, rest: string, inRun: bool)
    requires IsWord(IsSpace, word)
    ensures CollapseFrom(word + rest, inRun) == word + CollapseFrom(rest, false)
  {
    var s := word + rest;
    assert s[1..] == word[1..] + rest;
    if |word| > 1 {
      assert IsWord(IsSpace, word[1..]);
      CollapseWord(word[1..], rest, false);
    } else {
      assert word[1..] + rest == rest;
    }
  }

  lemma {:induction false} CollapseLead(s: string)
    ensures CollapseFrom(s, false) == Gap(s != "" && IsSpace(s[0])) + CollapseFrom(s, true)
  {
  }

  /** The collapsed text is the sentence, and a blank if white space trails behind. */
  predicate Collapsed(s: string) { CollapseFrom(s, true) == Sentence(Words(s)) + Gap(Trails(IsSpace, s)) }

  lemma {:induction false} CollapseIsSentence(s: string)
    ensures Collapsed(s)
    decreases |s|
  {
    if s != "" {
      if IsSpace(s[0]) {
        CollapseIsSentence(s[1..]);
        assert Trails(IsSpace, s) <==> Trails(IsSpace, s[1..]);
      } else {
        CollapseIsSentence(s[WordEnd(IsSpace, s, 0)..]);
        CollapseFirst(s, WordEnd(IsSpace, s, 0));
      }
    }
  }

  lemma {:induction false} CollapseFirst(s: string, k: nat)
    requires s != "" && !IsSpace(s[0]) && k == WordEnd(IsSpace, s, 0) && Collapsed(s[k..])
    ensures Collapsed(s)
  {
    var rest := s[k..];
    FirstWord(IsSpace, s, k);
    CollapseWord(s[..k], rest, true);
    CollapseLead(rest);
    CollapsedFrom(s, s[..k], rest, Words(rest), Trails(IsSpace, rest));
  }

  lemma {:induction false} CollapsedFrom(s: string, word: string, rest: string, words: seq<string>, trails: bool)
    requires (words != [] ==> rest != "") && (trails ==> words != [])
    ensures (&& CollapseFrom(s, true) == word + CollapseFrom(rest, false)
             && CollapseFrom(rest, false) == Gap(rest != "") + (Sentence(words) + Gap(trails))
             && Words(s) == [word] + words
             && Trails(IsSpace, s) == (rest != "" && (trails || words == []))) ==> Collapsed(s)
  {
    FirstJoins(word, words, rest != "", trails);
  }

  /** Nothing to strip at either end. */
  predicate Bare(t: string) { t != "" ==> !IsSpace(t[0]) && !IsSpace(t[|t| - 1]) }

  lemma {:induction false} StripTrail(t: string)
    requires Bare(t) && t != ""
    ensures Strip(t) == t && Strip(t + " ") == t
  {
    var r := t + " ";
    assert r[..|r| - 1] == t && r[0] == t[0];
  }

  lemma {:induction false} StripLead(r: string)
    ensures Strip(" " + r) == Strip(r)
  {
    assert (" " + r)[1..] == r;
  }

  lemma {:induction false} StripEnds(t: string, lead: bool, trail: bool)
    requires Bare(t) && (t == "" ==> !trail)
    ensures Strip(Gap(lead) + (t + Gap(trail))) == t
  {
    assert "" + (t + Gap(trail)) == t + Gap(trail) && t + "" == t;
    if t != "" { StripTrail(t); }
    StripLead(t + Gap(trail));
  }

  /** Cleaning a text leaves its words with one blank between them, and refuses it when it has none. */
  lemma CleanedIsSentence(value: string)
    ensures NormalizedText(value)
            == if Words(value) == [] then None else Some(Sentence(Words(value)))
  {
    CollapseLead(value);
    CollapseIsSentence(value);
    var t := Sentence(Words(value));
    if Words(value) != [] { SentenceEnds(IsSpace, Words(value)); }
    var lead := value != "" && IsSpace(value[0]);
    StripEnds(t, lead, Trails(IsSpace, value));
  }

  lemma NeatAfter(s: string, k: nat)
    requires Neat(s) && k < |s| && IsSpace(s[k])
    ensures k < |s| - 1 && s[k] == ' ' && Neat(s[k + 1..])
    ensures Words(s[k..]) == Words(s[k + 1..])
  {
    var after := s[k + 1..];
    assert forall i :: 0 <= i < |after| ==> after[i] == s[k + 1 + i];
    assert s[k..][1..] == after;
  }

  /** A neat text is its own sentence. */
  lemma {:induction false} NeatIsSentence(s: string)
    requires Neat(s)
    ensures Words(s) != [] && Sentence(Words(s)) == s
    decreases |s|
  {
    var k := WordEnd(IsSpace, s, 0);
    FirstWord(IsSpace, s, k);
    if k < |s| {
      NeatAfter(s, k);
      NeatIsSentence(s[k + 1..]);
      NeatJoins(s, k, Words(s[k + 1..]));
    } else {
      assert Words(s[k..]) == [] && s[..k] == s;
    }
  }

  lemma {:induction false} NeatJoins(s: string, k: nat, words: seq<string>)
    requires k < |s| && s[k] == ' ' && words != [] && Sentence(words) == s[k + 1..]
    ensures Sentence([s[..k]] + words) == s
  {
    SentenceMore(s[..k], words);
    assert s == s[..k] + " " + s[k + 1..];
  }

  // ----- what an issued id names -----

  /** The slug of a label: the registered one of its sentence, or the first ten characters of its digest. */
  predicate NamesLabel(naming: Naming, name: string, slug: string)
    requires naming.Valid()
  {
    var text := Sentence(Words(name));
    Words(name) != [] && slug == if text in naming.labels then naming.labels[text] else naming.sha256(text)[..10]
  }

  /** The number of a case: digits lose their leading zeros, and everything else is written in lower case with
      hyphens for blanks. */
  predicate NamesNumber(caseNo: string, number: string) {
    var text := Sentence(Words(caseNo));
    && Words(caseNo) != []
    && if AllDigits(text) then
         AllDigits(number) && number != "" && Value(number) == Value(text) && (|number| > 1 ==> number[0] != '0')
       else
         && |number| == |text|
         && forall i :: 0 <= i < |text| ==>
              number[i] == if text[i] == ' ' then '-'
                           else if 'A' <= text[i] <= 'Z' then (text[i] as int + 32) as char
                           else text[i]
  }

  /** The anchor of a duplicate: its page, and the first eight characters of its title's digest. */
  predicate NamesAnchor(naming: Naming, startPage: Option<int>, title: Option<string>, suffix: string)
    requires naming.Valid()
  {
    && startPage.Some? && startPage.value >= 1 && title.Some? && Words(title.value) != []
    && suffix == "-p" + Decimal(startPage.value) + "-" + naming.sha256(Sentence(Words(title.value)))[..8]
  }

  lemma SlugNames(naming: Naming, name: string)
    requires naming.Valid() && BusinessSlug(naming, name).Some?
    ensures NamesLabel(naming, name, BusinessSlug(naming, name).value)
  {
    CleanedIsSentence(name);
  }

  lemma AnchorNames(naming: Naming, startPage: Option<int>, title: Option<string>)
    requires naming.Valid() && DuplicateSuffix(naming, startPage, title).Ok?
    ensures NamesAnchor(naming, startPage, title, DuplicateSuffix(naming, startPage, title).value)
  {
    CleanedIsSentence(title.value);
  }

  lemma {:induction false} WithoutZeros(s: string)
    requires s != "" && AllDigits(s)
    ensures var t := StripLeadingZeros(s); t != "" && AllDigits(t) && Value(t) == Value(s)
    ensures var t := StripLeadingZeros(s); |t| > 1 ==> t[0] != '0'
  {
    if |s| > 1 && s[0] == '0' {
      WithoutZeros(s[1..]);
      PaddedValue(s[1..]);
      assert s == "0" + s[1..];
    }
  }

  /** Lower case with hyphens for blanks, character by character. */
  lemma Canonical(text: string, canonical: string)
    requires canonical == Lower(Replace(text, ' ', '-'))
    ensures |canonical| == |text|
    ensures forall i :: 0 <= i < |text| ==>
              canonical[i] == if text[i] == ' ' then '-'
                              else if 'A' <= text[i] <= 'Z' then (text[i] as int + 32) as char
                              else text[i]
  {
  }

  lemma CanonicalDigits(text: string, canonical: string)
    requires canonical == Lower(Replace(text, ' ', '-'))
    ensures AllDigits(canonical) <==> AllDigits(text)
    ensures AllDigits(text) ==> canonical == text
  {
    Canonical(text, canonical);
    if AllDigits(canonical) {
      forall i | 0 <= i < |text| ensures IsDigit(text[i]) { assert IsDigit(canonical[i]); }
    }
  }

  lemma NumberNames(caseNo: string)
    requires NormalizeCaseNumber(caseNo).Ok?
    ensures NamesNumber(caseNo, NormalizeCaseNumber(caseNo).value)
  {
    CleanedIsSentence(caseNo);
    var text := Sentence(Words(caseNo));
    Canonical(text, Lower(Replace(text, ' ', '-')));
    CanonicalDigits(text, Lower(Replace(text, ' ', '-')));
    if AllDigits(text) { WithoutZeros(text); }
  }

  /** Every issued id names its labels, its number and its anchor. */
  lemma IssuedIdNames(naming: Naming, year: int, domain: string, part: string, caseNo: string,
                      startPage: Option<int>, title: Option<string>, duplicate: bool, id: string)
    requires naming.Valid()
    requires MakeCaseId(naming, year, domain, part, caseNo, startPage, title, duplicate) == Ok(id)
    ensures var p := ParseCaseId(naming.slugs, id);
            && p.Some? && p.value.year == year
            && NamesLabel(naming, domain, p.value.domain) && NamesLabel(naming, part, p.value.part)
            && NamesNumber(caseNo, p.value.number)
            && if duplicate then NamesAnchor(naming, startPage, title, p.value.suffix) else p.value.suffix == ""
  {
    MadeIdParses(naming, year, domain, part, caseNo, startPage, title, duplicate);
    SlugNames(naming, domain);
    SlugNames(naming, part);
    NumberNames(caseNo);
    if duplicate { AnchorNames(naming, startPage, title); }
  }

  /** A registered label without outer or repeated white space is named by its registered slug, and any
      other such label by its digest. */
  lemma NeatLabelNames(naming: Naming, name: string, slug: string)
    requires naming.Valid() && Neat(name)
    ensures NamesLabel(naming, name, slug)
            <==> slug == if name in naming.labels then naming.labels[name] else naming.sha256(name)[..10]
  {
    NeatIsSentence(name);
  }

  lemma SameCleaned(a: string, b: string)
    requires Words(a) == Words(b)
    ensures NormalizedText(a) == NormalizedText(b)
  {
    CleanedIsSentence(a);
    CleanedIsSentence(b);
  }

  lemma SameAnchor(naming: Naming, startPage: Option<int>, a: string, b: string)
    requires naming.Valid() && Words(a) == Words(b)
    ensures DuplicateSuffix(naming, startPage, Some(a)) == DuplicateSuffix(naming, startPage, Some(b))
  {
    SameCleaned(a, b);
  }

  lemma SameNumber(a: string, b: string)
    requires Words(a) == Words(b)
    ensures NormalizeCaseNumber(a) == NormalizeCaseNumber(b)
  {
    SameCleaned(a, b);
  }

  lemma SameSlug(naming: Naming, a: string, b: string)
    requires naming.Valid() && Words(a) == Words(b)
    ensures BusinessSlug(naming, a) == BusinessSlug(naming, b)
  {
    SameCleaned(a, b);
  }

  lemma DomainSpacing(naming: Naming, year: int, domain: string, part: string, caseNo: string, startPage: Option<int>,
                      title: string, duplicate: bool, other: string)
    requires naming.Valid() && Words(domain) == Words(other)
    ensures MakeCaseId(naming, year, domain, part, caseNo, startPage, Some(title), duplicate)
            == MakeCaseId(naming, year, other, part, caseNo, startPage, Some(title), duplicate)
  {
    SameSlug(naming, domain, other);
  }

  lemma PartSpacing(naming: Naming, year: int, domain: string, part: string, caseNo: string, startPage: Option<int>,
                    title: string, duplicate: bool, other: string)
    requires naming.Valid() && Words(part) == Words(other)
    ensures MakeCaseId(naming, year, domain, part, caseNo, startPage, Some(title), duplicate)
            == MakeCaseId(naming, year, domain, other, caseNo, startPage, Some(title), duplicate)
  {
    SameSlug(naming, part, other);
  }

  lemma NumberSpacing(naming: Naming, year: int, domain: string, part: string, caseNo: string, startPage: Option<int>,
                      title: string, duplicate: bool, other: string)
    requires naming.Valid() && Words(caseNo) == Words(other)
    ensures MakeCaseId(naming, year, domain, part, caseNo, startPage, Some(title), duplicate)
            == MakeCaseId(naming, year, domain, part, other, startPage, Some(title), duplicate)
  {
    SameNumber(caseNo, other);
  }

  lemma TitleSpacing(naming: Naming, year: int, domain: string, part: string, caseNo: string, startPage: Option<int>,
                     title: string, duplicate: bool, other: string)
    requires naming.Valid() && Words(title) == Words(other)
    ensures MakeCaseId(naming, year, domain, part, caseNo, startPage, Some(title), duplicate)
            == MakeCaseId(naming, year, domain, part, caseNo, startPage, Some(other), duplicate)
  {
    SameAnchor(naming, startPage, title, other);
  }

  /** The width and the ends of white space make no difference. */
  lemma SpacingIgnored(naming: Naming, year: int, domain: string, part: string, caseNo: string,
                       startPage: Option<int>, title: string, duplicate: bool,
                       domain': string, part': string, caseNo': string, title': string)
    requires naming.Valid() && Words(domain) == Words(domain') && Words(part) == Words(part')
    requires Words(caseNo) == Words(caseNo') && Words(title) == Words(title')
    ensures MakeCaseId(naming, year, domain, part, caseNo, startPage, Some(title), duplicate)
            == MakeCaseId(naming, year, domain', part', caseNo', startPage, Some(title'), duplicate)
  {
    DomainSpacing(naming, year, domain, part, caseNo, startPage, title, duplicate, domain');
    PartSpacing(naming, year, domain', part, caseNo, startPage, title, duplicate, part');
    NumberSpacing(naming, year, domain', part', caseNo, startPage, title, duplicate, caseNo');
    TitleSpacing(naming, year, domain', part', caseNo', startPage, title, duplicate, title');
  }
}
