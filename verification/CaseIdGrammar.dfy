/** The grammar of valid case ids (src/corpus/ids.py). */
module CaseIdGrammar {
  import opened CaseIdLaws
  import opened CaseIdNames
  import opened CaseIdPatterns
  import opened CaseIds
  import opened CaseNumberPatterns
  import opened Patterns
  import opened Strings
  import opened TextWords
  import opened Wrappers

  // ----- slugs -----

  predicate Heads(slug: string, value: string) { slug + "-" <= value }

  predicate NoneHeads(slugs: seq<string>, n: nat, value: string)
    requires n <= |slugs|
  {
    forall j :: 0 <= j < n ==> !Heads(slugs[j], value)
  }

  /** The first registered slug that heads the text, or ten hexadecimal digits when none does. */
  ghost predicate Leads(slugs: seq<string>, slug: string, value: string) {
    && Heads(slug, value)
    && ((exists i :: 0 <= i < |slugs| && slugs[i] == slug && NoneHeads(slugs, i, value))
        || (NoneHeads(slugs, |slugs|, value) && Matches(Hex(10), slug)))
  }

  lemma HeadsExactly(slug: string, value: string)
    ensures Heads(slug, value) <==> |value| > |slug| && value[..|slug|] == slug && value[|slug|] == '-'
    ensures Heads(slug, value) ==> value == slug + "-" + value[|slug| + 1..]
  {
    if |value| > |slug| && value[..|slug|] == slug && value[|slug|] == '-' {
      assert value[..|slug| + 1] == slug + "-";
    }
  }

  lemma {:induction false} RegisteredExactly(slugs: seq<string>, value: string, slug: string)
    ensures FirstRegistered(slugs, value).None? <==> NoneHeads(slugs, |slugs|, value)
    ensures FirstRegistered(slugs, value).Some? && FirstRegistered(slugs, value).value.0 == slug <==>
            exists i :: 0 <= i < |slugs| && slugs[i] == slug && Heads(slug, value) && NoneHeads(slugs, i, value)
  {
    if slugs != [] {
      var rest := slugs[1..];
      RegisteredExactly(rest, value, slug);
      if !Heads(slugs[0], value) {
        forall i | 0 <= i <= |rest| ensures NoneHeads(slugs, i + 1, value) <==> NoneHeads(rest, i, value) {
          NoneHeadsBehind(slugs, i, value);
        }
        if i :| 0 <= i < |rest| && rest[i] == slug && Heads(slug, value) && NoneHeads(rest, i, value) {
          assert slugs[i + 1] == slug && NoneHeads(slugs, i + 1, value);
        }
        if i :| 0 <= i < |slugs| && slugs[i] == slug && Heads(slug, value) && NoneHeads(slugs, i, value) {
          assert i > 0 && rest[i - 1] == slug && NoneHeads(rest, i - 1, value);
        }
      } else {
        assert slugs[0] == slug ==> NoneHeads(slugs, 0, value);
      }
    }
  }

  lemma NoneHeadsBehind(slugs: seq<string>, i: nat, value: string)
    requires slugs != [] && i < |slugs| && !Heads(slugs[0], value)
    ensures NoneHeads(slugs, i + 1, value) <==> NoneHeads(slugs[1..], i, value)
  {
    if NoneHeads(slugs[1..], i, value) {
      forall j | 0 <= j < i + 1 ensures !Heads(slugs[j], value) {
        if j > 0 { assert slugs[1..][j - 1] == slugs[j]; }
      }
    }
    if NoneHeads(slugs, i + 1, value) {
      forall j | 0 <= j < i ensures !Heads(slugs[1..][j], value) { assert slugs[1..][j] == slugs[j + 1]; }
    }
  }

  /** A slug is consumed exactly when it leads the text. */
  lemma ConsumedExactly(slugs: seq<string>, value: string, slug: string, rest: string)
    ensures ConsumeBusinessSlug(slugs, value) == Some((slug, rest)) <==>
            value == slug + "-" + rest && Leads(slugs, slug, value)
  {
    RegisteredExactly(slugs, value, slug);
    HeadsExactly(slug, value);
    HashedExactly(value, slug);
    if value == slug + "-" + rest { assert value[|slug| + 1..] == rest; }
  }

  lemma {:induction false} HashedExactly(value: string, slug: string)
    ensures |value| > 10 && value[10] == '-' && AllHex(value[..10]) && slug == value[..10] <==>
            Heads(slug, value) && Matches(Hex(10), slug)
  {
    RunsExactly(IsHex, 10, Some(10), slug);
    HeadsExactly(slug, value);
  }

  // ----- numbers -----

  /** Lower-case runs that are not refused, and no leading zero before digits alone. */
  ghost predicate Standing(number: string) {
    && Matches(Runs(IsBodyChar), number) && !Refused(number)
    && (AllDigits(number) && |number| > 1 ==> number[0] != '0')
  }

  lemma StandingExactly(number: string)
    ensures NormalizeCaseNumber(number) == Ok(number) <==> Standing(number)
  {
    HyphenatedExactly(IsBodyChar, number);
    if NormalizeCaseNumber(number) == Ok(number) { CanonicalNumberShape(number); }
    if Hyphenated(number, IsBodyChar) {
      LowerIsNeat(number);
      NumberExactly(number, number, number);
      HyphenatedExactly(IsCaseNumberChar, number);
      if AllDigits(number) { DecimalExactly(number); }
    }
  }

  lemma LowerIsNeat(number: string)
    requires Hyphenated(number, IsBodyChar)
    ensures Words(number) != [] && Sentence(Words(number)) == number
    ensures Canonicalized(number, number, number) && Hyphenated(number, IsCaseNumberChar)
  {
    forall i | 0 <= i < |number| ensures !IsSpace(number[i]) && !('A' <= number[i] <= 'Z') {
      assert number[i] == '-' || IsBodyChar(number[i]);
    }
    NeatIsSentence(number);
  }

  lemma {:induction false} DecimalExactly(s: string)
    requires s != "" && AllDigits(s)
    ensures Decimal(Value(s)) == s <==> (|s| > 1 ==> s[0] != '0')
  {
    if |s| == 1 || s[0] != '0' {
      DecimalOfValue(s);
    } else {
      DecimalShape(Value(s));
    }
  }

  // ----- ids -----

  function Body(p: CaseIdParts): string { p.domain + "-" + p.part + "-" + p.number }

  /** What a valid id is made of. */
  ghost predicate Grammatical(slugs: seq<string>, id: string, p: CaseIdParts) {
    && |id| <= 200 && Matches(CanonicalId(), id)
    && 1900 <= p.year <= 2100 && id == "senqa-" + Decimal(p.year) + "-" + Body(p) + p.suffix
    && Leads(slugs, p.domain, Body(p)) && Leads(slugs, p.part, p.part + "-" + p.number) && Standing(p.number)
    && (if p.suffix == "" then !Matches(Duplicate(), Body(p)) && !Matches(DuplicateLike(), p.number)
        else Matches(DuplicateTail(), p.suffix))
  }

  lemma RenderJoins(p: CaseIdParts)
    requires 0 <= p.year
    ensures Render(p) == "senqa-" + Decimal(p.year) + "-" + Body(p) + p.suffix
    ensures Body(p) == p.domain + "-" + (p.part + "-" + p.number)
  {
  }

  lemma SlugsExactly(slugs: seq<string>, p: CaseIdParts)
    ensures Leads(slugs, p.domain, Body(p)) && Leads(slugs, p.part, p.part + "-" + p.number) <==>
            && ConsumeBusinessSlug(slugs, Body(p)) == Some((p.domain, p.part + "-" + p.number))
            && ConsumeBusinessSlug(slugs, p.part + "-" + p.number) == Some((p.part, p.number))
  {
    assert Body(p) == p.domain + "-" + (p.part + "-" + p.number);
    ConsumedExactly(slugs, Body(p), p.domain, p.part + "-" + p.number);
    ConsumedExactly(slugs, p.part + "-" + p.number, p.part, p.number);
  }

  /** An id is valid, and parses to its parts, exactly when it is made of them by the grammar. */
  lemma ParsesExactly(slugs: seq<string>, id: string, p: CaseIdParts)
    ensures ParseCaseId(slugs, id) == Some(p) <==> Grammatical(slugs, id, p)
  {
    if ParseCaseId(slugs, id) == Some(p) { ParsedIsGrammatical(slugs, id, p); }
    if Grammatical(slugs, id, p) { GrammaticalParses(slugs, id, p); }
  }

  lemma ParsedIsGrammatical(slugs: seq<string>, id: string, p: CaseIdParts)
    requires ParseCaseId(slugs, id) == Some(p)
    ensures Grammatical(slugs, id, p)
  {
    CanonicalIdExactly(id);
    ParsedIdRenders(slugs, id);
    ParsedPartsAreCanonical(slugs, id);
    StandingExactly(p.number);
    CanonicalNumberShape(p.number);
    ParsedSlugs(slugs, id[11..], p);
    if p.suffix == "" { ParsedWhole(slugs, id, p); } else { DuplicateTailExactly(p.suffix); }
    RenderJoins(p);
  }

  lemma ParsedSlugs(slugs: seq<string>, body: string, p: CaseIdParts)
    requires CanonicalBodyComponents(slugs, body).Some?
             && p == ReadParts(p.year, CanonicalBodyComponents(slugs, body).value)
    requires Hyphenated(p.number, IsBodyChar)
    ensures Leads(slugs, p.domain, Body(p)) && Leads(slugs, p.part, p.part + "-" + p.number)
  {
    BaseBodyConsumed(slugs, body);
    SlugsExactly(slugs, p);
    assert Body(p) == p.domain + "-" + (p.part + "-" + p.number);
  }

  lemma ParsedWhole(slugs: seq<string>, id: string, p: CaseIdParts)
    requires ParseCaseId(slugs, id) == Some(p) && p.suffix == "" && Render(p) == id && 1900 <= p.year <= 2100
    requires Hyphenated(p.number, IsBodyChar)
    ensures !Matches(Duplicate(), Body(p)) && !Matches(DuplicateLike(), p.number)
  {
    RenderedFields(p);
    assert Body(p) + "" == Body(p);
    WholeParsed(slugs, Body(p), p.number);
    AbsentExactly(Body(p), p.number);
  }

  lemma WholeParsed(slugs: seq<string>, body: string, number: string)
    requires CanonicalBodyComponents(slugs, body).Some? && Hyphenated(number, IsBodyChar)
    requires var component := CanonicalBodyComponents(slugs, body).value.component;
             SplitComponent(component) == (number, "") && IsCanonicalCaseComponent(component)
    ensures SplitDuplicate(body).None? && !IsDuplicateLike(number)
  {
    var component := CanonicalBodyComponents(slugs, body).value.component;
    if SplitDuplicate(body).Some? { SplitGivesSuffix(slugs, body); }
    ComponentJoins(component);
    assert number + "" == number;
  }

  /** In a body of one line, no suffix and no look-alike, for the checks and for the patterns. */
  lemma {:induction false} AbsentExactly(body: string, number: string)
    requires Hyphenated(body, IsBodyChar) && Hyphenated(number, IsBodyChar)
    ensures SplitDuplicate(body).None? && !IsDuplicateLike(number) <==>
            !Matches(Duplicate(), body) && !Matches(DuplicateLike(), number)
  {
    NotInOneLine(body);
    NotInOneLine(number);
    DuplicateExactly(body);
    DuplicateLikeExactly(number);
  }

  lemma NotInOneLine(body: string)
    requires Hyphenated(body, IsBodyChar)
    ensures '\n' !in body
  {
  }

  /** A suffix that splits off the body is the suffix of its component. */
  lemma SplitGivesSuffix(slugs: seq<string>, body: string)
    requires SplitDuplicate(body).Some? && CanonicalBodyComponents(slugs, body).Some?
    requires Hyphenated(SplitComponent(CanonicalBodyComponents(slugs, body).value.component).0, IsBodyChar)
    ensures SplitComponent(CanonicalBodyComponents(slugs, body).value.component).1 != ""
  {
    var k := SplitDuplicate(body).value;
    var domain := ConsumeBusinessSlug(slugs, body[..k]);
    var rest := ConsumeBusinessSlug(slugs, domain.value.1).value.1;
    RestIsNumberWhenSplit(rest, body[k..]);
  }

  /** The same with the checks of the code instead of patterns. */
  predicate Checked(slugs: seq<string>, p: CaseIdParts) {
    && 1900 <= p.year <= 2100 && |Render(p)| <= 200 && Hyphenated(Body(p) + p.suffix, IsBodyChar)
    && ConsumeBusinessSlug(slugs, Body(p)) == Some((p.domain, p.part + "-" + p.number))
    && ConsumeBusinessSlug(slugs, p.part + "-" + p.number) == Some((p.part, p.number))
    && NormalizeCaseNumber(p.number) == Ok(p.number)
    && if p.suffix == "" then SplitDuplicate(Body(p)).None? && !IsDuplicateLike(p.number) else IsDuplicateTail(p.suffix)
  }

  lemma GrammaticalParses(slugs: seq<string>, id: string, p: CaseIdParts)
    requires Grammatical(slugs, id, p)
    ensures ParseCaseId(slugs, id) == Some(p)
  {
    RenderJoins(p);
    GrammaticalBody(slugs, id, p);
    SlugsExactly(slugs, p);
    StandingExactly(p.number);
    GrammaticalSuffix(p);
    CheckedParses(slugs, p);
  }

  lemma {:induction false} GrammaticalBody(slugs: seq<string>, id: string, p: CaseIdParts)
    requires Matches(CanonicalId(), id) && 1900 <= p.year <= 2100 && Render(p) == id
    ensures Hyphenated(Body(p) + p.suffix, IsBodyChar)
  {
    CanonicalIdExactly(id);
    RenderedFields(p);
  }

  lemma GrammaticalSuffix(p: CaseIdParts)
    requires NormalizeCaseNumber(p.number) == Ok(p.number) && Hyphenated(Body(p) + p.suffix, IsBodyChar)
    requires if p.suffix == "" then !Matches(Duplicate(), Body(p)) && !Matches(DuplicateLike(), p.number)
             else Matches(DuplicateTail(), p.suffix)
    ensures if p.suffix == "" then SplitDuplicate(Body(p)).None? && !IsDuplicateLike(p.number)
            else IsDuplicateTail(p.suffix)
  {
    if p.suffix == "" {
      assert Body(p) + "" == Body(p);
      CanonicalNumberShape(p.number);
      AbsentExactly(Body(p), p.number);
    } else {
      DuplicateTailExactly(p.suffix);
    }
  }

  lemma CheckedParses(slugs: seq<string>, p: CaseIdParts)
    requires Checked(slugs, p)
    ensures ParseCaseId(slugs, Render(p)) == Some(p)
  {
    if p.suffix == "" {
      assert Body(p) + "" == Body(p);
      WholeParses(slugs, p);
    } else {
      CanonicalNumberShape(p.number);
      SuffixedPartsParse(slugs, p);
    }
  }

  /** The validator takes consumable parts without a suffix whose body has none, and parses them back. */
  lemma WholeParses(slugs: seq<string>, p: CaseIdParts)
    requires 1900 <= p.year <= 2100 && |Render(p)| <= 200 && p.suffix == ""
    requires NormalizeCaseNumber(p.number) == Ok(p.number) && !IsDuplicateLike(p.number)
    requires ConsumeBusinessSlug(slugs, Body(p)) == Some((p.domain, p.part + "-" + p.number))
    requires ConsumeBusinessSlug(slugs, p.part + "-" + p.number) == Some((p.part, p.number))
    requires SplitDuplicate(Body(p)).None? && Hyphenated(Body(p), IsBodyChar)
    ensures ParseCaseId(slugs, Render(p)) == Some(p)
  {
    RenderedFields(p);
    assert Body(p) + "" == Body(p);
    WholeBody(slugs, p.domain, p.part, p.number);
  }

  lemma WholeBody(slugs: seq<string>, domain: string, part: string, number: string)
    requires var body := domain + "-" + part + "-" + number;
             SplitDuplicate(body).None? && ConsumeBusinessSlug(slugs, body) == Some((domain, part + "-" + number))
    requires ConsumeBusinessSlug(slugs, part + "-" + number) == Some((part, number)) && !IsDuplicateLike(number)
    requires NormalizeCaseNumber(number) == Ok(number)
    ensures CanonicalBodyComponents(slugs, domain + "-" + part + "-" + number) == Some(BodyParts(domain, part, number))
    ensures SplitComponent(number) == (number, "") && IsCanonicalCaseComponent(number)
  {
    assert number + "" == number;
    RestIsNumberWhenWhole(domain + "-" + part + "-", number);
  }
}
