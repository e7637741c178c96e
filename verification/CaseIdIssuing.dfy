/** Which ids are issued for which labels, numbers and titles (src/corpus/ids.py). */
module CaseIdIssuing {
  import opened CaseIdGrammar
  import opened CaseIdLaws
  import opened CaseIdNames
  import opened CaseIdPatterns
  import opened CaseIds
  import opened CaseNumberPatterns
  import opened Patterns
  import opened Strings
  import opened TextWords
  import opened Wrappers

  // ----- from parts to ids -----

  /** Parts without a suffix of their own, and with one only where the body has none. */
  ghost predicate Unambiguous(p: CaseIdParts) { !Matches(Duplicate(), Body(p)) }

  /** Parts are issued exactly as the id that the grammar makes of them, and only when their body does not read as one
      with a suffix. */
  lemma IssuedExactly(slugs: seq<string>, id: string, p: CaseIdParts)
    requires 1900 <= p.year <= 2100 && NormalizeCaseNumber(p.number) == Ok(p.number)
    requires p.suffix == "" || IsDuplicateTail(p.suffix)
    ensures IssueId(slugs, p.year, p.domain, p.part, p.number, Ok(p.suffix)) == Ok(id) <==>
            Grammatical(slugs, id, p) && Unambiguous(p)
  {
    CanonicalNumberShape(p.number);
    if IssueId(slugs, p.year, p.domain, p.part, p.number, Ok(p.suffix)) == Ok(id) {
      IssuedIdParses(slugs, p.year, p.domain, p.part, p.number, p.suffix);
      ParsesExactly(slugs, id, p);
      BodyDoesNotSplit(slugs, p.domain, p.part, p.number);
      BodyUnsplit(id, p);
    }
    if Grammatical(slugs, id, p) && Unambiguous(p) {
      ParsesExactly(slugs, id, p);
      BodyUnsplit(id, p);
      GrammaticalIssues(slugs, id, p);
    }
  }

  lemma {:induction false} BodyUnsplit(id: string, p: CaseIdParts)
    requires 1900 <= p.year <= 2100 && Matches(CanonicalId(), id)
    requires id == "senqa-" + Decimal(p.year) + "-" + Body(p) + p.suffix
    ensures Unambiguous(p) <==> SplitDuplicate(Body(p)).None?
  {
    RenderJoins(p);
    RenderedFields(p);
    CanonicalIdExactly(id);
    assert forall i :: 0 <= i < |Body(p)| ==> Body(p)[i] == id[11..][i];
    OneLineBody(Body(p), id[11..]);
    DuplicateExactly(Body(p));
  }

  lemma OneLineBody(body: string, whole: string)
    requires |body| <= |whole| && Hyphenated(whole, IsBodyChar) && forall i :: 0 <= i < |body| ==> body[i] == whole[i]
    ensures '\n' !in body
  {
    forall c | c in body ensures c != '\n' {
      var i :| 0 <= i < |body| && body[i] == c;
      assert whole[i] == '-' || IsBodyChar(whole[i]);
    }
  }

  lemma GrammaticalIssues(slugs: seq<string>, id: string, p: CaseIdParts)
    requires ParseCaseId(slugs, id) == Some(p) && SplitDuplicate(Body(p)).None? && Hyphenated(p.number, IsBodyChar)
    requires SplitDuplicate(p.number).None? && 1900 <= p.year <= 2100
    ensures IssueId(slugs, p.year, p.domain, p.part, p.number, Ok(p.suffix)) == Ok(id)
  {
    ParsedIdRenders(slugs, id);
    BaseBodyConsumed(slugs, id[11..]);
    PartsCheckExactly(slugs, p);
    IssuedWhenConsumed(slugs, p, id);
  }

  // ----- from labels, numbers and titles to parts -----

  /** The words of the number, joined by hyphens, in lower case and not refused, or the numeral of their value. */
  ghost predicate GivesNumber(caseNo: string, number: string) {
    && Words(caseNo) != []
    && exists typed, canonical ::
         && Canonicalized(Sentence(Words(caseNo)), typed, canonical)
         && Matches(Runs(IsCaseNumberChar), typed) && !Refused(canonical)
         && number == if AllDigits(canonical) then Decimal(Value(canonical)) else canonical
  }

  lemma GivesNumberExactly(caseNo: string, number: string)
    ensures NormalizeCaseNumber(caseNo) == Ok(number) <==> GivesNumber(caseNo, number)
  {
    var sentence := Sentence(Words(caseNo));
    var typed := Replace(sentence, ' ', '-');
    var canonical := Lower(typed);
    assert Canonicalized(sentence, typed, canonical);
    NumberExactly(caseNo, typed, canonical);
    forall t, c | Canonicalized(sentence, t, c) ensures t == typed && c == canonical {
      CanonicalizedBy(sentence, t, c);
    }
  }

  lemma NamesLabelExactly(naming: Naming, name: string, slug: string)
    requires naming.Valid()
    ensures BusinessSlug(naming, name) == Some(slug) <==> NamesLabel(naming, name, slug)
  {
    CleanedIsSentence(name);
  }

  lemma NamesAnchorExactly(naming: Naming, startPage: Option<int>, title: Option<string>, suffix: string)
    requires naming.Valid()
    ensures DuplicateSuffix(naming, startPage, title) == Ok(suffix) <==> NamesAnchor(naming, startPage, title, suffix)
  {
    if title.Some? { CleanedIsSentence(title.value); }
  }

  /** What a call names: its year, a slug for each label, its number, and its anchor when it is a duplicate. */
  ghost predicate Names(naming: Naming, year: int, domain: string, part: string, caseNo: string,
                        startPage: Option<int>, title: Option<string>, duplicate: bool, p: CaseIdParts)
    requires naming.Valid()
  {
    && p.year == year && 1900 <= year <= 2100
    && NamesLabel(naming, domain, p.domain) && NamesLabel(naming, part, p.part) && GivesNumber(caseNo, p.number)
    && if duplicate then NamesAnchor(naming, startPage, title, p.suffix) else p.suffix == ""
  }

  /** A call issues an id exactly when the id is made by the grammar of what the call names, and the body of that does
      not itself read as one with a suffix. */
  lemma MadeExactly(naming: Naming, year: int, domain: string, part: string, caseNo: string, startPage: Option<int>,
                    title: Option<string>, duplicate: bool, id: string)
    requires naming.Valid()
    ensures MakeCaseId(naming, year, domain, part, caseNo, startPage, title, duplicate) == Ok(id) <==>
            exists p :: Names(naming, year, domain, part, caseNo, startPage, title, duplicate, p)
                        && Grammatical(naming.slugs, id, p) && Unambiguous(p)
  {
    if MakeCaseId(naming, year, domain, part, caseNo, startPage, title, duplicate) == Ok(id) {
      var p := MadeParts(naming, year, domain, part, caseNo, startPage, title, duplicate);
      NamedExactly(naming, year, domain, part, caseNo, startPage, title, duplicate, p);
      NamedIssues(naming, year, domain, part, caseNo, startPage, title, duplicate, p, id);
    }
    if p :| Names(naming, year, domain, part, caseNo, startPage, title, duplicate, p)
            && Grammatical(naming.slugs, id, p) && Unambiguous(p) {
      NamedExactly(naming, year, domain, part, caseNo, startPage, title, duplicate, p);
      NamedIssues(naming, year, domain, part, caseNo, startPage, title, duplicate, p, id);
    }
  }

  /** The parts that the code computes for a call. */
  predicate PartsOf(naming: Naming, year: int, domain: string, part: string, caseNo: string,
                    startPage: Option<int>, title: Option<string>, duplicate: bool, p: CaseIdParts)
    requires naming.Valid()
  {
    && p.year == year && 1900 <= year <= 2100
    && BusinessSlug(naming, domain) == Some(p.domain) && BusinessSlug(naming, part) == Some(p.part)
    && NormalizeCaseNumber(caseNo) == Ok(p.number)
    && if duplicate then DuplicateSuffix(naming, startPage, title) == Ok(p.suffix) else p.suffix == ""
  }

  lemma NamedExactly(naming: Naming, year: int, domain: string, part: string, caseNo: string, startPage: Option<int>,
                     title: Option<string>, duplicate: bool, p: CaseIdParts)
    requires naming.Valid()
    ensures PartsOf(naming, year, domain, part, caseNo, startPage, title, duplicate, p)
            <==> Names(naming, year, domain, part, caseNo, startPage, title, duplicate, p)
  {
    NamesLabelExactly(naming, domain, p.domain);
    NamesLabelExactly(naming, part, p.part);
    GivesNumberExactly(caseNo, p.number);
    NamesAnchorExactly(naming, startPage, title, p.suffix);
  }

  lemma NamedIssues(naming: Naming, year: int, domain: string, part: string, caseNo: string, startPage: Option<int>,
                    title: Option<string>, duplicate: bool, p: CaseIdParts, id: string)
    requires naming.Valid() && PartsOf(naming, year, domain, part, caseNo, startPage, title, duplicate, p)
    ensures MakeCaseId(naming, year, domain, part, caseNo, startPage, title, duplicate) == Ok(id)
            <==> Grammatical(naming.slugs, id, p) && Unambiguous(p)
  {
    MadeFromParts(naming, year, domain, part, caseNo, startPage, title, duplicate, p);
    PartsWellFormed(naming, year, domain, part, caseNo, startPage, title, duplicate, p);
    IssuedExactly(naming.slugs, id, p);
  }

  lemma MadeParts(naming: Naming, year: int, domain: string, part: string, caseNo: string, startPage: Option<int>,
                  title: Option<string>, duplicate: bool)
      returns (p: CaseIdParts)
    requires naming.Valid() && MakeCaseId(naming, year, domain, part, caseNo, startPage, title, duplicate).Ok?
    ensures PartsOf(naming, year, domain, part, caseNo, startPage, title, duplicate, p)
  {
    p := CaseIdParts(year, BusinessSlug(naming, domain).value, BusinessSlug(naming, part).value,
                     NormalizeCaseNumber(caseNo).value,
                     if duplicate then DuplicateSuffix(naming, startPage, title).value else "");
  }

  lemma MadeFromParts(naming: Naming, year: int, domain: string, part: string, caseNo: string, startPage: Option<int>,
                      title: Option<string>, duplicate: bool, p: CaseIdParts)
    requires naming.Valid() && PartsOf(naming, year, domain, part, caseNo, startPage, title, duplicate, p)
    ensures MakeCaseId(naming, year, domain, part, caseNo, startPage, title, duplicate)
            == IssueId(naming.slugs, p.year, p.domain, p.part, p.number, Ok(p.suffix))
  {
  }

  lemma PartsWellFormed(naming: Naming, year: int, domain: string, part: string, caseNo: string,
                        startPage: Option<int>, title: Option<string>, duplicate: bool, p: CaseIdParts)
    requires naming.Valid() && PartsOf(naming, year, domain, part, caseNo, startPage, title, duplicate, p)
    ensures NormalizeCaseNumber(p.number) == Ok(p.number) && (p.suffix == "" || IsDuplicateTail(p.suffix))
  {
    NormalizeIdempotent(caseNo);
    if duplicate { DuplicateSuffixShape(naming, startPage, title); }
  }
}
