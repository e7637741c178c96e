/** What the printer and the parser of case ids promise each other (src/corpus/ids.py). */
module CaseIdLaws {
  import opened Strings
  import opened Wrappers
  import opened CaseIds

  // ----- case numbers -----

  lemma {:induction false} CollapseWithoutSpaces(s: string)
    requires forall i :: 0 <= i < |s| ==> !IsSpace(s[i])
    ensures CollapseFrom(s, false) == s
  {
    if s != "" {
      CollapseWithoutSpaces(s[1..]);
    }
  }

  lemma {:induction false} StripLeadingZerosShape(s: string)
    requires s != "" && AllDigits(s)
    ensures var r := StripLeadingZeros(s);
            r != "" && AllDigits(r) && |r| <= |s| && (|r| > 1 ==> r[0] != '0')
  {
    if |s| > 1 && s[0] == '0' {
      StripLeadingZerosShape(s[1..]);
    }
  }

  lemma {:induction false} DigitsHaveNoHyphens(s: string)
    requires AllDigits(s)
    ensures WithoutHyphens(s) == s
  {
    if s != "" {
      DigitsHaveNoHyphens(s[1..]);
    }
  }

  lemma ShortDigitsNotRejected(s: string)
    requires s != "" && AllDigits(s) && |s| < 10
    ensures !NumberRequiresRejection(s)
  {
    DigitsHaveNoHyphens(s);
    forall i | 0 <= i < |s| ensures !ProviderTokenAt(s, i) { assert IsDigit(s[i..][0]); }
  }

  /** Lower-case hyphenated text is already normalized text; only the reserved forms matter. */
  lemma NormalizeLowerCase(s: string)
    requires Hyphenated(s, IsBodyChar)
    ensures NormalizeCaseNumber(s) == CheckedNumber(s)
  {
    CollapseWithoutSpaces(s);
    LowerCaseFixed(s);
    PlainNumber(s);
  }

  lemma PlainNumber(s: string)
    requires NormalizedText(s) == Some(s) && Replace(s, ' ', '-') == s && Lower(s) == s
             && Hyphenated(s, IsCaseNumberChar)
    ensures NormalizeCaseNumber(s) == CheckedNumber(s)
  {
  }

  lemma {:induction false} LowerCaseFixed(s: string)
    requires Hyphenated(s, IsBodyChar)
    ensures Strip(s) == s && Replace(s, ' ', '-') == s && Lower(s) == s
  {
  }

  lemma CanonicalNumberShape(caseNo: string)
    requires NormalizeCaseNumber(caseNo).Ok?
    ensures var n := NormalizeCaseNumber(caseNo).value;
            Hyphenated(n, IsBodyChar) && SplitDuplicate(n).None?
  {
    var text := NormalizedText(caseNo).value;
    var canonical := Lower(Replace(text, ' ', '-'));
    if AllDigits(canonical) {
      StripLeadingZerosShape(canonical);
    }
  }

  /** Normalizing a case number twice changes nothing. */
  lemma NormalizeIdempotent(caseNo: string)
    requires NormalizeCaseNumber(caseNo).Ok?
    ensures NormalizeCaseNumber(NormalizeCaseNumber(caseNo).value) == NormalizeCaseNumber(caseNo)
  {
    var n := NormalizeCaseNumber(caseNo).value;
    var canonical := Lower(Replace(NormalizedText(caseNo).value, ' ', '-'));
    CanonicalNumberShape(caseNo);
    NormalizeLowerCase(n);
    if AllDigits(canonical) {
      StripLeadingZerosShape(canonical);
      assert |canonical| < 10 by { DigitsHaveNoHyphens(canonical); }
      ShortDigitsNotRejected(n);
    }
  }

  // ----- suffixes -----

  lemma DuplicateSuffixShape(naming: Naming, startPage: Option<int>, title: Option<string>)
    requires naming.Valid() && DuplicateSuffix(naming, startPage, title).Ok?
    ensures IsDuplicateTail(DuplicateSuffix(naming, startPage, title).value)
  {
    var digits := Decimal(startPage.value);
    DecimalShape(startPage.value);
    var hash := naming.sha256(NormalizedText(title.value).value)[..8];
    var t := "-p" + digits + "-" + hash;
    assert t[3..|t| - 9] == digits[1..];
    assert t[|t| - 8..] == hash;
  }

  lemma SplitAppended(base: string, tail: string)
    requires base != "" && IsDuplicateTail(tail)
    ensures SplitDuplicate(base + tail) == Some(|base|)
  {
    assert (base + tail)[|base|..] == tail;
    SplitDuplicateExact(base + tail, |base|);
  }

  /** A canonical number is never read as part of the body's duplicate suffix. */
  lemma BodyDoesNotSplit(slugs: seq<string>, domain: string, part: string, number: string)
    requires Hyphenated(number, IsBodyChar) && SplitDuplicate(number).None?
    requires CanonicalBodyComponents(slugs, domain + "-" + part + "-" + number) == Some(BodyParts(domain, part, number))
    ensures SplitDuplicate(domain + "-" + part + "-" + number).None?
  {
    var body := domain + "-" + part + "-" + number;
    var split := SplitDuplicate(body);
    if split.Some? {
      var front := ConsumeBusinessSlug(slugs, ConsumeBusinessSlug(slugs, body[..split.value]).value.1).value.1;
      var tail := body[split.value..];
      assert number == front + tail;
      assert front != "" by { assert number[0] != '-' == tail[0]; }
      SplitAppended(front, tail);
    }
  }

  // ----- printing and parsing undo each other -----

  lemma RenderedFields(p: CaseIdParts)
    requires 1900 <= p.year <= 2100
    ensures var id := Render(p);
            |id| > 11 && id[..6] == "senqa-" && id[6..10] == Decimal(p.year) && id[10] == '-'
            && id[11..] == (p.domain + "-" + p.part + "-" + p.number) + p.suffix
            && AllDigits(id[6..10]) && Value(id[6..10]) == p.year
  {
    assert TenTo(3) == 1000 by { assert TenTo(1) == 10 && TenTo(2) == 100; }
    DecimalLength(p.year, 4, 1000);
    ValueOfDecimal(p.year);
    var id := Render(p);
    assert id == "senqa-" + Decimal(p.year) + ("-" + ((p.domain + "-" + p.part + "-" + p.number) + p.suffix));
  }

  /** The parser cuts a checked body, with or without an appended suffix, at the same slugs. */
  lemma SuffixedBodyParses(slugs: seq<string>, domain: string, part: string, number: string, suffix: string)
    requires Hyphenated(number, IsBodyChar) && SplitDuplicate(number).None?
    requires CanonicalBodyComponents(slugs, domain + "-" + part + "-" + number) == Some(BodyParts(domain, part, number))
    requires suffix == "" || IsDuplicateTail(suffix)
    ensures CanonicalBodyComponents(slugs, (domain + "-" + part + "-" + number) + suffix)
            == Some(BodyParts(domain, part, number + suffix))
  {
    var body := domain + "-" + part + "-" + number;
    BodyDoesNotSplit(slugs, domain, part, number);
    var rest := ConsumeBusinessSlug(slugs, ConsumeBusinessSlug(slugs, body).value.1).value.1;
    assert rest + "" == rest == number;
    if suffix == "" {
      assert body + suffix == body && number + suffix == number;
    } else {
      SplitAppended(body, suffix);
      assert (body + suffix)[..|body|] == body && (body + suffix)[|body|..] == suffix;
    }
  }

  /** Whatever slugs, number and suffix an id is issued from, parsing gives exactly them back. */
  lemma IssuedIdParses(slugs: seq<string>, year: int, domain: string, part: string, number: string, suffix: string)
    requires 1900 <= year <= 2100
    requires Hyphenated(number, IsBodyChar) && SplitDuplicate(number).None?
    requires suffix == "" || IsDuplicateTail(suffix)
    requires IssueId(slugs, year, domain, part, number, Ok(suffix)).Ok?
    ensures ParseCaseId(slugs, IssueId(slugs, year, domain, part, number, Ok(suffix)).value)
            == Some(CaseIdParts(year, domain, part, number, suffix))
  {
    var id := Render(CaseIdParts(year, domain, part, number, suffix));
    RenderedFields(CaseIdParts(year, domain, part, number, suffix));
    SuffixedBodyParses(slugs, domain, part, number, suffix);
    assert CanonicalBodyComponents(slugs, id[11..]) == Some(BodyParts(domain, part, number + suffix));
    if suffix == "" {
      assert number + suffix == number;
    } else {
      AppendedComponent(number, suffix);
    }
  }

  /** `make_case_id` always issues a valid id that parses back to what it was built from. */
  lemma MadeIdParses(naming: Naming, year: int, domain: string, part: string, caseNo: string,
                     startPage: Option<int>, title: Option<string>, duplicate: bool)
    requires naming.Valid()
    requires MakeCaseId(naming, year, domain, part, caseNo, startPage, title, duplicate).Ok?
    ensures var id := MakeCaseId(naming, year, domain, part, caseNo, startPage, title, duplicate).value;
            BusinessSlug(naming, domain).Some? && BusinessSlug(naming, part).Some?
            && NormalizeCaseNumber(caseNo).Ok? && (duplicate ==> DuplicateSuffix(naming, startPage, title).Ok?)
            && ParseCaseId(naming.slugs, id) == Some(CaseIdParts(
                 year, BusinessSlug(naming, domain).value, BusinessSlug(naming, part).value,
                 NormalizeCaseNumber(caseNo).value,
                 if duplicate then DuplicateSuffix(naming, startPage, title).value else ""))
  {
    CanonicalNumberShape(caseNo);
    NormalizeIdempotent(caseNo);
    if duplicate { DuplicateSuffixShape(naming, startPage, title); }
    IssuedIdParses(naming.slugs, year, BusinessSlug(naming, domain).value, BusinessSlug(naming, part).value,
                   NormalizeCaseNumber(caseNo).value,
                   if duplicate then DuplicateSuffix(naming, startPage, title).value else "");
  }

  /** Equal duplicate suffixes name the same page and the same title hash. */
  lemma EqualSuffixes(naming: Naming, page1: int, title1: string, page2: int, title2: string)
    requires naming.Valid()
    requires DuplicateSuffix(naming, Some(page1), Some(title1)).Ok?
    requires DuplicateSuffix(naming, Some(page1), Some(title1)) == DuplicateSuffix(naming, Some(page2), Some(title2))
    ensures page1 == page2
    ensures naming.sha256(NormalizedText(title1).value)[..8] == naming.sha256(NormalizedText(title2).value)[..8]
  {
    var s := DuplicateSuffix(naming, Some(page1), Some(title1)).value;
    var hash1 := naming.sha256(NormalizedText(title1).value)[..8];
    var hash2 := naming.sha256(NormalizedText(title2).value)[..8];
    assert s[2..|s| - 9] == Decimal(page1) && s[|s| - 8..] == hash1;
    assert s[2..|s| - 9] == Decimal(page2) && s[|s| - 8..] == hash2;
    ValueOfDecimal(page1);
    ValueOfDecimal(page2);
  }

  /** The eight digits of a title that is not blank. */
  function TitleHash(naming: Naming, title: Option<string>): Option<string>
    requires naming.Valid()
  {
    if title.None? || NormalizedText(title.value).None? then None
    else Some(naming.sha256(NormalizedText(title.value).value)[..8])
  }

  /** Two calls that issue the same id were made for the same year, slugs, number, and anchor. */
  lemma EqualIdsEqualParts(naming: Naming,
                           year1: int, domain1: string, part1: string, caseNo1: string, page1: Option<int>,
                             title1: Option<string>, dup1: bool,
                           year2: int, domain2: string, part2: string, caseNo2: string, page2: Option<int>,
                             title2: Option<string>, dup2: bool)
    requires naming.Valid()
    requires MakeCaseId(naming, year1, domain1, part1, caseNo1, page1, title1, dup1).Ok?
    requires MakeCaseId(naming, year1, domain1, part1, caseNo1, page1, title1, dup1)
             == MakeCaseId(naming, year2, domain2, part2, caseNo2, page2, title2, dup2)
    ensures year1 == year2 && dup1 == dup2
    ensures BusinessSlug(naming, domain1) == BusinessSlug(naming, domain2)
    ensures BusinessSlug(naming, part1) == BusinessSlug(naming, part2)
    ensures NormalizeCaseNumber(caseNo1) == NormalizeCaseNumber(caseNo2)
    ensures dup1 ==>
              page1 == page2 && TitleHash(naming, title1).Some?
                && TitleHash(naming, title1) == TitleHash(naming, title2)
  {
    MadeIdParses(naming, year1, domain1, part1, caseNo1, page1, title1, dup1);
    MadeIdParses(naming, year2, domain2, part2, caseNo2, page2, title2, dup2);
    if dup1 { DuplicateSuffixShape(naming, page1, title1); }
    if dup2 { DuplicateSuffixShape(naming, page2, title2); }
    if dup1 { EqualSuffixes(naming, page1.value, title1.value, page2.value, title2.value); }
  }

  lemma BodyPartsRejoin(slugs: seq<string>, body: string)
    requires CanonicalBodyComponents(slugs, body).Some?
    ensures var b := CanonicalBodyComponents(slugs, body).value;
            body == b.domain + "-" + b.part + "-" + b.component
  {
    var split := SplitDuplicate(body);
    var base := if split.Some? then body[..split.value] else body;
    var suffix := if split.Some? then body[split.value..] else "";
    assert body == base + suffix;
    var b := CanonicalBodyComponents(slugs, body).value;
    var rest := ConsumeBusinessSlug(slugs, ConsumeBusinessSlug(slugs, base).value.1).value.1;
    SlugsRejoin(b.domain, b.part, rest, suffix);
  }

  lemma SlugsRejoin(domain: string, part: string, rest: string, suffix: string)
    ensures (domain + "-" + (part + "-" + rest)) + suffix == domain + "-" + part + "-" + (rest + suffix)
  {
  }

  lemma {:induction false} YearRejoins(digits: string)
    requires |digits| == 4 && AllDigits(digits) && 1900 <= Value(digits)
    ensures Decimal(Value(digits)) == digits
  {
    if digits[0] == '0' { LeadingZeroIsSmall(digits); }
    DecimalOfValue(digits);
  }

  lemma RenderGroups(p: CaseIdParts, component: string)
    requires 0 <= p.year && component == p.number + p.suffix
    ensures Render(p) == "senqa-" + Decimal(p.year) + "-" + (p.domain + "-" + p.part + "-" + component)
  {
    var head := "senqa-" + Decimal(p.year) + "-";
    assert Render(p) == head + (p.domain + "-" + p.part + "-" + p.number) + p.suffix;
    assert (p.domain + "-" + p.part + "-" + p.number) + p.suffix == p.domain + "-" + p.part + "-" + component;
  }

  lemma HeaderJoins(id: string)
    requires |id| > 11 && id[..6] == "senqa-" && id[10] == '-'
    ensures id == "senqa-" + id[6..10] + "-" + id[11..]
  {
    assert id[..11] == id[..6] + id[6..10] + [id[10]];
    assert id == id[..11] + id[11..];
  }

  lemma ComponentJoins(component: string)
    ensures component == SplitComponent(component).0 + SplitComponent(component).1
  {
    var split := SplitDuplicate(component);
    if split.Some? { assert component == component[..split.value] + component[split.value..]; }
  }

  /** Re-joining what was read from an id text gives the text. */
  lemma ReadPartsRender(slugs: seq<string>, id: string)
    requires |id| > 11 && id[..6] == "senqa-" && AllDigits(id[6..10]) && id[10] == '-'
    requires 1900 <= Value(id[6..10]) && CanonicalBodyComponents(slugs, id[11..]).Some?
    ensures Render(ReadParts(Value(id[6..10]), CanonicalBodyComponents(slugs, id[11..]).value)) == id
  {
    var body := CanonicalBodyComponents(slugs, id[11..]).value;
    var p := ReadParts(Value(id[6..10]), body);
    YearRejoins(id[6..10]);
    BodyPartsRejoin(slugs, id[11..]);
    ComponentJoins(body.component);
    RenderGroups(p, body.component);
    HeaderJoins(id);
  }

  /** Re-joining the parsed parts of any valid id gives the id. */
  lemma ParsedIdRenders(slugs: seq<string>, id: string)
    requires ParseCaseId(slugs, id).Some?
    ensures Render(ParseCaseId(slugs, id).value) == id
  {
    ReadPartsRender(slugs, id);
  }

  /** Every part of a valid id is canonical on its own. */
  lemma ParsedPartsAreCanonical(slugs: seq<string>, id: string)
    requires ParseCaseId(slugs, id).Some?
    ensures var p := ParseCaseId(slugs, id).value;
            1900 <= p.year <= 2100 && (p.suffix == "" || IsDuplicateTail(p.suffix))
            && NormalizeCaseNumber(p.number) == Ok(p.number)
  {
    var component := CanonicalBodyComponents(slugs, id[11..]).value.component;
    assert component[..|component|] == component;
  }

  lemma {:induction false} LeadingZeroIsSmall(s: string)
    requires |s| == 4 && AllDigits(s) && s[0] == '0'
    ensures Value(s) < 1000
  {
    var s3, s2, s1 := s[..3], s[..2], s[..1];
    assert s3[..2] == s2 && s2[..1] == s1 && s1[..0] == "";
    assert Value(s1) == 0;
    assert Value(s2) < 10;
    assert Value(s3) < 100;
  }

  // ----- which valid ids the printer can issue -----

  lemma {:induction false} FirstRegisteredIsRegistered(slugs: seq<string>, value: string)
    requires FirstRegistered(slugs, value).Some?
    ensures FirstRegistered(slugs, value).value.0 in slugs
  {
    if !(slugs[0] + "-" <= value) { FirstRegisteredIsRegistered(slugs[1..], value); }
  }

  predicate NoDigits(s: string) { forall i :: 0 <= i < |s| ==> !IsDigit(s[i]) }

  lemma ConsumedSlugShape(slugs: seq<string>, value: string)
    requires ConsumeBusinessSlug(slugs, value).Some?
    requires forall slug :: slug in slugs ==> NoDigits(slug)
    ensures var slug := ConsumeBusinessSlug(slugs, value).value.0; NoDigits(slug) || AllHex(slug)
  {
    if FirstRegistered(slugs, value).Some? {
      FirstRegisteredIsRegistered(slugs, value);
    }
  }

  /** A duplicate suffix has two hyphens, and digits between the `p` and the second one. */
  lemma DuplicateTailShape(t: string)
    requires IsDuplicateTail(t)
    ensures forall i :: 2 <= i < |t| - 9 ==> IsDigit(t[i])
    ensures forall i :: 0 < i < |t| && i != |t| - 9 ==> t[i] != '-'
    ensures IsDuplicateLikeTail(t)
  {
    forall i | 2 <= i < |t| - 9 ensures IsDigit(t[i]) {
      if i >= 3 { assert t[i] == t[3..|t| - 9][i - 3]; }
    }
    forall i | |t| - 9 < i < |t| ensures IsHex(t[i]) { assert t[i] == t[|t| - 8..][i - (|t| - 8)]; }
  }

  /** A suffix that starts before the number would put `p` and a digit into the part slug. */
  lemma SuffixStartsAtNumber(domain: string, part: string, number: string, k: nat)
    requires Hyphenated(number, IsBodyChar) && SplitDuplicate(number).None?
    requires NoDigits(part) || AllHex(part)
    requires SplitDuplicate(domain + "-" + part + "-" + number) == Some(k)
    ensures k == |domain + "-" + part|
  {
    var h := |domain + "-" + part|;
    var body := domain + "-" + part + "-" + number;
    var tail := body[k..];
    DuplicateTailShape(tail);
    assert body[h] == '-' && body[|domain|] == '-';
    if k > h {
      SuffixInNumber(domain, part, number, k);
    } else if k < h {
      assert tail[h - k] == '-';
      assert k >= |domain|;
      PartHoldsPage(domain, part, number, k);
    }
  }

  /** A suffix that starts inside the number is a suffix of the number. */
  lemma SuffixInNumber(domain: string, part: string, number: string, k: nat)
    requires number != "" && number[0] != '-'
    requires var body := domain + "-" + part + "-" + number;
             |domain + "-" + part| < k < |body| && IsDuplicateTail(body[k..])
    ensures SplitDuplicate(number).Some?
  {
    var h, body := |domain + "-" + part|, domain + "-" + part + "-" + number;
    assert body[h + 1..] == number;
    assert number[k - h - 1..] == body[k..];
    SplitDuplicateExact(number, k - h - 1);
  }

  lemma PartHoldsPage(domain: string, part: string, number: string, k: nat)
    requires |domain| <= k < |domain + "-" + part|
    requires var body := domain + "-" + part + "-" + number;
             k + 2 < |domain + "-" + part| && body[k + 1] == 'p' && IsDigit(body[k + 2])
    ensures !NoDigits(part) && !AllHex(part)
  {
    var body := domain + "-" + part + "-" + number;
    var j := k - |domain|;
    assert part[j] == body[k + 1] && part[j + 1] == body[k + 2];
  }

  /** A body splits exactly when its whole number reads as the two components of a suffix. */
  lemma BodySplitsExactly(domain: string, part: string, number: string)
    requires Hyphenated(number, IsBodyChar) && SplitDuplicate(number).None?
    requires NoDigits(part) || AllHex(part)
    ensures SplitDuplicate(domain + "-" + part + "-" + number).Some? <==> IsDuplicateTail("-" + number)
  {
    var h := |domain + "-" + part|;
    var body := domain + "-" + part + "-" + number;
    assert body[h..] == "-" + number;
    SplitDuplicateExact(body, h);
    if SplitDuplicate(body).Some? { SuffixStartsAtNumber(domain, part, number, SplitDuplicate(body).value); }
  }

  lemma RestIsNumberWhenSplit(rest: string, tail: string)
    requires IsDuplicateTail(tail) && Hyphenated(SplitComponent(rest + tail).0, IsBodyChar)
    ensures SplitComponent(rest + tail) == (rest, tail)
  {
    if rest == "" {
      assert rest + tail == tail;
      ComponentJoins(tail);
    } else {
      SplitAppended(rest, tail);
      assert (rest + tail)[..|rest|] == rest && (rest + tail)[|rest|..] == tail;
    }
  }

  lemma RestIsNumberWhenWhole(front: string, rest: string)
    requires SplitDuplicate(front + rest).None?
    ensures SplitComponent(rest) == (rest, "")
  {
    var (number, suffix) := SplitComponent(rest);
    if SplitDuplicate(rest).Some? {
      ComponentJoins(rest);
      assert front + rest == (front + number) + suffix;
      SplitAppended(front + number, suffix);
    }
  }

  /** The body of an id without its duplicate suffix is consumed into the same slugs. */
  lemma BaseBodyConsumed(slugs: seq<string>, body: string)
    requires CanonicalBodyComponents(slugs, body).Some?
    requires Hyphenated(SplitComponent(CanonicalBodyComponents(slugs, body).value.component).0, IsBodyChar)
    ensures var b := CanonicalBodyComponents(slugs, body).value; var number := SplitComponent(b.component).0;
            ConsumeBusinessSlug(slugs, b.domain + "-" + (b.part + "-" + number))
              == Some((b.domain, b.part + "-" + number))
            && ConsumeBusinessSlug(slugs, b.part + "-" + number) == Some((b.part, number))
  {
    var b := CanonicalBodyComponents(slugs, body).value;
    var split := SplitDuplicate(body);
    var base := if split.Some? then body[..split.value] else body;
    var rest := ConsumeBusinessSlug(slugs, ConsumeBusinessSlug(slugs, base).value.1).value.1;
    assert base == b.domain + "-" + (b.part + "-" + rest);
    if split.Some? {
      RestIsNumberWhenSplit(rest, body[split.value..]);
    } else {
      WholeBodyRest(b, body, rest);
    }
  }

  lemma WholeBodyRest(b: BodyParts, body: string, rest: string)
    requires SplitDuplicate(body).None? && b.component == rest + "" && body == b.domain + "-" + (b.part + "-" + rest)
    ensures b.component == rest && SplitComponent(rest) == (rest, "")
  {
    assert body == (b.domain + "-" + b.part + "-") + rest;
    RestIsNumberWhenWhole(b.domain + "-" + b.part + "-", rest);
  }

  lemma BareNumberIsNotDuplicateLike(slugs: seq<string>, id: string)
    requires ParseCaseId(slugs, id).Some?
    ensures var p := ParseCaseId(slugs, id).value; p.suffix == "" ==> !IsDuplicateTail("-" + p.number)
  {
    var p := ParseCaseId(slugs, id).value;
    if IsDuplicateTail("-" + p.number) { DuplicateTailShape("-" + p.number); }
  }

  /** Issuing the parsed parts of a valid id gives the id back unless the id carries a duplicate
      suffix behind a number that itself reads as one: the validator takes such ids, the printer
      refuses their parts as ambiguous. */
  lemma ValidIdIssuableExactly(slugs: seq<string>, id: string)
    requires forall slug :: slug in slugs ==> NoDigits(slug)
    requires ParseCaseId(slugs, id).Some?
    ensures var p := ParseCaseId(slugs, id).value;
            1900 <= p.year <= 2100 &&
            (IssueId(slugs, p.year, p.domain, p.part, p.number, Ok(p.suffix)) == Ok(id)
             <==> p.suffix == "" || !IsDuplicateTail("-" + p.number))
  {
    var p := ParseCaseId(slugs, id).value;
    ParsedPartsAreCanonical(slugs, id);
    ParsedIdRenders(slugs, id);
    CanonicalNumberShape(p.number);
    BaseBodyConsumed(slugs, id[11..]);
    ConsumedSlugShape(slugs, p.part + "-" + p.number);
    BodySplitsExactly(p.domain, p.part, p.number);
    BareNumberIsNotDuplicateLike(slugs, id);
    PartsCheckExactly(slugs, p);
    IssuedWhenConsumed(slugs, p, id);
  }

  /** The printer issues valid parts exactly when its ambiguity check lets them through. */
  lemma IssuedWhenConsumed(slugs: seq<string>, p: CaseIdParts, id: string)
    requires 1900 <= p.year <= 2100 && Render(p) == id && ValidCaseId(slugs, id)
    ensures IssueId(slugs, p.year, p.domain, p.part, p.number, Ok(p.suffix)) == Ok(id)
            <==> CanonicalBodyComponents(slugs, p.domain + "-" + p.part + "-" + p.number)
                 == Some(BodyParts(p.domain, p.part, p.number))
  {
  }

  /** Consumable parts pass the printer's ambiguity check exactly when their body has no suffix. */
  lemma PartsCheckExactly(slugs: seq<string>, p: CaseIdParts)
    requires Hyphenated(p.number, IsBodyChar) && SplitDuplicate(p.number).None?
    requires ConsumeBusinessSlug(slugs, p.domain + "-" + (p.part + "-" + p.number))
             == Some((p.domain, p.part + "-" + p.number))
    requires ConsumeBusinessSlug(slugs, p.part + "-" + p.number) == Some((p.part, p.number))
    ensures var body := p.domain + "-" + p.part + "-" + p.number;
            CanonicalBodyComponents(slugs, body) == Some(BodyParts(p.domain, p.part, p.number))
            <==> SplitDuplicate(body).None?
  {
    var body := p.domain + "-" + p.part + "-" + p.number;
    assert body == p.domain + "-" + (p.part + "-" + p.number);
    assert p.number + "" == p.number;
    if CanonicalBodyComponents(slugs, body) == Some(BodyParts(p.domain, p.part, p.number)) {
      BodyDoesNotSplit(slugs, p.domain, p.part, p.number);
    }
  }

  lemma SliceNotDigits(n: string, i: nat, j: nat)
    requires i + 2 <= j <= |n| && (!IsDigit(n[i]) || !IsDigit(n[i + 1]))
    ensures !AllDigits(n[i..j])
  {
    assert n[i..j][0] == n[i] && n[i..j][1] == n[i + 1];
  }

  /** A short number that starts with a letter and has no two adjacent digits is not sensitive. */
  lemma SparseNumberNotRejected(n: string)
    requires 0 < |n| < 16 && n[0] != '-' && !IsDigit(n[0])
    requires forall i :: 0 <= i < |n| - 1 ==> !IsDigit(n[i]) || !IsDigit(n[i + 1])
    ensures !NumberRequiresRejection(n)
  {
    assert WithoutHyphens(n)[0] == n[0];
    forall i | 0 <= i < |n| ensures !TenDigitsAt(n, i) && !ResidentNumberAt(n, i) && !ProviderTokenAt(n, i) {
      if i + 10 <= |n| { SliceNotDigits(n, i, i + 10); }
      if i + 6 <= |n| { SliceNotDigits(n, i, i + 6); }
    }
    forall i, width | 0 <= i < |n| && 2 <= width <= 6 ensures !GroupedAt(n, i, width) {
      if i + 2 <= |n| { SliceNotDigits(n, i, i + 2); }
    }
  }

  lemma WitnessNumber(n: string)
    requires n == "p1-deadbeef"
    ensures Hyphenated(n, IsBodyChar) && SplitDuplicate(n).None? && IsDuplicateTail("-" + n)
            && NormalizeCaseNumber(n) == Ok(n)
  {
    WitnessTail("-" + n, n);
    SparseNumberNotRejected(n);
    ShortNumberUnsplit(n);
    NormalizeLowerCase(n);
  }

  /** A number of eleven characters whose first two are no hyphens holds no suffix. */
  lemma ShortNumberUnsplit(n: string)
    requires |n| == 11 && n[0] != '-' && n[1] != '-'
    ensures SplitDuplicate(n).None? && !IsReservedOpaque(n)
  {
  }

  /** The validator takes any consumable parts with a duplicate suffix, and parses them back. */
  lemma SuffixedPartsParse(slugs: seq<string>, p: CaseIdParts)
    requires 1900 <= p.year <= 2100 && |Render(p)| <= 200
    requires Hyphenated(p.number, IsBodyChar) && NormalizeCaseNumber(p.number) == Ok(p.number)
    requires ConsumeBusinessSlug(slugs, p.domain + "-" + p.part + "-" + p.number)
             == Some((p.domain, p.part + "-" + p.number))
    requires ConsumeBusinessSlug(slugs, p.part + "-" + p.number) == Some((p.part, p.number))
    requires IsDuplicateTail(p.suffix)
    requires Hyphenated((p.domain + "-" + p.part + "-" + p.number) + p.suffix, IsBodyChar)
    ensures ParseCaseId(slugs, Render(p)) == Some(p)
  {
    var body := p.domain + "-" + p.part + "-" + p.number;
    RenderedFields(p);
    SuffixedBodyConsumed(slugs, body, p.domain, p.part, p.number, p.suffix);
    AppendedComponent(p.number, p.suffix);
    assert CanonicalBodyComponents(slugs, Render(p)[11..]) == Some(BodyParts(p.domain, p.part, p.number + p.suffix));
    assert IsCanonicalCaseComponent(p.number + p.suffix);
    assert ValidCaseId(slugs, Render(p));
  }

  lemma AppendedComponent(base: string, tail: string)
    requires base != "" && IsDuplicateTail(tail)
    ensures SplitDuplicate(base + tail) == Some(|base|) && SplitComponent(base + tail) == (base, tail)
    ensures (base + tail)[..|base|] == base && (base + tail)[|base|..] == tail
  {
    SplitAppended(base, tail);
  }

  lemma SuffixedBodyConsumed(slugs: seq<string>, body: string, domain: string, part: string, number: string,
                             suffix: string)
    requires body != "" && IsDuplicateTail(suffix)
    requires ConsumeBusinessSlug(slugs, body) == Some((domain, part + "-" + number))
    requires ConsumeBusinessSlug(slugs, part + "-" + number) == Some((part, number))
    ensures CanonicalBodyComponents(slugs, body + suffix) == Some(BodyParts(domain, part, number + suffix))
  {
    AppendedComponent(body, suffix);
  }

  lemma HyphenatedJoin(a: string, b: string)
    requires Hyphenated(a, IsBodyChar) && Hyphenated(b, IsBodyChar)
    ensures Hyphenated(a + "-" + b, IsBodyChar)
  {
  }

  lemma WitnessTail(tail: string, rest: string)
    requires (tail == "-p1-deadbeef" && rest == "p1-deadbeef") || (tail == "-p2-cafebabe" && rest == "p2-cafebabe")
    ensures IsDuplicateTail(tail) && Hyphenated(rest, IsBodyChar) && tail == "-" + rest && |rest| == 11
  {
    WitnessHashes();
    if rest == "p1-deadbeef" {
      TailFromHash(rest, '1', "deadbeef");
    } else {
      TailFromHash(rest, '2', "cafebabe");
    }
  }

  lemma WitnessHashes()
    ensures AllHex("deadbeef") && AllHex("cafebabe")
  {
  }

  lemma TailFromHash(rest: string, digit: char, hash: string)
    requires '1' <= digit <= '9' && |hash| == 8 && AllHex(hash)
    requires |rest| == 11 && rest[0] == 'p' && rest[1] == digit && rest[2] == '-' && rest[3..] == hash
    ensures IsDuplicateTail("-" + rest) && Hyphenated(rest, IsBodyChar)
  {
    assert rest[3..] == hash && ("-" + rest)[4..] == hash;
  }

  lemma WitnessBody(p: CaseIdParts, tailText: string)
    requires Hyphenated(p.domain, IsBodyChar) && Hyphenated(p.part, IsBodyChar) && Hyphenated(p.number, IsBodyChar)
    requires Hyphenated(tailText, IsBodyChar) && p.suffix == "-" + tailText
    requires |p.domain| + |p.part| + |p.number| + |p.suffix| < 100 && 1900 <= p.year <= 2100
    ensures Hyphenated((p.domain + "-" + p.part + "-" + p.number) + p.suffix, IsBodyChar)
    ensures |Render(p)| <= 200
  {
    HyphenatedJoin(p.domain, p.part);
    HyphenatedJoin(p.domain + "-" + p.part, p.number);
    HyphenatedJoin(p.domain + "-" + p.part + "-" + p.number, tailText);
    var body := (p.domain + "-" + p.part + "-" + p.number) + p.suffix;
    assert body == (p.domain + "-" + p.part + "-" + p.number) + "-" + tailText;
    RenderedFields(p);
    var id := Render(p);
    assert |id| == 11 + |id[11..]|;
  }

  /** An id whose number reads as a suffix behind a suffix is the result of no call of `make_case_id`. */
  lemma NeverMade(naming: Naming, id: string, year: int, domain: string, part: string, caseNo: string,
                  startPage: Option<int>, title: Option<string>, duplicate: bool)
    requires naming.Valid() && forall slug :: slug in naming.slugs ==> NoDigits(slug)
    requires ParseCaseId(naming.slugs, id).Some?
    requires var p := ParseCaseId(naming.slugs, id).value; p.suffix != "" && IsDuplicateTail("-" + p.number)
    ensures MakeCaseId(naming, year, domain, part, caseNo, startPage, title, duplicate) != Ok(id)
  {
    ValidIdIssuableExactly(naming.slugs, id);
    if MakeCaseId(naming, year, domain, part, caseNo, startPage, title, duplicate) == Ok(id) {
      MadeFromItsParts(naming, id, year, domain, part, caseNo, startPage, title, duplicate);
    }
  }

  /** What a call makes is what its parsed parts issue. */
  lemma MadeFromItsParts(naming: Naming, id: string, year: int, domain: string, part: string, caseNo: string,
                         startPage: Option<int>, title: Option<string>, duplicate: bool)
    requires naming.Valid() && MakeCaseId(naming, year, domain, part, caseNo, startPage, title, duplicate) == Ok(id)
    ensures ParseCaseId(naming.slugs, id).Some?
    ensures var p := ParseCaseId(naming.slugs, id).value;
            1900 <= p.year <= 2100 && IssueId(naming.slugs, p.year, p.domain, p.part, p.number, Ok(p.suffix)) == Ok(id)
  {
    MadeIdParses(naming, year, domain, part, caseNo, startPage, title, duplicate);
  }

  lemma AmbiguousPartsUnissuable(slugs: seq<string>, p: CaseIdParts, tailText: string)
    requires 1900 <= p.year <= 2100 && |p.domain| + |p.part| + |p.number| + |p.suffix| < 100
    requires Hyphenated(p.domain, IsBodyChar) && Hyphenated(p.part, IsBodyChar) && Hyphenated(p.number, IsBodyChar)
    requires Hyphenated(tailText, IsBodyChar) && p.suffix == "-" + tailText && IsDuplicateTail(p.suffix)
    requires NormalizeCaseNumber(p.number) == Ok(p.number) && IsDuplicateTail("-" + p.number)
    requires ConsumeBusinessSlug(slugs, p.domain + "-" + (p.part + "-" + p.number))
             == Some((p.domain, p.part + "-" + p.number))
    requires ConsumeBusinessSlug(slugs, p.part + "-" + p.number) == Some((p.part, p.number))
    requires forall slug :: slug in slugs ==> NoDigits(slug)
    ensures ParseCaseId(slugs, Render(p)) == Some(p)
    ensures IssueId(slugs, p.year, p.domain, p.part, p.number, Ok(p.suffix)).Err?
  {
    GroupedBody(p.domain, p.part, p.number);
    WitnessBody(p, tailText);
    SuffixedPartsParse(slugs, p);
    TwoSuffixesUnissuable(slugs, p);
  }

  lemma GroupedBody(domain: string, part: string, number: string)
    ensures domain + "-" + part + "-" + number == domain + "-" + (part + "-" + number)
  {
  }

  lemma TwoSuffixesUnissuable(slugs: seq<string>, p: CaseIdParts)
    requires 1900 <= p.year <= 2100 && ParseCaseId(slugs, Render(p)) == Some(p)
    requires p.suffix != "" && IsDuplicateTail("-" + p.number) && forall slug :: slug in slugs ==> NoDigits(slug)
    ensures IssueId(slugs, p.year, p.domain, p.part, p.number, Ok(p.suffix)).Err?
  {
    ValidIdIssuableExactly(slugs, Render(p));
    IssuesOnlyItself(slugs, p);
  }

  lemma IssuesOnlyItself(slugs: seq<string>, p: CaseIdParts)
    requires 1900 <= p.year <= 2100
    ensures var r := IssueId(slugs, p.year, p.domain, p.part, p.number, Ok(p.suffix)); r.Err? || r == Ok(Render(p))
  {
  }

  // ----- the fixed vocabulary -----

  /** The first matching slug is the longest matching one when the slugs come longest first. */
  lemma {:induction false} FirstRegisteredIsLongest(slugs: seq<string>, value: string, slug: string)
    requires forall i, j :: 0 <= i < j < |slugs| ==> |slugs[i]| >= |slugs[j]|
    requires slug in slugs && slug + "-" <= value
    ensures FirstRegistered(slugs, value).Some? && |FirstRegistered(slugs, value).value.0| >= |slug|
  {
    if !(slugs[0] + "-" <= value) {
      FirstRegisteredIsLongest(slugs[1..], value, slug);
    }
  }
}
