/** The fixed vocabulary of business slugs (src/corpus/ids.py). */
module BusinessSlugs {
  // The registered slugs meet what the laws of case ids ask of a vocabulary, and under them there is an
  // id that the validator takes and the printer never issues.

  import opened CaseIdLaws
  import opened CaseIds
  import opened Strings
  import opened Wrappers

  /** The fixed slugs, longest first. */
  const REGISTERED_BUSINESS_SLUGS: seq<string> := [
    "civil-complaints-information-disclosure",
    "school-accounting-budget-settlement",
    "school-accounting-expenditure",
    "school-facilities-management",
    "school-operations-committee",
    "shared-property-management",
    "school-accounting-revenue",
    "school-development-fund",
    "special-account-revenue",
    "education-labor-staff",
    "office-administration",
    "supplies-management",
    "extra-budget-cash",
    "school-foundation",
    "contract-general",
    "compensation",
    "information",
    "attendance",
    "facilities",
    "accounting",
    "curriculum",
    "personnel",
    "security",
    "property",
    "contract",
    "payroll",
    "student",
    "budget",
    "health",
    "audit",
    "law"
  ]

  /** No digits, and only "audit" itself starts like "audit". */
  predicate SlugShape(s: string) { NoDigits(s) && |s| >= 2 && (s == "audit" || s[0] != 'a' || s[1] != 'u') }

  lemma SlugShapes0()
    ensures SlugShape("civil-complaints-information-disclosure")
  {
  }

  lemma SlugShapes1()
    ensures SlugShape("school-accounting-budget-settlement")
  {
  }

  lemma SlugShapes2()
    ensures SlugShape("school-accounting-expenditure") && SlugShape("school-facilities-management")
  {
  }

  lemma SlugShapes3()
    ensures SlugShape("school-operations-committee") && SlugShape("shared-property-management")
  {
  }

  lemma SlugShapes4()
    ensures SlugShape("school-accounting-revenue") && SlugShape("school-development-fund")
  {
  }

  lemma SlugShapes5()
    ensures SlugShape("special-account-revenue") && SlugShape("education-labor-staff")
    ensures SlugShape("office-administration") && SlugShape("supplies-management")
  {
  }

  lemma SlugShapes6()
    ensures SlugShape("extra-budget-cash") && SlugShape("school-foundation")
    ensures SlugShape("contract-general") && SlugShape("compensation")
    ensures SlugShape("information") && SlugShape("attendance") && SlugShape("facilities")
  {
  }

  lemma SlugShapes7()
    ensures SlugShape("accounting") && SlugShape("curriculum") && SlugShape("personnel")
    ensures SlugShape("security") && SlugShape("property") && SlugShape("contract") && SlugShape("payroll")
  {
  }

  lemma SlugShapes8()
    ensures SlugShape("student") && SlugShape("budget") && SlugShape("health") && SlugShape("audit") && SlugShape("law")
  {
  }

  lemma RegisteredShapes()
    ensures forall slug :: slug in REGISTERED_BUSINESS_SLUGS ==> SlugShape(slug)
    ensures "audit" in REGISTERED_BUSINESS_SLUGS
  {
    SlugShapes0();
    SlugShapes1();
    SlugShapes2();
    SlugShapes3();
    SlugShapes4();
    SlugShapes5();
    SlugShapes6();
    SlugShapes7();
    SlugShapes8();
    assert REGISTERED_BUSINESS_SLUGS[29] == "audit";
  }

  /** The fixed slugs meet what the laws ask of a vocabulary. */
  lemma RegisteredSlugsWellFormed()
    ensures forall slug :: slug in REGISTERED_BUSINESS_SLUGS ==> NoDigits(slug)
    ensures forall i, j :: 0 <= i < j < |REGISTERED_BUSINESS_SLUGS| ==>
                           |REGISTERED_BUSINESS_SLUGS[i]| >= |REGISTERED_BUSINESS_SLUGS[j]|
  {
    RegisteredShapes();
    RegisteredOrder();
  }

  lemma RegisteredOrder()
    ensures forall i, j :: 0 <= i < j < |REGISTERED_BUSINESS_SLUGS| ==>
                           |REGISTERED_BUSINESS_SLUGS[i]| >= |REGISTERED_BUSINESS_SLUGS[j]|
  {
  }

  // ----- an id that no call issues -----

  /** The only slug that matches is the one that is consumed. */
  lemma {:induction false} OnlyMatch(slugs: seq<string>, slug: string, rest: string)
    requires slug in slugs && forall s :: s in slugs && s + "-" <= slug + "-" + rest ==> s == slug
    ensures FirstRegistered(slugs, slug + "-" + rest) == Some((slug, rest))
  {
    var value := slug + "-" + rest;
    assert slug + "-" <= value && value[|slug| + 1..] == rest;
    if slugs[0] + "-" <= value {
      assert slugs[0] in slugs;
    } else {
      OnlyMatch(slugs[1..], slug, rest);
    }
  }

  lemma AuditMatchesOnce(s: string, audit: string, rest: string)
    requires audit == "audit" && SlugShape(s) && s + "-" <= audit + "-" + rest
    ensures s == audit
  {
    var value := audit + "-" + rest;
    assert (s + "-")[0] == value[0] && (s + "-")[1] == value[1];
    assert (s + "-")[0] == s[0] && (s + "-")[1] == s[1];
    assert value[0] == audit[0] && value[1] == audit[1];
  }

  lemma AuditConsumed(slugs: seq<string>, audit: string, rest: string)
    requires audit == "audit" && audit in slugs && forall slug :: slug in slugs ==> SlugShape(slug)
    ensures ConsumeBusinessSlug(slugs, audit + "-" + rest) == Some((audit, rest))
    ensures Hyphenated(audit, IsBodyChar) && |audit| == 5
  {
    forall s | s in slugs && s + "-" <= audit + "-" + rest ensures s == audit { AuditMatchesOnce(s, audit, rest); }
    OnlyMatch(slugs, audit, rest);
  }

  lemma AuditWitness(slugs: seq<string>, slug: string, number: string, suffix: string)
    requires slug == "audit" && number == "p1-deadbeef" && suffix == "-p2-cafebabe"
    requires slug in slugs && forall s :: s in slugs ==> SlugShape(s)
    ensures var p := CaseIdParts(2020, slug, slug, number, suffix);
            ParseCaseId(slugs, Render(p)) == Some(p) && IsDuplicateTail("-" + number)
  {
    WitnessNumber(number);
    AuditConsumed(slugs, slug, number);
    AuditConsumed(slugs, slug, slug + "-" + number);
    WitnessTail("-p1-deadbeef", number);
    WitnessTail(suffix, "p2-cafebabe");
    AmbiguousPartsUnissuable(slugs, CaseIdParts(2020, slug, slug, number, suffix), "p2-cafebabe");
  }

  /** senqa-2020-audit-audit-p1-deadbeef-p2-cafebabe: the validator takes it, and no call of the printer, whatever
      its labels, case number, page and title, issues it. */
  lemma UnissuableValidId(naming: Naming, slug: string, number: string, suffix: string)
    requires naming.Valid() && naming.slugs == REGISTERED_BUSINESS_SLUGS
    requires slug == "audit" && number == "p1-deadbeef" && suffix == "-p2-cafebabe"
    ensures var id := Render(CaseIdParts(2020, slug, slug, number, suffix));
            && ParseCaseId(naming.slugs, id) == Some(CaseIdParts(2020, slug, slug, number, suffix))
            && forall year, domain, part, caseNo, startPage, title, duplicate ::
                 MakeCaseId(naming, year, domain, part, caseNo, startPage, title, duplicate) != Ok(id)
  {
    RegisteredShapes();
    AuditWitness(naming.slugs, slug, number, suffix);
    var id := Render(CaseIdParts(2020, slug, slug, number, suffix));
    forall year, domain, part, caseNo, startPage, title, duplicate
      ensures MakeCaseId(naming, year, domain, part, caseNo, startPage, title, duplicate) != Ok(id)
    {
      NeverMade(naming, id, year, domain, part, caseNo, startPage, title, duplicate);
    }
  }

  // ----- there are enough ids -----

  function NumberedId(slug: string, n: nat): string { Render(CaseIdParts(2020, slug, slug, Decimal(n), "")) }

  lemma {:induction false} DecimalFits(n: nat, k: nat)
    requires k >= 1 && n < TenTo(k)
    ensures |Decimal(n)| <= k
  {
    if n >= 10 { DecimalFits(n / 10, k - 1); }
  }

  lemma {:induction false} NumberIsCanonical(d: string, n: nat)
    requires d == Decimal(n) && |d| < 10
    ensures Hyphenated(d, IsBodyChar) && IsCanonicalCaseComponent(d) && SplitDuplicate(d).None?
  {
    DecimalShape(n);
    DigitsHaveNoHyphens(d);
    ShortDigitsNotRejected(d);
    NormalizeLowerCase(d);
    assert n == 0 ==> d == "0";
  }

  /** No suffix starts in a body whose number holds no hyphen and follows a slug. */
  lemma NoSuffixInside(slug: string, d: string)
    requires slug == "audit" && d != "" && AllDigits(d) && |d| < 10
    ensures SplitDuplicate(slug + "-" + slug + "-" + d).None?
  {
    var body := slug + "-" + slug + "-" + d;
    assert body[6] == slug[0] == 'a' && body[12] == d[0] && IsDigit(d[0]);
    forall k | 0 < k < |body| - 1 && body[k] == '-' ensures body[k + 1] != 'p' { assert k == 5 || k == 11; }
  }

  /** The body with a number and no suffix reads back as its parts. */
  lemma NumberedBody(slugs: seq<string>, slug: string, d: string, body: string)
    requires slug == "audit" && slug in slugs && (forall s :: s in slugs ==> SlugShape(s))
    requires d != "" && AllDigits(d) && |d| < 10 && body == slug + "-" + slug + "-" + d
    ensures CanonicalBodyComponents(slugs, body) == Some(BodyParts(slug, slug, d))
  {
    NoSuffixInside(slug, d);
    AuditConsumed(slugs, slug, d);
    AuditConsumed(slugs, slug, slug + "-" + d);
    assert body == slug + "-" + (slug + "-" + d) && d + "" == d;
  }

  lemma NumberedHyphens(slug: string, d: string, body: string)
    requires slug == "audit" && Hyphenated(d, IsBodyChar) && body == slug + "-" + slug + "-" + d
    ensures Hyphenated(body, IsBodyChar)
  {
    HyphenatedJoin(slug, slug);
    HyphenatedJoin(slug + "-" + slug, d);
  }

  lemma {:induction false} NumberedIdValid(slugs: seq<string>, slug: string, n: nat)
    requires slug == "audit" && slug in slugs && (forall s :: s in slugs ==> SlugShape(s)) && |Decimal(n)| < 10
    ensures ValidCaseId(slugs, NumberedId(slug, n))
  {
    var d := Decimal(n);
    DecimalShape(n);
    NumberIsCanonical(d, n);
    var body := slug + "-" + slug + "-" + d;
    NumberedBody(slugs, slug, d, body);
    NumberedHyphens(slug, d, body);
    RenderedFields(CaseIdParts(2020, slug, slug, d, ""));
    BodyMakesValid(slugs, NumberedId(slug, n), slug, d, body);
  }

  lemma BodyMakesValid(slugs: seq<string>, id: string, slug: string, d: string, body: string)
    requires |id| > 11 && id[..6] == "senqa-" && AllDigits(id[6..10]) && id[10] == '-' && Value(id[6..10]) == 2020
    requires id[11..] == body && |body| <= 189 && Hyphenated(body, IsBodyChar)
    requires CanonicalBodyComponents(slugs, body) == Some(BodyParts(slug, slug, d)) && IsCanonicalCaseComponent(d)
    ensures ValidCaseId(slugs, id)
  {
    assert |id| == 11 + |id[11..]|;
  }

  lemma NumberedIdsDiffer(slug: string, m: nat, n: nat)
    requires NumberedId(slug, m) == NumberedId(slug, n)
    ensures m == n
  {
    var head := "senqa-" + Decimal(2020) + "-" + slug + "-" + slug + "-";
    assert NumberedId(slug, m) == head + Decimal(m) && NumberedId(slug, n) == head + Decimal(n);
    assert (head + Decimal(m))[|head|..] == Decimal(m) && (head + Decimal(n))[|head|..] == Decimal(n);
    ValueOfDecimal(m);
    ValueOfDecimal(n);
  }
}
