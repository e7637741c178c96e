/** Canonical case ids: printer and longest-prefix parser (src/corpus/ids.py). */
module CaseIds {
  import opened Strings
  import opened Wrappers

  // ----- character classes and fixed vocabulary -----

  predicate IsLower(c: char) { 'a' <= c <= 'z' }
  predicate IsUpper(c: char) { 'A' <= c <= 'Z' }
  predicate IsHex(c: char) { IsDigit(c) || 'a' <= c <= 'f' }
  predicate AllHex(s: string) { forall i :: 0 <= i < |s| ==> IsHex(s[i]) }

  /** The characters that Python counts as white space. */
  predicate IsSpace(c: char) {
    var n := c as int;
    9 <= n <= 13 || 28 <= n <= 32 || n == 0x85 || n == 0xa0 || n == 0x1680 ||
    0x2000 <= n <= 0x200a || n == 0x2028 || n == 0x2029 || n == 0x202f || n == 0x205f || n == 0x3000
  }

  /** The slug of each registered label, those slugs longest first, and the digest that names
      unregistered labels and titles. */
  datatype Naming = Naming(labels: map<string, string>, slugs: seq<string>, sha256: string -> string)
  {
    ghost predicate Valid() {
      && (forall text :: text in labels ==> labels[text] in slugs)
      && (forall text :: |sha256(text)| == 64 && AllHex(sha256(text)))
    }
  }

  // ----- text normalization of labels, titles and case numbers -----

  /** `re.sub(r"\s+", " ", s)`: `inRun` says that the previous character was white space. */
  function CollapseFrom(s: string, inRun: bool): string {
    if s == "" then ""
    else if IsSpace(s[0]) then (if inRun then "" else " ") + CollapseFrom(s[1..], true)
    else [s[0]] + CollapseFrom(s[1..], false)
  }

  function Strip(s: string): string {
    if s != "" && IsSpace(s[0]) then Strip(s[1..])
    else if s != "" && IsSpace(s[|s| - 1]) then Strip(s[..|s| - 1])
    else s
  }

  /** `None` when the text is blank. */
  function NormalizedText(value: string): Option<string> {
    var normalized := Strip(CollapseFrom(value, false));
    if normalized == "" then None else Some(normalized)
  }

  function Replace(s: string, from: char, to: char): string {
    seq(|s|, i requires 0 <= i < |s| => if s[i] == from then to else s[i])
  }

  function LowerChar(c: char): char { if IsUpper(c) then (c as int + 32) as char else c }

  function Lower(s: string): string { seq(|s|, i requires 0 <= i < |s| => LowerChar(s[i])) }

  predicate IsCaseNumberChar(c: char) { IsDigit(c) || IsLower(c) || IsUpper(c) }

  /** Runs of `ok` characters joined by single hyphens. */
  predicate Hyphenated(s: string, ok: char -> bool) {
    && s != "" && s[0] != '-' && s[|s| - 1] != '-'
    && (forall i :: 0 <= i < |s| ==> s[i] == '-' || ok(s[i]))
    && (forall i :: 0 <= i < |s| - 1 ==> s[i] != '-' || s[i + 1] != '-')
  }

  function WithoutHyphens(s: string): string {
    if s == "" then "" else (if s[0] == '-' then "" else [s[0]]) + WithoutHyphens(s[1..])
  }

  predicate TokenTail(s: string, from: nat) {
    from + 16 <= |s| && forall i :: from <= i < from + 16 ==> IsDigit(s[i]) || IsLower(s[i]) || s[i] == '-'
  }

  /** A provider token shape starts at `i`. */
  predicate ProviderTokenAt(s: string, i: nat)
    requires i <= |s|
  {
    var t := s[i..];
    || (("akia" <= t || "asia" <= t) && TokenTail(t, 4) && '-' !in t[4..20])
    || ("sk-" <= t && TokenTail(t, 3))
    || (|t| >= 5 && "xox" <= t && t[3] in "baprs" && t[4] == '-' && TokenTail(t, 5))
    || (("rk-live-" <= t || "rk-test-" <= t) && TokenTail(t, 8))
  }

  /** Two or more digits, `width` digits, and two or more digits, separated by hyphens. */
  predicate GroupedAt(s: string, i: nat, width: nat) {
    && i + 6 + width <= |s| && AllDigits(s[i..i + 2]) && s[i + 2] == '-'
    && AllDigits(s[i + 3..i + 3 + width]) && s[i + 3 + width] == '-'
    && AllDigits(s[i + 4 + width..i + 6 + width])
  }

  predicate ResidentNumberAt(s: string, i: nat) {
    && i + 14 <= |s| && AllDigits(s[i..i + 6]) && s[i + 6] == '-'
    && '1' <= s[i + 7] <= '8' && AllDigits(s[i + 8..i + 14])
  }

  predicate TenDigitsAt(s: string, i: nat) { i + 10 <= |s| && AllDigits(s[i..i + 10]) }

  predicate LongComponentAt(s: string, i: nat) { i + 24 <= |s| && '-' !in s[i..i + 24] }

  predicate NumberRequiresRejection(value: string) {
    var compact := WithoutHyphens(value);
    || (|compact| >= 10 && AllDigits(compact))
    || (exists i :: 0 <= i < |value| && TenDigitsAt(value, i))
    || (exists i :: 0 <= i < |value| && ResidentNumberAt(value, i))
    || (exists i, width :: 0 <= i < |value| && 2 <= width <= 6 && GroupedAt(value, i, width))
    || (exists i :: 0 <= i < |value| && ProviderTokenAt(value, i))
    || |value| > 64
    || (exists i :: 0 <= i < |value| && LongComponentAt(value, i))
  }

  function StripLeadingZeros(s: string): string {
    if |s| > 1 && s[0] == '0' then StripLeadingZeros(s[1..]) else s
  }

  function NormalizeCaseNumber(caseNo: string): Result<string> {
    match NormalizedText(caseNo)
    case None => Err("case number must not be blank")
    case Some(text) =>
      var normalized := Replace(text, ' ', '-');
      if !Hyphenated(normalized, IsCaseNumberChar) then
        Err("case number must contain only letters, numbers, and single hyphens")
      else CheckedNumber(Lower(normalized))
  }

  function CheckedNumber(canonical: string): Result<string> {
    if SplitDuplicate(canonical).Some? then Err("case number uses a reserved duplicate suffix")
    else if IsReservedOpaque(canonical) then Err("case number uses a reserved opaque form")
    else if NumberRequiresRejection(canonical) then Err("case number is not eligible for a canonical ID")
    else if AllDigits(canonical) then Ok(StripLeadingZeros(canonical))
    else Ok(canonical)
  }

  // ----- reserved suffixes -----

  predicate IsReservedOpaque(s: string) {
    |s| == 19 && s[..7] == "opaque-" && AllHex(s[7..])
  }

  /** `-p[1-9][0-9]*-[0-9a-f]{8}` */
  predicate IsDuplicateTail(t: string) {
    && |t| >= 12 && t[0] == '-' && t[1] == 'p' && '1' <= t[2] <= '9'
    && AllDigits(t[3..|t| - 9]) && t[|t| - 9] == '-' && AllHex(t[|t| - 8..])
  }

  /** `-p[0-9]+-[0-9a-f]{8}` */
  predicate IsDuplicateLikeTail(t: string) {
    && |t| >= 12 && t[0] == '-' && t[1] == 'p'
    && AllDigits(t[2..|t| - 9]) && t[|t| - 9] == '-' && AllHex(t[|t| - 8..])
  }

  function LastHyphen(s: string): (k: int)
    ensures -1 <= k < |s| && (k >= 0 ==> s[k] == '-')
    ensures forall i :: k < i < |s| ==> s[i] != '-'
  {
    if s == "" then -1
    else if s[|s| - 1] == '-' then |s| - 1
    else LastHyphen(s[..|s| - 1])
  }

  /** The position where a duplicate suffix starts after a nonempty base. */
  function SplitDuplicate(s: string): (k: Option<nat>)
    ensures k.Some? ==> 0 < k.value < |s| && IsDuplicateTail(s[k.value..])
  {
    if |s| < 9 then None
    else
      var k := LastHyphen(s[..|s| - 9]);
      if 0 < k && IsDuplicateTail(s[k..]) then Some(k) else None
  }

  /** The greedy `(?P<base>.+)` has exactly one way to match. */
  lemma SplitDuplicateExact(s: string, k: nat)
    ensures SplitDuplicate(s) == Some(k) <==> 0 < k < |s| && IsDuplicateTail(s[k..])
  {
    if 0 < k < |s| && IsDuplicateTail(s[k..]) {
      var t := s[k..];
      var j := LastHyphen(s[..|s| - 9]);
      assert s[k] == '-' && j >= k;
      forall i | k < i < |s| - 9 ensures s[i] != '-' {
        assert s[i] == t[i - k];
        if i - k >= 3 {
          assert t[i - k] == t[3..|t| - 9][i - k - 3];
        }
      }
    }
  }

  predicate IsDuplicateLike(s: string) {
    IsDuplicateLikeTail("-" + s) || exists k :: 0 < k < |s| && IsDuplicateLikeTail(s[k..])
  }

  // ----- the longest-prefix parser -----

  function FirstRegistered(slugs: seq<string>, value: string): (r: Option<(string, string)>)
    ensures r.Some? ==> value == r.value.0 + "-" + r.value.1
  {
    if slugs == [] then None
    else if slugs[0] + "-" <= value then Some((slugs[0], value[|slugs[0]| + 1..]))
    else FirstRegistered(slugs[1..], value)
  }

  function ConsumeBusinessSlug(slugs: seq<string>, value: string): (r: Option<(string, string)>)
    ensures r.Some? ==> value == r.value.0 + "-" + r.value.1
  {
    var registered := FirstRegistered(slugs, value);
    if registered.Some? then registered
    else if |value| > 10 && value[10] == '-' && AllHex(value[..10]) then Some((value[..10], value[11..]))
    else None
  }

  datatype BodyParts = BodyParts(domain: string, part: string, component: string)

  function CanonicalBodyComponents(slugs: seq<string>, body: string): Option<BodyParts> {
    var split := SplitDuplicate(body);
    var baseBody := if split.Some? then body[..split.value] else body;
    var suffix := if split.Some? then body[split.value..] else "";
    var domain := ConsumeBusinessSlug(slugs, baseBody);
    if domain.None? then None
    else
      var part := ConsumeBusinessSlug(slugs, domain.value.1);
      if part.None? then None
      else Some(BodyParts(domain.value.0, part.value.0, part.value.1 + suffix))
  }

  predicate IsCanonicalCaseComponent(value: string) {
    var split := SplitDuplicate(value);
    if split.Some? then NormalizeCaseNumber(value[..split.value]) == Ok(value[..split.value])
    else !IsDuplicateLike(value) && NormalizeCaseNumber(value) == Ok(value)
  }

  predicate IsBodyChar(c: char) { IsDigit(c) || IsLower(c) }

  predicate ValidCaseId(slugs: seq<string>, id: string) {
    && |id| <= 200 && |id| > 11 && id[..6] == "senqa-" && AllDigits(id[6..10]) && id[10] == '-'
    && 1900 <= Value(id[6..10]) <= 2100
    && Hyphenated(id[11..], IsBodyChar)
    && var parts := CanonicalBodyComponents(slugs, id[11..]);
       parts.Some? && IsCanonicalCaseComponent(parts.value.component)
  }

  /** What an id says: the suffix is empty or `-p<page>-<title hash>`. */
  datatype CaseIdParts = CaseIdParts(year: int, domain: string, part: string, number: string, suffix: string)

  function Render(p: CaseIdParts): string
    requires 0 <= p.year
  {
    "senqa-" + Decimal(p.year) + "-" + p.domain + "-" + p.part + "-" + p.number + p.suffix
  }

  /** A component without and with its duplicate suffix. */
  function SplitComponent(component: string): (string, string) {
    var split := SplitDuplicate(component);
    if split.Some? then (component[..split.value], component[split.value..]) else (component, "")
  }

  function ReadParts(year: int, body: BodyParts): CaseIdParts {
    var (number, suffix) := SplitComponent(body.component);
    CaseIdParts(year, body.domain, body.part, number, suffix)
  }

  function ParseCaseId(slugs: seq<string>, id: string): Option<CaseIdParts> {
    if ValidCaseId(slugs, id) then Some(ReadParts(Value(id[6..10]), CanonicalBodyComponents(slugs, id[11..]).value))
    else None
  }

  // ----- the printer -----

  function BusinessSlug(naming: Naming, name: string): Option<string>
    requires naming.Valid()
  {
    match NormalizedText(name)
    case None => None
    case Some(text) => Some(if text in naming.labels then naming.labels[text] else naming.sha256(text)[..10])
  }

  function DuplicateSuffix(naming: Naming, startPage: Option<int>, title: Option<string>): Result<string>
    requires naming.Valid()
  {
    if startPage.None? || startPage.value < 1 then Err("duplicate start page must be a positive integer")
    else if title.None? || NormalizedText(title.value).None? then
      Err("duplicate case IDs require a valid start page and title")
    else Ok("-p" + Decimal(startPage.value) + "-" + naming.sha256(NormalizedText(title.value).value)[..8])
  }

  /** The body and the checks on it, from the slugs on. */
  function IssueId(slugs: seq<string>, year: int, domain: string, part: string, number: string,
                   suffix: Result<string>): Result<string>
    requires 1900 <= year <= 2100
  {
    var body := domain + "-" + part + "-" + number;
    if CanonicalBodyComponents(slugs, body) != Some(BodyParts(domain, part, number)) then
      Err("business labels and case number form an ambiguous canonical case ID")
    else if suffix.Err? then suffix
    else
      var id := Render(CaseIdParts(year, domain, part, number, suffix.value));
      if ValidCaseId(slugs, id) then Ok(id) else Err("invalid canonical case ID")
  }

  /** What the cleaned labels, number and anchor give. */
  function AssembleId(slugs: seq<string>, year: int, domain: Option<string>, part: Option<string>,
                      number: Result<string>, suffix: Result<string>): Result<string>
    requires 1900 <= year <= 2100
  {
    if domain.None? || part.None? then Err("business label must not be blank")
    else if number.Err? then number
    else IssueId(slugs, year, domain.value, part.value, number.value, suffix)
  }

  function MakeCaseId(naming: Naming, year: int, domain: string, part: string, caseNo: string,
                      startPage: Option<int>, title: Option<string>, duplicate: bool): Result<string>
    requires naming.Valid()
  {
    if !(1900 <= year <= 2100) then Err("edition year must be between 1900 and 2100")
    else
      AssembleId(naming.slugs, year, BusinessSlug(naming, domain), BusinessSlug(naming, part),
                 NormalizeCaseNumber(caseNo),
                 if duplicate then DuplicateSuffix(naming, startPage, title) else Ok(""))
  }
}
