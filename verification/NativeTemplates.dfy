/** Repeated page templates (src/ingestion/extract_native.py). */
module NativeTemplates {
  import opened Strings
  import opened Wrappers

  /** A text block with its lines joined. */
  datatype Block = Block(text: string, x0: real, y0: real, x1: real, y1: real)

  datatype Page = Page(docId: string, year: int, index: nat, printed: Option<int>, width: real, height: real,
                       blocks: seq<Block>)

  /** `normalize_text` of this extractor, and the digest of a signature. */
  datatype Text = Text(clean: string -> string, digest: string -> string)

  datatype Kind = RightMargin | HeaderFooter

  /** Why one raw block was left out. */
  datatype Evidence = Blank(index: nat)
                    | Repeated(index: nat, kind: Kind, digest: string, observed: int, body: int, threshold: int)

  datatype Cleaned = Cleaned(text: string, retained: seq<nat>, removed: seq<Evidence>)

  // ----- signatures -----

  const RIGHT_MARGIN := "right-margin:"
  const HEADER := "header-footer:top:"
  const FOOTER := "header-footer:bottom:"

  predicate StartsWith(s: string, prefix: string) { |prefix| <= |s| && s[..|prefix|] == prefix }

  function Signature(t: Text, page: Page, block: Block): Option<string> {
    var text := t.clean(block.text);
    if text == "" then None
    else if page.year == 2020 then
      if page.index % 2 == 1 && block.x0 >= 0.9 * page.width then Some(RIGHT_MARGIN + text) else None
    else if page.year == 2021 || page.year == 2022 then
      if block.y1 <= 0.08 * page.height then Some(HEADER + text)
      else if block.y0 >= 0.92 * page.height then Some(FOOTER + text)
      else None
    else None
  }

  function KindOf(signature: string): Kind { if StartsWith(signature, RIGHT_MARGIN) then RightMargin else HeaderFooter }

  /** At least 40% of the body pages for a right margin, 50% for a header or footer, rounded up. */
  function Threshold(signature: string, body: int): int {
    if body <= 0 then body + 1
    else
      var percent := if KindOf(signature) == RightMargin then 40 else 50;
      var pages := (percent * body + 99) / 100;
      if pages < 1 then 1 else pages
  }

  /** A count is at the threshold exactly when it is positive and at least that share of the body pages. */
  lemma ThresholdExactly(signature: string, body: int, count: int)
    requires body >= 1
    ensures count >= Threshold(signature, body)
            <==> count >= 1 && 100 * count >= (if StartsWith(signature, RIGHT_MARGIN) then 40 else 50) * body
  {
    var p := (if StartsWith(signature, RIGHT_MARGIN) then 40 else 50) * body;
    assert 100 * ((p + 99) / 100) >= p && 100 * ((p + 99) / 100) < p + 100;
  }

  function PageSignatures(t: Text, page: Page): set<string> {
    set b | b in page.blocks && Signature(t, page, b).Some? :: Signature(t, page, b).value
  }

  /** The labelled pages that carry the signature. */
  function Occurrences(t: Text, pages: seq<Page>, signature: string): nat {
    if pages == [] then 0
    else
      var last := pages[|pages| - 1];
      Occurrences(t, pages[..|pages| - 1], signature) + if last.printed.Some? && signature in PageSignatures(t, last)
        then 1 else 0
  }

  function Labelled(pages: seq<Page>): nat {
    if pages == [] then 0 else Labelled(pages[..|pages| - 1]) + if pages[|pages| - 1].printed.Some? then 1 else 0
  }

  lemma {:induction false} OccurrencesBounded(t: Text, pages: seq<Page>, signature: string)
    ensures Occurrences(t, pages, signature) <= Labelled(pages)
  {
    if pages != [] { OccurrencesBounded(t, pages[..|pages| - 1], signature); }
  }

  function CountOf(counts: map<string, nat>, signature: string): nat {
    if signature in counts then counts[signature] else 0
  }

  /** The counts are the occurrences, with an entry for every signature that occurs. */
  ghost predicate Counts(t: Text, pages: seq<Page>, counts: map<string, nat>) {
    forall s :: CountOf(counts, s) == Occurrences(t, pages, s) && (s in counts <==> Occurrences(t, pages, s) > 0)
  }

  /** `Counter.update` with a set. */
  function Update(counts: map<string, nat>, signatures: set<string>): map<string, nat> {
    map s | s in counts.Keys + signatures :: CountOf(counts, s) + if s in signatures then 1 else 0
  }

  lemma UpdateValue(counts: map<string, nat>, signatures: set<string>, s: string)
    ensures CountOf(Update(counts, signatures), s) == CountOf(counts, s) + if s in signatures then 1 else 0
  {
  }

  lemma UpdateCounts(t: Text, pages: seq<Page>, counts: map<string, nat>, page: Page)
    requires Counts(t, pages, counts)
    ensures Counts(t, pages + [page], if page.printed.Some? then Update(counts, PageSignatures(t, page)) else counts)
  {
    assert (pages + [page])[..|pages|] == pages;
  }

  /** `discover_repeated_signatures`. */
  method Discover(t: Text, pages: seq<Page>, body: int) returns (repeated: set<string>, counts: map<string, nat>)
    ensures Counts(t, pages, counts)
    ensures forall s ::
              s in repeated <==> Occurrences(t, pages, s) > 0 && Occurrences(t, pages, s) >= Threshold(s, body)
  {
    counts := map[];
    for i := 0 to |pages|
      invariant Counts(t, pages[..i], counts)
    {
      UpdateCounts(t, pages[..i], counts, pages[i]);
      assert pages[..i + 1] == pages[..i] + [pages[i]];
      if pages[i].printed.Some? { counts := Update(counts, PageSignatures(t, pages[i])); }
    }
    assert pages[..|pages|] == pages;
    repeated := set s | s in counts && counts[s] >= Threshold(s, body);
    forall s ensures s in repeated <==> Occurrences(t, pages, s) > 0 && Occurrences(t, pages, s) >= Threshold(s, body) {
      assert s in counts ==> counts[s] == CountOf(counts, s);
    }
  }

  // ----- the validators -----

  /** `RemovedRawBlockEvidence`'s own validator. */
  predicate EvidenceValid(e: Evidence) { e.Repeated? ==> e.threshold >= 1 && e.threshold <= e.observed <= e.body }

  predicate Increasing(s: seq<nat>) { forall i, j :: 0 <= i < j < |s| ==> s[i] < s[j] }

  function Indexes(removed: seq<Evidence>): seq<nat> {
    seq(|removed|, i requires 0 <= i < |removed| => removed[i].index)
  }

  function Texts(t: Text, page: Page, indexes: seq<nat>): seq<string>
    requires forall i :: 0 <= i < |indexes| ==> indexes[i] < |page.blocks|
  {
    seq(|indexes|, i requires 0 <= i < |indexes| => t.clean(page.blocks[indexes[i]].text))
  }

  predicate EvidenceMatches(t: Text, page: Page, e: Evidence) {
    && e.index < |page.blocks|
    && match e
       case Blank(k) => t.clean(page.blocks[k].text) == ""
       case Repeated(k, kind, digest, observed, body, threshold) =>
         var s := Signature(t, page, page.blocks[k]);
         s.Some? && digest == t.digest(s.value) && kind == KindOf(s.value) && threshold == Threshold(s.value, body)
  }

  /** Retained and removed split the blocks, each block is on one side only. */
  predicate Partition(n: nat, retained: seq<nat>, removed: seq<nat>) {
    && Increasing(retained) && Increasing(removed) && (forall k :: k in retained ==> k !in removed)
    && (forall k :: 0 <= k < n ==> k in retained || k in removed)
    && (forall k :: k in retained ==> k < n) && (forall k :: k in removed ==> k < n)
  }

  /** `_validate_retained_projection`. */
  predicate ProjectionValid(t: Text, page: Page, c: Cleaned) {
    && Partition(|page.blocks|, c.retained, Indexes(c.removed))
    && (forall i :: 0 <= i < |c.retained| ==>
      c.retained[i] < |page.blocks| && t.clean(page.blocks[c.retained[i]].text) != "")
    && c.text == JoinLines(Texts(t, page, c.retained))
    && forall i :: 0 <= i < |c.removed| ==> EvidenceMatches(t, page, c.removed[i])
  }

  // ----- one page -----

  /** What the cleaning of a page is given: the repeated signatures, the body page count and the counts. */
  datatype Policy = Policy(repeated: set<string>, body: Option<int>, counts: Option<map<string, nat>>)

  predicate IsTemplate(p: Policy, signature: Option<string>) {
    && signature.Some? && signature.value in p.repeated && p.body.Some? && p.counts.Some?
    && CountOf(p.counts.value, signature.value) >= Threshold(signature.value, p.body.value)
  }

  /** The evidence of the removal of block `k`, if it is removed. */
  function EvidenceFor(t: Text, p: Policy, page: Page, k: nat): Option<Evidence>
    requires k < |page.blocks|
  {
    var s := Signature(t, page, page.blocks[k]);
    if IsTemplate(p, s) then
      Some(Repeated(k, KindOf(s.value), t.digest(s.value), CountOf(p.counts.value, s.value), p.body.value,
                    Threshold(s.value, p.body.value)))
    else if t.clean(page.blocks[k].text) == "" then Some(Blank(k))
    else None
  }

  /** Block by block, what was done with the first `n` blocks. */
  ghost predicate CleanedUpTo(t: Text, p: Policy, page: Page, n: nat, retained: seq<nat>, removed: seq<Evidence>)
    requires n <= |page.blocks|
  {
    && Increasing(retained) && Increasing(Indexes(removed))
    && (forall k :: k in retained <==> 0 <= k < n && EvidenceFor(t, p, page, k).None?)
    && (forall e :: e in removed <==> e.index < n && EvidenceFor(t, p, page, e.index) == Some(e))
  }

  lemma IncreasingSnoc(s: seq<nat>, k: nat)
    requires Increasing(s) && forall i :: i in s ==> i < k
    ensures Increasing(s + [k])
  {
    forall i | 0 <= i < |s| ensures s[i] < k { assert s[i] in s; }
  }

  lemma IndexesSnoc(removed: seq<Evidence>, e: Evidence)
    ensures Indexes(removed + [e]) == Indexes(removed) + [e.index]
  {
  }

  lemma IndexesMembers(removed: seq<Evidence>, k: nat)
    ensures k in Indexes(removed) <==> exists e :: e in removed && e.index == k
  {
    if k in Indexes(removed) {
      var i :| 0 <= i < |removed| && Indexes(removed)[i] == k;
      assert removed[i] in removed;
    }
    if e :| e in removed && e.index == k {
      var i :| 0 <= i < |removed| && removed[i] == e;
      assert Indexes(removed)[i] == k;
    }
  }

  lemma CleanNext(t: Text, p: Policy, page: Page, n: nat, retained: seq<nat>, removed: seq<Evidence>)
    requires n < |page.blocks| && CleanedUpTo(t, p, page, n, retained, removed)
    ensures EvidenceFor(t, p, page, n).None? ==> CleanedUpTo(t, p, page, n + 1, retained + [n], removed)
    ensures EvidenceFor(t, p, page, n).Some? ==>
              CleanedUpTo(t, p, page, n + 1, retained, removed + [EvidenceFor(t, p, page, n).value])
  {
    var e := EvidenceFor(t, p, page, n);
    if e.None? {
      IncreasingSnoc(retained, n);
    } else {
      forall k | k in Indexes(removed) ensures k < n { IndexesMembers(removed, k); }
      IncreasingSnoc(Indexes(removed), n);
      IndexesSnoc(removed, e.value);
    }
  }

  lemma CleanedIsValid(t: Text, p: Policy, page: Page, retained: seq<nat>, removed: seq<Evidence>)
    requires CleanedUpTo(t, p, page, |page.blocks|, retained, removed)
    ensures forall i :: 0 <= i < |retained| ==> retained[i] < |page.blocks|
    ensures ProjectionValid(t, page, Cleaned(JoinLines(Texts(t, page, retained)), retained, removed))
  {
    forall i | 0 <= i < |retained| ensures retained[i] < |page.blocks| && t.clean(page.blocks[retained[i]].text) != "" {
      assert retained[i] in retained;
    }
    forall i | 0 <= i < |removed| ensures EvidenceMatches(t, page, removed[i]) { assert removed[i] in removed; }
    SplitIsPartition(t, p, page, retained, removed);
  }

  lemma SplitIsPartition(t: Text, p: Policy, page: Page, retained: seq<nat>, removed: seq<Evidence>)
    requires CleanedUpTo(t, p, page, |page.blocks|, retained, removed)
    ensures Partition(|page.blocks|, retained, Indexes(removed))
  {
    forall k: nat ensures k in retained || k in Indexes(removed) <==> k < |page.blocks| {
      IndexesMembers(removed, k);
      if k < |page.blocks| && EvidenceFor(t, p, page, k).Some? {
        assert EvidenceFor(t, p, page, k).value in removed;
      }
    }
    forall k | k in retained ensures k !in Indexes(removed) { IndexesMembers(removed, k); }
  }

  /** Every block the policy removes has evidence that the evidence validator takes. */
  ghost predicate Removable(t: Text, p: Policy, page: Page) {
    forall k :: 0 <= k < |page.blocks| && EvidenceFor(t, p, page, k).Some? ==>
      EvidenceValid(EvidenceFor(t, p, page, k).value)
  }

  /** `remove_repeated_margin_blocks`. */
  method RemoveRepeated(t: Text, p: Policy, page: Page) returns (r: Result<Cleaned>)
    ensures r.Ok? <==> Removable(t, p, page)
    ensures r.Ok? ==>
              CleanedUpTo(t, p, page, |page.blocks|, r.value.retained, r.value.removed)
                && ProjectionValid(t, page, r.value)
  {
    var texts: seq<string>, retained: seq<nat>, removed: seq<Evidence> := [], [], [];
    for k := 0 to |page.blocks|
      invariant CleanedUpTo(t, p, page, k, retained, removed)
      invariant forall i :: 0 <= i < |retained| ==> retained[i] < |page.blocks|
      invariant texts == Texts(t, page, retained)
      invariant forall j :: 0 <= j < k && EvidenceFor(t, p, page, j).Some? ==>
                EvidenceValid(EvidenceFor(t, p, page, j).value)
    {
      CleanNext(t, p, page, k, retained, removed);
      var signature := Signature(t, page, page.blocks[k]);
      var text := t.clean(page.blocks[k].text);
      if IsTemplate(p, signature) {
        var body, observed := p.body.value, CountOf(p.counts.value, signature.value);
        var e := Repeated(k, KindOf(signature.value), t.digest(signature.value), observed, body,
                          Threshold(signature.value, body));
        if !EvidenceValid(e) { return Err("repeated block counts do not meet the approved threshold"); }
        removed := removed + [e];
      } else if text != "" {
        texts := texts + [text];
        retained := retained + [k];
      } else {
        removed := removed + [Blank(k)];
      }
    }
    CleanedIsValid(t, p, page, retained, removed);
    return Ok(Cleaned(JoinLines(texts), retained, removed));
  }
}
