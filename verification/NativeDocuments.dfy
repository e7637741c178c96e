/** Native documents and their writer (src/ingestion/extract_native.py). */
module NativeDocuments {
  import opened Sorting
  import opened Wrappers
  import opened NativeTemplates

  datatype Document = Document(docId: string, year: int, sha256: string, pageCount: nat, bodyStart: nat, bodyEnd: nat,
                               offset: int)

  /** What the manifest validators demand of a document. */
  predicate ValidDocument(d: Document) {
    1 <= d.bodyStart <= d.bodyEnd <= d.pageCount && d.bodyStart + d.offset >= 1
  }

  /** What the PDF library delivers for a page, unless it fails. */
  datatype Content = Content(width: real, height: real, blocks: seq<Block>)

  datatype Header = Header(docId: string, year: int, sha256: string, pageCount: nat)

  datatype Record = Extracted(header: Header, index: nat, printed: Option<int>, page: Page, cleaned: Cleaned)
                  | Quarantined(header: Header, index: nat, printed: Option<int>)

  function HeaderOf(d: Document): Header { Header(d.docId, d.year, d.sha256, d.pageCount) }

  function BodyCount(d: Document): int { d.bodyEnd - d.bodyStart + 1 }

  function PrintedLabel(d: Document, index: nat): Option<int> {
    if d.bodyStart <= index <= d.bodyEnd && index + d.offset >= 1 then Some(index + d.offset) else None
  }

  function PageOf(d: Document, index: nat, c: Content): Page {
    Page(d.docId, d.year, index, PrintedLabel(d, index), c.width, c.height, c.blocks)
  }

  /** The pages that could be read. */
  function PagesOf(d: Document, raw: seq<Option<Content>>): seq<Page> {
    if raw == [] then []
    else
      PagesOf(d, raw[..|raw| - 1])
      + match raw[|raw| - 1] case None => [] case Some(c) => [PageOf(d, |raw|, c)]
  }

  // ----- no template is claimed on more pages than the body has -----

  lemma {:induction false} LabelledSnoc(pages: seq<Page>, page: Page)
    ensures Labelled(pages + [page]) == Labelled(pages) + if page.printed.Some? then 1 else 0
  {
    assert (pages + [page])[..|pages|] == pages;
  }

  lemma {:induction false} LabelledBound(d: Document, raw: seq<Option<Content>>)
    requires ValidDocument(d)
    ensures Labelled(PagesOf(d, raw))
            <= if |raw| < d.bodyStart then 0 else if |raw| <= d.bodyEnd then |raw| - d.bodyStart + 1 else BodyCount(d)
  {
    if raw != [] {
      LabelledBound(d, raw[..|raw| - 1]);
      var front, last := PagesOf(d, raw[..|raw| - 1]), raw[|raw| - 1];
      if last.Some? {
        LabelledSnoc(front, PageOf(d, |raw|, last.value));
      } else {
        assert PagesOf(d, raw) == front;
      }
    }
  }

  /** The policy that the extraction passes on to every page. */
  ghost predicate PolicyFor(t: Text, d: Document, raw: seq<Option<Content>>, p: Policy) {
    && p.body == Some(BodyCount(d)) && p.counts.Some? && Counts(t, PagesOf(d, raw), p.counts.value)
    && forall s :: s in p.repeated <==>
         Occurrences(t, PagesOf(d, raw), s) > 0 && Occurrences(t, PagesOf(d, raw), s) >= Threshold(s, BodyCount(d))
  }

  lemma ThresholdPositive(signature: string, body: int)
    requires body >= 1
    ensures Threshold(signature, body) >= 1
  {
  }

  lemma AlwaysRemovable(t: Text, d: Document, raw: seq<Option<Content>>, p: Policy, page: Page)
    requires ValidDocument(d) && PolicyFor(t, d, raw, p)
    ensures Removable(t, p, page)
  {
    forall k | 0 <= k < |page.blocks| && EvidenceFor(t, p, page, k).Some?
      ensures EvidenceValid(EvidenceFor(t, p, page, k).value) {
      var s := Signature(t, page, page.blocks[k]);
      if IsTemplate(p, s) {
        LabelledBound(d, raw);
        OccurrencesBounded(t, PagesOf(d, raw), s.value);
        ThresholdPositive(s.value, BodyCount(d));
      }
    }
  }

  /** The record of page `i + 1`. */
  ghost predicate RecordFor(t: Text, d: Document, p: Policy, content: Option<Content>, i: nat, r: Record) {
    r.header == HeaderOf(d) && r.index == i + 1 && r.printed == PrintedLabel(d, i + 1)
    && match content
       case None => r.Quarantined?
       case Some(c) =>
         r.Extracted? && r.page == PageOf(d, i + 1, c) && ProjectionValid(t, r.page, r.cleaned)
         && CleanedUpTo(t, p, r.page, |r.page.blocks|, r.cleaned.retained, r.cleaned.removed)
  }

  /** The records of an extraction: one for every page, in order. */
  ghost predicate Extraction(t: Text, d: Document, raw: seq<Option<Content>>, p: Policy, records: seq<Record>) {
    && PolicyFor(t, d, raw, p) && |records| == |raw| == d.pageCount
    && forall i :: 0 <= i < |records| ==> RecordFor(t, d, p, raw[i], i, records[i])
  }

  /** `extract_document`, from the page contents on. It quarantines unreadable pages and never fails. */
  method ExtractDocument(t: Text, d: Document, raw: seq<Option<Content>>)
      returns (r: Result<seq<Record>>, ghost p: Policy)
    requires ValidDocument(d) && |raw| == d.pageCount
    ensures r.Ok? && Extraction(t, d, raw, p, r.value)
  {
    var pages := ReadPages(d, raw);
    var repeated, counts := Discover(t, pages, BodyCount(d));
    var policy := Policy(repeated, Some(BodyCount(d)), Some(counts));
    p := policy;
    var records: seq<Record> := [];
    for i := 0 to |raw|
      invariant |records| == i && forall j :: 0 <= j < i ==> RecordFor(t, d, policy, raw[j], j, records[j])
    {
      var record := ExtractPage(t, d, raw, policy, i);
      records := records + [record];
    }
    return Ok(records), p;
  }

  /** The pages that can be read, in order. */
  method ReadPages(d: Document, raw: seq<Option<Content>>) returns (pages: seq<Page>)
    ensures pages == PagesOf(d, raw)
  {
    pages := [];
    for i := 0 to |raw|
      invariant pages == PagesOf(d, raw[..i])
    {
      assert raw[..i + 1][..i] == raw[..i];
      if raw[i].Some? { pages := pages + [PageOf(d, i + 1, raw[i].value)]; }
    }
    assert raw[..|raw|] == raw;
  }

  /** The record of one page: extracted and cleaned, or quarantined. */
  method ExtractPage(t: Text, d: Document, raw: seq<Option<Content>>, policy: Policy, i: nat) returns (r: Record)
    requires ValidDocument(d) && PolicyFor(t, d, raw, policy) && i < |raw|
    ensures RecordFor(t, d, policy, raw[i], i, r)
  {
    if raw[i].None? { return Quarantined(HeaderOf(d), i + 1, PrintedLabel(d, i + 1)); }
    var page := PageOf(d, i + 1, raw[i].value);
    AlwaysRemovable(t, d, raw, policy, page);
    var cleaned := RemoveRepeated(t, policy, page);
    return Extracted(HeaderOf(d), i + 1, page.printed, page, cleaned.value);
  }

  // ----- the writer -----

  /** The body pages that the checked-in policies give the years with templates. */
  function ApprovedBodyCount(year: int): Option<int> {
    if year == 2020 then Some(299 - 7 + 1)
    else if year == 2021 then Some(382 - 7 + 1)
    else if year == 2022 then Some(384 - 7 + 1)
    else None
  }

  /** The validators that `validate_native_page_record` runs again. */
  predicate RecordValid(t: Text, r: Record) {
    && 1 <= r.index <= r.header.pageCount
    && (r.Extracted? ==>
          && r.header.docId == r.page.docId && r.header.year == r.page.year && r.index == r.page.index
            && r.printed == r.page.printed
          && (forall i :: 0 <= i < |r.cleaned.removed| ==> EvidenceValid(r.cleaned.removed[i]))
          && ProjectionValid(t, r.page, r.cleaned))
  }

  predicate ByIndex(a: Record, b: Record) { a.index <= b.index }

  function Digests(t: Text, page: Page): set<string> { set s | s in PageSignatures(t, page) :: t.digest(s) }

  predicate Counted(r: Record) { r.Extracted? && r.page.printed.Some? }

  /** The labelled pages that carry a signature with this digest. */
  function DigestOccurrences(t: Text, records: seq<Record>, digest: string): nat {
    if records == [] then 0
    else
      var last := records[|records| - 1];
      DigestOccurrences(t, records[..|records| - 1], digest) + if Counted(last) && digest in Digests(t, last.page)
        then 1 else 0
  }

  predicate EvidenceRecounts(t: Text, d: Document, records: seq<Record>, e: Evidence) {
    e.Repeated? ==>
      && e.observed == DigestOccurrences(t, records, e.digest) && e.body <= |records|
        && Some(e.body) == ApprovedBodyCount(d.year)
  }

  predicate RecordRecounts(t: Text, d: Document, records: seq<Record>, r: Record) {
    r.Extracted? ==> forall i :: 0 <= i < |r.cleaned.removed| ==> EvidenceRecounts(t, d, records, r.cleaned.removed[i])
  }

  predicate Complete(d: Document, ordered: seq<Record>) {
    && |ordered| == d.pageCount
    && forall i :: 0 <= i < |ordered| ==>
         ordered[i].index == i + 1 && ordered[i].header == HeaderOf(d) && ordered[i].printed == PrintedLabel(d, i + 1)
  }

  /** What `write_document_jsonl` checks before it writes. */
  predicate WriterAccepts(t: Text, d: Document, records: seq<Record>) {
    var ordered := SortBy(ByIndex, records);
    && (forall i :: 0 <= i < |records| ==> RecordValid(t, records[i])) && Complete(d, ordered)
    && forall i :: 0 <= i < |ordered| ==> RecordRecounts(t, d, ordered, ordered[i])
  }

  ghost predicate DigestCounts(t: Text, records: seq<Record>, counts: map<string, nat>) {
    forall x :: CountOf(counts, x) == DigestOccurrences(t, records, x)
  }

  lemma UpdateDigests(t: Text, records: seq<Record>, i: nat, counts: map<string, nat>)
    requires i < |records| && DigestCounts(t, records[..i], counts)
    ensures DigestCounts(t, records[..i + 1],
                         if Counted(records[i]) then Update(counts, Digests(t, records[i].page)) else counts)
  {
    assert records[..i + 1][..i] == records[..i] && records[..i + 1][i] == records[i];
    if Counted(records[i]) {
      forall x
        ensures CountOf(Update(counts, Digests(t, records[i].page)), x) == DigestOccurrences(t, records[..i + 1], x) {
        UpdateValue(counts, Digests(t, records[i].page), x);
      }
    }
  }

  /** The checks of `write_document_jsonl`; the result are the records in the order in which they are written. */
  method CheckDocument(t: Text, d: Document, records: seq<Record>) returns (r: Result<seq<Record>>)
    ensures r.Ok? <==> WriterAccepts(t, d, records)
    ensures r.Ok? ==> r.value == SortBy(ByIndex, records)
  {
    if !forall i :: 0 <= i < |records| ==> RecordValid(t, records[i]) { return Err("native page record is invalid"); }
    var ordered := SortBy(ByIndex, records);
    if !Complete(d, ordered) { return Err("page records must match the document, complete and contiguous"); }
    var counts: map<string, nat> := map[];
    for i := 0 to |ordered|
      invariant DigestCounts(t, ordered[..i], counts)
    {
      UpdateDigests(t, ordered, i, counts);
      if Counted(ordered[i]) { counts := Update(counts, Digests(t, ordered[i].page)); }
    }
    assert ordered[..|ordered|] == ordered;
    for i := 0 to |ordered|
      invariant forall j :: 0 <= j < i ==> RecordRecounts(t, d, ordered, ordered[j])
    {
      var consistent := CheckRecord(t, d, ordered, ordered[i], counts);
      if !consistent { return Err("native removal evidence is inconsistent"); }
    }
    return Ok(ordered);
  }

  /** The recount of one record against the counts over all of them. */
  method CheckRecord(t: Text, d: Document, ordered: seq<Record>, record: Record, counts: map<string, nat>)
      returns (ok: bool)
    requires DigestCounts(t, ordered, counts)
    ensures ok <==> RecordRecounts(t, d, ordered, record)
  {
    if record.Quarantined? { return true; }
    var removed := record.cleaned.removed;
    for k := 0 to |removed|
      invariant forall j :: 0 <= j < k ==> EvidenceRecounts(t, d, ordered, removed[j])
    {
      var e := removed[k];
      if e.Repeated?
        && (e.observed != CountOf(counts, e.digest) || e.body > |ordered|
            || Some(e.body) != ApprovedBodyCount(d.year)) {
        assert !EvidenceRecounts(t, d, ordered, e);
        return false;
      }
    }
    return true;
  }

  // ----- extractor and writer agree -----

  /** The labelled pages that carry some signature with this digest. */
  function DigestPages(t: Text, pages: seq<Page>, digest: string): nat {
    if pages == [] then 0
    else
      var last := pages[|pages| - 1];
      DigestPages(t, pages[..|pages| - 1], digest) + if last.printed.Some? && digest in Digests(t, last) then 1 else 0
  }

  /** No two signatures on labelled pages share a digest. */
  ghost predicate CollisionFree(t: Text, pages: seq<Page>) {
    forall p, q, a, b | p in pages && q in pages && a in PageSignatures(t, p) && b in PageSignatures(t, q) ::
      t.digest(a) == t.digest(b) ==> a == b
  }

  lemma {:induction false} DigestsCountSignatures(t: Text, pages: seq<Page>, n: nat, i: nat, s: string)
    requires n <= |pages| && CollisionFree(t, pages) && i < |pages| && s in PageSignatures(t, pages[i])
    ensures DigestPages(t, pages[..n], t.digest(s)) == Occurrences(t, pages[..n], s)
  {
    if n > 0 {
      DigestsCountSignatures(t, pages, n - 1, i, s);
      assert pages[..n][..n - 1] == pages[..n - 1];
      assert s in PageSignatures(t, pages[n - 1]) ==> t.digest(s) in Digests(t, pages[n - 1]);
      if t.digest(s) in Digests(t, pages[n - 1]) {
        var a :| a in PageSignatures(t, pages[n - 1]) && t.digest(a) == t.digest(s);
        assert a == s;
      }
    }
  }

  lemma IndexOrder()
    ensures KeyOrder(ByIndex)
  {
  }

  /** Whatever the order of the records, the writer puts them back in page order. */
  lemma {:induction false} WrittenInOrder(t: Text, d: Document, raw: seq<Option<Content>>, p: Policy,
                                          records: seq<Record>,
                                          shuffled: seq<Record>)
    requires Extraction(t, d, raw, p, records) && multiset(shuffled) == multiset(records)
    ensures SortBy(ByIndex, shuffled) == records
  {
    IndexOrder();
    SortBySorts(ByIndex, shuffled);
    forall i | 0 <= i < |records|
      ensures records[i].index == i + 1 { assert RecordFor(t, d, p, raw[i], i, records[i]); }
    SortedUniquely(ByIndex, records, SortBy(ByIndex, shuffled));
  }

  lemma {:induction false} DigestSnoc(t: Text, records: seq<Record>, n: nat, x: string)
    requires n < |records|
    ensures DigestOccurrences(t, records[..n + 1], x)
            == DigestOccurrences(t, records[..n], x)
               + if Counted(records[n]) && x in Digests(t, records[n].page) then 1 else 0
  {
    assert records[..n + 1][..n] == records[..n];
  }

  lemma {:induction false} PagesSnoc(t: Text, d: Document, raw: seq<Option<Content>>, n: nat, x: string)
    requires n < |raw|
    ensures DigestPages(t, PagesOf(d, raw[..n + 1]), x)
            == DigestPages(t, PagesOf(d, raw[..n]), x)
               + if raw[n].Some? && PrintedLabel(d, n + 1).Some? && x in Digests(t, PageOf(d, n + 1, raw[n].value))
                 then 1 else 0
  {
    var front := PagesOf(d, raw[..n]);
    assert raw[..n + 1][..n] == raw[..n];
    if raw[n].Some? {
      assert (front + [PageOf(d, n + 1, raw[n].value)])[..|front|] == front;
    } else {
      assert PagesOf(d, raw[..n + 1]) == front;
    }
  }

  lemma {:induction false} SameDigestCounts(t: Text, d: Document, raw: seq<Option<Content>>, p: Policy,
                                            records: seq<Record>, n: nat, x: string)
    requires Extraction(t, d, raw, p, records) && n <= |raw|
    ensures DigestOccurrences(t, records[..n], x) == DigestPages(t, PagesOf(d, raw[..n]), x)
  {
    if n > 0 {
      SameDigestCounts(t, d, raw, p, records, n - 1, x);
      DigestSnoc(t, records, n - 1, x);
      PagesSnoc(t, d, raw, n - 1, x);
      CountedAlike(t, d, p, raw[n - 1], n - 1, records[n - 1], x);
    }
  }

  /** A record is counted exactly when its page is. */
  lemma CountedAlike(t: Text, d: Document, p: Policy, content: Option<Content>, i: nat, r: Record, x: string)
    requires RecordFor(t, d, p, content, i, r)
    ensures Counted(r) && x in Digests(t, r.page)
            <==> content.Some? && PrintedLabel(d, i + 1).Some? && x in Digests(t, PageOf(d, i + 1, content.value))
  {
  }

  lemma ExtractedValid(t: Text, d: Document, raw: seq<Option<Content>>, p: Policy, records: seq<Record>, i: nat)
    requires ValidDocument(d) && Extraction(t, d, raw, p, records) && i < |records|
    ensures RecordValid(t, records[i])
  {
    var r := records[i];
    assert RecordFor(t, d, p, raw[i], i, r);
    if r.Extracted? {
      AlwaysRemovable(t, d, raw, p, r.page);
      forall k | 0 <= k < |r.cleaned.removed| ensures EvidenceValid(r.cleaned.removed[k]) {
        assert r.cleaned.removed[k] in r.cleaned.removed;
      }
    }
  }

  /** For a template removed from some page, the body range is the approved one and no other signature shares its
      digest. */
  ghost predicate TemplateRecounts(t: Text, d: Document, raw: seq<Option<Content>>, signature: string) {
    && Some(BodyCount(d)) == ApprovedBodyCount(d.year)
    && DigestPages(t, PagesOf(d, raw), t.digest(signature)) == Occurrences(t, PagesOf(d, raw), signature)
  }

  /** Block `k` of page `i + 1` is removed as a template. */
  ghost predicate TemplateAt(t: Text, d: Document, raw: seq<Option<Content>>, p: Policy, i: nat, k: nat) {
    && i < |raw| && raw[i].Some? && k < |raw[i].value.blocks|
    && IsTemplate(p, Signature(t, PageOf(d, i + 1, raw[i].value), raw[i].value.blocks[k]))
  }

  ghost predicate AllTemplatesRecount(t: Text, d: Document, raw: seq<Option<Content>>, p: Policy) {
    forall i: nat, k: nat :: TemplateAt(t, d, raw, p, i, k) ==>
      TemplateRecounts(t, d, raw, Signature(t, PageOf(d, i + 1, raw[i].value), raw[i].value.blocks[k]).value)
  }

  lemma TemplateEvidence(t: Text, d: Document, raw: seq<Option<Content>>, p: Policy, records: seq<Record>, i: nat,
                         k: nat)
    requires ValidDocument(d) && Extraction(t, d, raw, p, records) && TemplateAt(t, d, raw, p, i, k)
    ensures var e := EvidenceFor(t, p, PageOf(d, i + 1, raw[i].value), k);
            && e.Some? && e.value.Repeated? && records[i].Extracted? && e.value in records[i].cleaned.removed
            && (EvidenceRecounts(t, d, records, e.value)
                <==> TemplateRecounts(t, d, raw,
                                      Signature(t, PageOf(d, i + 1, raw[i].value), raw[i].value.blocks[k]).value))
  {
    assert RecordFor(t, d, p, raw[i], i, records[i]);
    var s := Signature(t, PageOf(d, i + 1, raw[i].value), raw[i].value.blocks[k]).value;
    SameDigestCounts(t, d, raw, p, records, |raw|, t.digest(s));
    assert raw[..|raw|] == raw && records[..|records|] == records;
  }

  lemma RecountsOfPage(t: Text, d: Document, raw: seq<Option<Content>>, p: Policy, records: seq<Record>, i: nat)
    requires ValidDocument(d) && Extraction(t, d, raw, p, records) && AllTemplatesRecount(t, d, raw, p) && i < |records|
    ensures RecordRecounts(t, d, records, records[i])
  {
    assert RecordFor(t, d, p, raw[i], i, records[i]);
    if records[i].Extracted? {
      var removed := records[i].cleaned.removed;
      forall j | 0 <= j < |removed| ensures EvidenceRecounts(t, d, records, removed[j]) {
        var e := removed[j];
        assert e in removed;
        if e.Repeated? {
          assert TemplateAt(t, d, raw, p, i, e.index);
          TemplateEvidence(t, d, raw, p, records, i, e.index);
        }
      }
    }
  }

  /** The writer takes the records of an extraction, in any order, exactly when every removed template recounts. */
  lemma WriterTakesExactly(t: Text, d: Document, raw: seq<Option<Content>>, p: Policy, records: seq<Record>,
                           shuffled: seq<Record>)
    requires ValidDocument(d) && Extraction(t, d, raw, p, records) && multiset(shuffled) == multiset(records)
    ensures WriterAccepts(t, d, shuffled) <==> AllTemplatesRecount(t, d, raw, p)
  {
    WrittenInOrder(t, d, raw, p, records, shuffled);
    forall i | 0 <= i < |shuffled| ensures RecordValid(t, shuffled[i]) {
      assert shuffled[i] in multiset(records);
      var j :| 0 <= j < |records| && records[j] == shuffled[i];
      ExtractedValid(t, d, raw, p, records, j);
    }
    forall i | 0 <= i < |records| ensures RecordFor(t, d, p, raw[i], i, records[i]) {}
    assert Complete(d, records);
    if AllTemplatesRecount(t, d, raw, p) {
      forall i | 0 <= i < |records| ensures RecordRecounts(t, d, records, records[i]) {
        RecountsOfPage(t, d, raw, p, records, i);
      }
    } else {
      var i: nat, k: nat :| TemplateAt(t, d, raw, p, i, k)
        && !TemplateRecounts(t, d, raw, Signature(t, PageOf(d, i + 1, raw[i].value), raw[i].value.blocks[k]).value);
      TemplateEvidence(t, d, raw, p, records, i, k);
      assert !RecordRecounts(t, d, records, records[i]);
    }
  }

  /** With digests that do not collide and the approved body range, extractor and writer always agree. */
  lemma {:induction false} ExtractorAgreesWithWriter(t: Text, d: Document, raw: seq<Option<Content>>, p: Policy,
                                                     records: seq<Record>,
                                                     shuffled: seq<Record>)
    requires ValidDocument(d) && Extraction(t, d, raw, p, records) && multiset(shuffled) == multiset(records)
    requires CollisionFree(t, PagesOf(d, raw))
             && (ApprovedBodyCount(d.year).Some? ==> ApprovedBodyCount(d.year) == Some(BodyCount(d)))
    ensures WriterAccepts(t, d, shuffled)
  {
    var pages := PagesOf(d, raw);
    forall i: nat, k: nat | TemplateAt(t, d, raw, p, i, k)
      ensures TemplateRecounts(t, d, raw, Signature(t, PageOf(d, i + 1, raw[i].value), raw[i].value.blocks[k]).value)
    {
      TemplateRecountsAt(t, d, raw, p, i, k);
    }
    WriterTakesExactly(t, d, raw, p, records, shuffled);
  }

  lemma {:induction false} TemplateRecountsAt(t: Text, d: Document, raw: seq<Option<Content>>, p: Policy, i: nat,
                                              k: nat)
    requires ValidDocument(d) && PolicyFor(t, d, raw, p) && CollisionFree(t, PagesOf(d, raw))
             && TemplateAt(t, d, raw, p, i, k)
    requires ApprovedBodyCount(d.year).Some? ==> ApprovedBodyCount(d.year) == Some(BodyCount(d))
    ensures TemplateRecounts(t, d, raw, Signature(t, PageOf(d, i + 1, raw[i].value), raw[i].value.blocks[k]).value)
  {
    RecountsExactly(t, PagesOf(d, raw), Signature(t, PageOf(d, i + 1, raw[i].value), raw[i].value.blocks[k]).value);
  }

  /** With collision-free digests, an occurring signature recounts by its digest. */
  lemma {:induction false} RecountsExactly(t: Text, pages: seq<Page>, s: string)
    requires CollisionFree(t, pages) && Occurrences(t, pages, s) > 0
    ensures DigestPages(t, pages, t.digest(s)) == Occurrences(t, pages, s)
  {
    var n := Carrier(t, pages, s);
    DigestsCountSignatures(t, pages, |pages|, n, s);
    assert pages[..|pages|] == pages;
  }

  /** A page that carries an occurring signature. */
  ghost function Carrier(t: Text, pages: seq<Page>, s: string): (n: nat)
    requires Occurrences(t, pages, s) > 0
    ensures n < |pages| && s in PageSignatures(t, pages[n])
  {
    if s in PageSignatures(t, pages[|pages| - 1]) then |pages| - 1 else Carrier(t, pages[..|pages| - 1], s)
  }
}
