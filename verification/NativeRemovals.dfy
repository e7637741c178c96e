/** Which blocks an extraction removes (src/ingestion/extract_native.py). */
module NativeRemovals {
  // In terms of the pages alone: where a block lies, what its cleaned text is, and on how many labelled pages the
  // same text lies at the same edge.

  import opened NativeDocuments
  import opened NativeTemplates
  import opened Sorting
  import opened Strings
  import opened Wrappers

  datatype Edge = Right | Top | Bottom

  /** The block lies at this edge of page `index`, in a year whose pages have it. */
  predicate AtEdge(d: Document, index: nat, c: Content, block: Block, edge: Edge) {
    match edge
    case Right => d.year == 2020 && index % 2 == 1 && 10.0 * block.x0 >= 9.0 * c.width
    case Top => (d.year == 2021 || d.year == 2022) && 100.0 * block.y1 <= 8.0 * c.height
    case Bottom =>
      (d.year == 2021 || d.year == 2022) && 100.0 * block.y1 > 8.0 * c.height && 100.0 * block.y0 >= 92.0 * c.height
  }

  /** Some block of page `index` lies at the edge and has this text. */
  predicate EdgeText(t: Text, d: Document, index: nat, c: Content, edge: Edge, text: string) {
    exists k :: 0 <= k < |c.blocks| && AtEdge(d, index, c, c.blocks[k], edge) && t.clean(c.blocks[k].text) == text
  }

  /** The page is in the body, and its printed number is positive. */
  predicate IsLabelled(d: Document, index: nat) { d.bodyStart <= index <= d.bodyEnd && index + d.offset >= 1 }

  predicate ShowsText(t: Text, d: Document, raw: seq<Option<Content>>, edge: Edge, text: string, index: nat) {
    && 1 <= index <= |raw| && raw[index - 1].Some? && IsLabelled(d, index)
    && EdgeText(t, d, index, raw[index - 1].value, edge, text)
  }

  /** The labelled pages that show the text at the edge. */
  function PagesShowing(t: Text, d: Document, raw: seq<Option<Content>>, edge: Edge, text: string): set<nat> {
    set index: nat | 1 <= index <= |raw| && ShowsText(t, d, raw, edge, text, index)
  }

  /** On at least 40% of the body pages at the right edge, or on at least half of them at the top or the bottom. */
  predicate IsRepeated(t: Text, d: Document, raw: seq<Option<Content>>, edge: Edge, text: string) {
    var n := |PagesShowing(t, d, raw, edge, text)|;
    n >= 1 && 100 * n >= (if edge == Right then 40 else 50) * (d.bodyEnd - d.bodyStart + 1)
  }

  /** The block has no text, or lies at an edge where its text is repeated. */
  predicate IsRemoved(t: Text, d: Document, raw: seq<Option<Content>>, index: nat, c: Content, block: Block) {
    || t.clean(block.text) == ""
    || exists edge :: AtEdge(d, index, c, block, edge) && IsRepeated(t, d, raw, edge, t.clean(block.text))
  }

  // ----- signatures are edges and texts -----

  function Mark(edge: Edge): string {
    match edge
    case Right => "right-margin:"
    case Top => "header-footer:top:"
    case Bottom => "header-footer:bottom:"
  }

  lemma MarksDiffer(a: Edge, x: string, b: Edge, y: string)
    requires Mark(a) + x == Mark(b) + y
    ensures a == b && x == y
  {
    var s, u := Mark(a) + x, Mark(b) + y;
    assert s[0] == Mark(a)[0] && u[0] == Mark(b)[0];
    assert |Mark(a)| > 13 ==> s[14] == Mark(a)[14];
    assert |Mark(b)| > 13 ==> u[14] == Mark(b)[14];
    assert s[|Mark(a)|..] == x && u[|Mark(b)|..] == y;
  }

  lemma SignatureExactly(t: Text, d: Document, index: nat, c: Content, block: Block, edge: Edge)
    requires t.clean(block.text) != ""
    ensures Signature(t, PageOf(d, index, c), block) == Some(Mark(edge) + t.clean(block.text))
            <==> AtEdge(d, index, c, block, edge)
  {
    var s := Signature(t, PageOf(d, index, c), block);
    forall other: Edge ensures Mark(other) + t.clean(block.text) == Mark(edge) + t.clean(block.text) ==> other == edge {
      if Mark(other) + t.clean(block.text) == Mark(edge) + t.clean(block.text) {
        MarksDiffer(other, t.clean(block.text), edge, t.clean(block.text));
      }
    }
    assert s.Some? ==> exists other: Edge :: s.value == Mark(other) + t.clean(block.text) by {
      assert s.Some? ==>
        s.value == Mark(Right) + t.clean(block.text) || s.value == Mark(Top) + t.clean(block.text)
        || s.value == Mark(Bottom) + t.clean(block.text);
    }
  }

  lemma SignatureShape(t: Text, page: Page, block: Block)
    ensures Signature(t, page, block).Some? ==>
              t.clean(block.text) != ""
                && exists edge :: Signature(t, page, block) == Some(Mark(edge) + t.clean(block.text))
  {
    if Signature(t, page, block).Some? {
      var s := Signature(t, page, block).value;
      assert s == Mark(Right) + t.clean(block.text) || s == Mark(Top) + t.clean(block.text)
             || s == Mark(Bottom) + t.clean(block.text);
    }
  }

  /** A page carries the signature exactly when it shows the text at the edge. */
  lemma CarriesExactly(t: Text, d: Document, index: nat, c: Content, edge: Edge, text: string)
    requires text != ""
    ensures Mark(edge) + text in PageSignatures(t, PageOf(d, index, c)) <==> EdgeText(t, d, index, c, edge, text)
  {
    var page := PageOf(d, index, c);
    if Mark(edge) + text in PageSignatures(t, page) {
      var b :| b in page.blocks && Signature(t, page, b) == Some(Mark(edge) + text);
      SignatureShape(t, page, b);
      var other :| Signature(t, page, b) == Some(Mark(other) + t.clean(b.text));
      MarksDiffer(edge, text, other, t.clean(b.text));
      SignatureExactly(t, d, index, c, b, edge);
      var k :| 0 <= k < |c.blocks| && c.blocks[k] == b;
      assert AtEdge(d, index, c, c.blocks[k], edge) && t.clean(c.blocks[k].text) == text;
    }
    if k :| 0 <= k < |c.blocks| && AtEdge(d, index, c, c.blocks[k], edge) && t.clean(c.blocks[k].text) == text {
      SignatureExactly(t, d, index, c, c.blocks[k], edge);
      assert c.blocks[k] in page.blocks;
    }
  }

  // ----- occurrences are pages -----

  lemma ShowingSnoc(t: Text, d: Document, front: seq<Option<Content>>, last: Option<Content>, edge: Edge, text: string)
    ensures PagesShowing(t, d, front + [last], edge, text)
            == PagesShowing(t, d, front, edge, text)
               + if ShowsText(t, d, front + [last], edge, text, |front| + 1) then {|front| + 1} else {}
  {
    var raw := front + [last];
    forall index: nat | 1 <= index <= |front|
      ensures ShowsText(t, d, raw, edge, text, index) <==> ShowsText(t, d, front, edge, text, index)
    {
      assert raw[index - 1] == front[index - 1];
    }
  }

  lemma {:induction false} OccurrencesSnoc(t: Text, pages: seq<Page>, page: Page, s: string)
    ensures Occurrences(t, pages + [page], s)
            == Occurrences(t, pages, s) + if page.printed.Some? && s in PageSignatures(t, page) then 1 else 0
  {
    assert (pages + [page])[..|pages|] == pages;
  }

  /** A signature occurs on as many pages as show its text at its edge. */
  lemma {:induction false} OccurrencesArePages(t: Text, d: Document, raw: seq<Option<Content>>, edge: Edge,
                                               text: string)
    requires text != ""
    ensures Occurrences(t, PagesOf(d, raw), Mark(edge) + text) == |PagesShowing(t, d, raw, edge, text)|
  {
    if raw == [] {
      assert PagesShowing(t, d, raw, edge, text) == {};
    } else {
      var front, last := raw[..|raw| - 1], raw[|raw| - 1];
      assert raw == front + [last];
      OccurrencesArePages(t, d, front, edge, text);
      ShowingSnoc(t, d, front, last, edge, text);
      OccurrencesStep(t, d, front, last, edge, text);
      assert |front| + 1 !in PagesShowing(t, d, front, edge, text);
    }
  }

  lemma {:induction false} OccurrencesStep(t: Text, d: Document, front: seq<Option<Content>>, last: Option<Content>,
                                           edge: Edge,
                                           text: string)
    requires text != ""
    ensures Occurrences(t, PagesOf(d, front + [last]), Mark(edge) + text)
            == Occurrences(t, PagesOf(d, front), Mark(edge) + text)
               + if ShowsText(t, d, front + [last], edge, text, |front| + 1) then 1 else 0
  {
    assert (front + [last])[..|front|] == front;
    if last.Some? {
      OccurrencesSnoc(t, PagesOf(d, front), PageOf(d, |front| + 1, last.value), Mark(edge) + text);
      CarriesExactly(t, d, |front| + 1, last.value, edge, text);
    } else {
      assert PagesOf(d, front + [last]) == PagesOf(d, front);
    }
  }

  // ----- what is removed -----

  lemma MarkKind(edge: Edge, text: string)
    ensures StartsWith(Mark(edge) + text, RIGHT_MARGIN) <==> edge == Right
  {
    var s := Mark(edge) + text;
    assert s[0] == Mark(edge)[0];
    assert edge == Right ==> s[..|RIGHT_MARGIN|] == RIGHT_MARGIN;
  }

  lemma TemplateExactly(t: Text, d: Document, raw: seq<Option<Content>>, p: Policy, edge: Edge, text: string)
    requires ValidDocument(d) && PolicyFor(t, d, raw, p) && text != ""
    ensures IsTemplate(p, Some(Mark(edge) + text)) <==> IsRepeated(t, d, raw, edge, text)
  {
    OccurrencesArePages(t, d, raw, edge, text);
    MarkKind(edge, text);
    ThresholdExactly(Mark(edge) + text, BodyCount(d), |PagesShowing(t, d, raw, edge, text)|);
  }

  lemma RemovalExactly(t: Text, d: Document, raw: seq<Option<Content>>, p: Policy, i: nat, k: nat)
    requires ValidDocument(d) && PolicyFor(t, d, raw, p) && i < |raw| && raw[i].Some? && k < |raw[i].value.blocks|
    ensures EvidenceFor(t, p, PageOf(d, i + 1, raw[i].value), k).Some?
            <==> IsRemoved(t, d, raw, i + 1, raw[i].value, raw[i].value.blocks[k])
  {
    var c, block := raw[i].value, raw[i].value.blocks[k];
    var text, page := t.clean(block.text), PageOf(d, i + 1, c);
    if text != "" {
      SignatureShape(t, page, block);
      forall edge: Edge
        ensures Signature(t, page, block) == Some(Mark(edge) + text) <==> AtEdge(d, i + 1, c, block, edge)
        ensures IsTemplate(p, Some(Mark(edge) + text)) <==> IsRepeated(t, d, raw, edge, text)
      {
        SignatureExactly(t, d, i + 1, c, block, edge);
        TemplateExactly(t, d, raw, p, edge, text);
      }
    }
  }

  /** The cleaned texts of these blocks. */
  function CleanTexts(t: Text, blocks: seq<Block>, indexes: seq<nat>): seq<string>
    requires forall j :: 0 <= j < |indexes| ==> indexes[j] < |blocks|
  {
    seq(|indexes|, j requires 0 <= j < |indexes| => t.clean(blocks[indexes[j]].text))
  }

  /** An extraction keeps a block exactly when it has text and does not lie at an edge where its text is repeated;
      the text of the page are the kept blocks in their order, one to a line. */
  lemma RemovedExactly(t: Text, d: Document, raw: seq<Option<Content>>, p: Policy, records: seq<Record>, i: nat)
    requires ValidDocument(d) && Extraction(t, d, raw, p, records) && i < |raw| && raw[i].Some?
    ensures var r, blocks := records[i], raw[i].value.blocks;
            && r.Extracted? && r.page.blocks == blocks && Increasing(r.cleaned.retained)
            && (forall k :: k in r.cleaned.retained
                            <==> 0 <= k < |blocks| && !IsRemoved(t, d, raw, i + 1, raw[i].value, blocks[k]))
            && (forall j :: 0 <= j < |r.cleaned.retained| ==> r.cleaned.retained[j] < |blocks|)
            && r.cleaned.text == JoinLines(CleanTexts(t, blocks, r.cleaned.retained))
  {
    assert RecordFor(t, d, p, raw[i], i, records[i]);
    var blocks, retained := raw[i].value.blocks, records[i].cleaned.retained;
    forall k: nat | k < |blocks|
      ensures EvidenceFor(t, p, PageOf(d, i + 1, raw[i].value), k).None?
              <==> !IsRemoved(t, d, raw, i + 1, raw[i].value, blocks[k])
    {
      RemovalExactly(t, d, raw, p, i, k);
    }
    assert CleanTexts(t, blocks, retained) == Texts(t, PageOf(d, i + 1, raw[i].value), retained);
  }

  // ----- what the writer vouches for -----

  /** The record says what the document says of its page. */
  predicate OfDocument(d: Document, r: Record) {
    && r.header.docId == d.docId && r.header.year == d.year && r.header.sha256 == d.sha256
    && r.header.pageCount == d.pageCount && 1 <= r.index <= d.pageCount
    && r.printed == (if IsLabelled(d, r.index) then Some(r.index + d.offset) else None)
    && (r.Extracted? ==>
          r.page.docId == d.docId && r.page.year == d.year && r.page.index == r.index && r.page.printed == r.printed)
  }

  /** The text of the page are its kept blocks, every other block has evidence, and the evidence is true of it. */
  predicate Reproducible(t: Text, r: Record) {
    r.Extracted? ==>
      var blocks := r.page.blocks;
      && Increasing(r.cleaned.retained)
      && (forall j :: 0 <= j < |r.cleaned.retained| ==>
            r.cleaned.retained[j] < |blocks| && t.clean(blocks[r.cleaned.retained[j]].text) != "")
      && r.cleaned.text == JoinLines(CleanTexts(t, blocks, r.cleaned.retained))
      && (forall k :: 0 <= k < |blocks| ==>
            (k in r.cleaned.retained <==> !HasEvidence(r.cleaned.removed, k)))
      && forall e :: e in r.cleaned.removed ==> e.index < |blocks| && IsTrueOf(t, r.page, blocks[e.index], e)
  }

  predicate HasEvidence(removed: seq<Evidence>, k: int) { exists j :: 0 <= j < |removed| && removed[j].index == k }

  /** The block is blank, or its signature has this digest and the count meets its share of the body pages. */
  predicate IsTrueOf(t: Text, page: Page, block: Block, e: Evidence) {
    match e
    case Blank(_) => t.clean(block.text) == ""
    case Repeated(_, kind, digest, observed, body, threshold) =>
      && Signature(t, page, block).Some? && digest == t.digest(Signature(t, page, block).value)
      && 1 <= observed <= body && 100 * observed >= (if kind == RightMargin then 40 else 50) * body
      && kind == (if page.year == 2020 then RightMargin else HeaderFooter)
  }

  lemma EvidenceIsTrue(t: Text, page: Page, e: Evidence)
    requires EvidenceMatches(t, page, e) && EvidenceValid(e)
    ensures IsTrueOf(t, page, page.blocks[e.index], e)
  {
    if e.Repeated? {
      var s := Signature(t, page, page.blocks[e.index]).value;
      SignatureKind(t, page, page.blocks[e.index]);
      ThresholdExactly(s, e.body, e.observed);
    }
  }

  lemma SignatureKind(t: Text, page: Page, block: Block)
    requires Signature(t, page, block).Some?
    ensures KindOf(Signature(t, page, block).value) == if page.year == 2020 then RightMargin else HeaderFooter
  {
    var text := t.clean(block.text);
    MarkKind(Right, text);
    MarkKind(Top, text);
    MarkKind(Bottom, text);
    var s := Signature(t, page, block).value;
    assert s == Mark(Right) + text || s == Mark(Top) + text || s == Mark(Bottom) + text;
  }

  lemma ValidIsReproducible(t: Text, r: Record)
    requires RecordValid(t, r)
    ensures Reproducible(t, r)
  {
    if r.Extracted? {
      var c := r.cleaned;
      assert CleanTexts(t, r.page.blocks, c.retained) == Texts(t, r.page, c.retained);
      forall k ensures k in Indexes(c.removed) <==> HasEvidence(c.removed, k) { IndexHasEvidence(c.removed, k); }
      forall e | e in c.removed ensures e.index < |r.page.blocks| && IsTrueOf(t, r.page, r.page.blocks[e.index], e) {
        var i :| 0 <= i < |c.removed| && c.removed[i] == e;
        assert EvidenceMatches(t, r.page, c.removed[i]) && EvidenceValid(c.removed[i]);
        EvidenceIsTrue(t, r.page, e);
      }
    }
  }

  lemma IndexHasEvidence(removed: seq<Evidence>, k: int)
    ensures k in Indexes(removed) <==> HasEvidence(removed, k)
  {
    if k in Indexes(removed) {
      var i :| 0 <= i < |removed| && Indexes(removed)[i] == k;
      assert removed[i].index == k;
    }
    if j :| 0 <= j < |removed| && removed[j].index == k { assert Indexes(removed)[j] == k; }
  }

  predicate HasRecord(records: seq<Record>, index: nat) {
    exists j :: 0 <= j < |records| && records[j].index == index
  }

  /** The record of a labelled page that carries a signature with this digest. */
  predicate ShowsDigest(t: Text, r: Record, digest: string) {
    && r.Extracted? && r.page.printed.Some?
    && exists k :: 0 <= k < |r.page.blocks| && BlockDigest(t, r.page, k) == Some(digest)
  }

  function BlockDigest(t: Text, page: Page, k: nat): Option<string>
    requires k < |page.blocks|
  {
    match Signature(t, page, page.blocks[k])
    case None => None
    case Some(s) => Some(t.digest(s))
  }

  /** The pages whose record carries the digest. */
  function PagesWith(t: Text, records: seq<Record>, digest: string): set<nat> {
    set r | r in records && ShowsDigest(t, r, digest) :: r.index
  }

  /** The body pages that the approved policies give a year. */
  predicate IsApprovedBody(year: int, body: int) {
    (year == 2020 && body == 293) || (year == 2021 && body == 376) || (year == 2022 && body == 378)
  }

  /** The count of the evidence is the number of pages with its digest, over the approved body. */
  predicate IsRecounted(t: Text, d: Document, records: seq<Record>, e: Evidence) {
    e.Repeated? ==>
      e.observed == |PagesWith(t, records, e.digest)| && e.body <= d.pageCount && IsApprovedBody(d.year, e.body)
  }

  lemma DigestShown(t: Text, r: Record, digest: string)
    ensures Counted(r) && digest in Digests(t, r.page) <==> ShowsDigest(t, r, digest)
  {
    if Counted(r) && digest in Digests(t, r.page) {
      var s :| s in PageSignatures(t, r.page) && t.digest(s) == digest;
      var b :| b in r.page.blocks && Signature(t, r.page, b) == Some(s);
      var k :| 0 <= k < |r.page.blocks| && r.page.blocks[k] == b;
      assert BlockDigest(t, r.page, k) == Some(digest);
    }
    if ShowsDigest(t, r, digest) {
      var k :| 0 <= k < |r.page.blocks| && BlockDigest(t, r.page, k) == Some(digest);
      var s := Signature(t, r.page, r.page.blocks[k]).value;
      assert r.page.blocks[k] in r.page.blocks && s in PageSignatures(t, r.page);
    }
  }

  predicate InPageOrder(records: seq<Record>) { forall i :: 0 <= i < |records| ==> records[i].index == i + 1 }

  /** Over records in page order, the recount counts the pages. */
  lemma {:induction false} RecountIsPages(t: Text, records: seq<Record>, digest: string)
    requires InPageOrder(records)
    ensures DigestOccurrences(t, records, digest) == |PagesWith(t, records, digest)|
  {
    if records == [] {
      assert PagesWith(t, records, digest) == {};
    } else {
      var front, last := records[..|records| - 1], records[|records| - 1];
      assert records == front + [last];
      RecountIsPages(t, front, digest);
      DigestShown(t, last, digest);
      PagesWithSnoc(t, front, last, digest);
    }
  }

  lemma PagesWithSnoc(t: Text, front: seq<Record>, last: Record, digest: string)
    requires InPageOrder(front + [last])
    ensures |PagesWith(t, front + [last], digest)|
            == |PagesWith(t, front, digest)| + if ShowsDigest(t, last, digest) then 1 else 0
  {
    var before := PagesWith(t, front, digest);
    assert (front + [last])[|front|].index == |front| + 1;
    forall r | r in front ensures r.index <= |front| {
      var i :| 0 <= i < |front| && front[i] == r;
      assert (front + [last])[i].index == i + 1;
    }
    assert PagesWith(t, front + [last], digest) == before + if ShowsDigest(t, last, digest) then {last.index} else {};
  }

  lemma SamePages(t: Text, a: seq<Record>, b: seq<Record>, digest: string)
    requires multiset(a) == multiset(b)
    ensures PagesWith(t, a, digest) == PagesWith(t, b, digest)
  {
    forall r ensures r in a <==> r in b { assert r in a <==> r in multiset(a); }
  }

  lemma RecountSpelled(t: Text, d: Document, records: seq<Record>, ordered: seq<Record>, e: Evidence)
    requires multiset(records) == multiset(ordered) && InPageOrder(ordered) && |ordered| == d.pageCount
    requires EvidenceRecounts(t, d, ordered, e)
    ensures IsRecounted(t, d, records, e)
  {
    if e.Repeated? {
      RecountIsPages(t, ordered, e.digest);
      SamePages(t, records, ordered, e.digest);
    }
  }

  /** A record that the writer takes. */
  predicate Vouched(t: Text, d: Document, records: seq<Record>, r: Record) {
    && OfDocument(d, r) && Reproducible(t, r)
    && (r.Extracted? ==> forall e :: e in r.cleaned.removed ==> IsRecounted(t, d, records, e))
  }

  lemma RecordVouched(t: Text, d: Document, records: seq<Record>, ordered: seq<Record>, i: nat)
    requires multiset(records) == multiset(ordered) && Complete(d, ordered) && i < |ordered|
    requires RecordValid(t, ordered[i]) && RecordRecounts(t, d, ordered, ordered[i])
    ensures Vouched(t, d, records, ordered[i])
  {
    var r := ordered[i];
    ValidIsReproducible(t, r);
    if r.Extracted? {
      forall e | e in r.cleaned.removed ensures IsRecounted(t, d, records, e) {
        var k :| 0 <= k < |r.cleaned.removed| && r.cleaned.removed[k] == e;
        assert EvidenceRecounts(t, d, ordered, r.cleaned.removed[k]);
        RecountSpelled(t, d, records, ordered, e);
      }
    }
  }

  /** The writer takes nothing but reproducible and recounted records of the document, one for every page. */
  lemma WriterVouches(t: Text, d: Document, records: seq<Record>)
    requires WriterAccepts(t, d, records)
    ensures |records| == d.pageCount
    ensures forall index: nat :: 1 <= index <= d.pageCount ==> HasRecord(records, index)
    ensures forall r :: r in records ==> Vouched(t, d, records, r)
  {
    var ordered := SortBy(ByIndex, records);
    IndexOrder();
    SortBySorts(ByIndex, records);
    assert |multiset(records)| == |records| && |multiset(ordered)| == |ordered|;
    forall index: nat | 1 <= index <= d.pageCount ensures HasRecord(records, index) {
      assert ordered[index - 1] in multiset(records) && ordered[index - 1].index == index;
    }
    forall r | r in records ensures Vouched(t, d, records, r) {
      assert r in multiset(ordered);
      var i :| 0 <= i < |ordered| && ordered[i] == r;
      var j :| 0 <= j < |records| && records[j] == r;
      assert RecordValid(t, records[j]);
      RecordVouched(t, d, records, ordered, i);
    }
  }
}
