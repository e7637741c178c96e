/** Leases on the registry, and runs of them. */
module Issuance {
  // What one lease does: the projected rows, the row checks of a commit, the committed database; and
  // what holds over every run of leases.

  import opened Registry
  import opened Strings
  import opened Wrappers

  /** A canonical case as issuance sees it: its id and its content digest. */
  datatype CaseVersion = CaseVersion(caseId: string, content: Digest)

  // ----- projection -----

  /** `{case.case_id: case for case in cases}` */
  function Contents(cases: seq<CaseVersion>): (m: map<string, Digest>)
    ensures forall id :: id in m <==> exists i :: 0 <= i < |cases| && cases[i].caseId == id
  {
    if cases == [] then map[]
    else
      var last := cases[|cases| - 1];
      Contents(cases[..|cases| - 1])[last.caseId := last.content]
  }

  /** The last case with an id gives its content. */
  lemma {:induction false} ContentsAt(cases: seq<CaseVersion>, i: nat)
    requires i < |cases| && forall j :: i < j < |cases| ==> cases[j].caseId != cases[i].caseId
    ensures cases[i].caseId in Contents(cases) && Contents(cases)[cases[i].caseId] == cases[i].content
  {
    if i < |cases| - 1 {
      ContentsAt(cases[..|cases| - 1], i);
      assert cases[|cases| - 1].caseId != cases[i].caseId;
    }
  }

  lemma {:induction false} ContentsHas(cases: seq<CaseVersion>, id: string)
    ensures id in Contents(cases) ==> CaseVersion(id, Contents(cases)[id]) in cases
  {
    if cases != [] && id != cases[|cases| - 1].caseId {
      ContentsHas(cases[..|cases| - 1], id);
    }
  }

  predicate DistinctIds(cases: seq<CaseVersion>) {
    forall i, j :: 0 <= i < j < |cases| ==> cases[i].caseId != cases[j].caseId
  }

  predicate HasRelease(releases: seq<IssuedRelease>, releaseId: string) {
    exists i :: 0 <= i < |releases| && releases[i].releaseId == releaseId
  }

  /** The row of an id in the next release; `content` is `None` when the release drops the case. */
  function ProjectedRow(prior: Option<CaseRow>, content: Option<Digest>, releaseId: string): CaseRow
    requires prior.Some? || content.Some?
  {
    match prior
    case None => CaseRow(Active, releaseId, content.value, content.value, None)
    case Some(row) =>
      if row.state.Retired? then row
      else if content.None? then row.(state := Retired, retiredRelease := Some(releaseId))
      else row.(currentContent := content.value, retiredRelease := None)
  }

  function Get<K, V>(m: map<K, V>, k: K): Option<V> { if k in m then Some(m[k]) else None }

  function ProjectedRows(rows: map<string, CaseRow>, current: map<string, Digest>, releaseId: string)
      : map<string, CaseRow> {
    map id | id in rows.Keys + current.Keys :: ProjectedRow(Get(rows, id), Get(current, id), releaseId)
  }

  predicate Reactivates(rows: map<string, CaseRow>, cases: seq<CaseVersion>) {
    exists i :: 0 <= i < |cases| && cases[i].caseId in rows && rows[cases[i].caseId].state.Retired?
  }

  predicate Projectable(db: Database, cases: seq<CaseVersion>, releaseId: string) {
    && ValidRelease(releaseId) && !HasRelease(db.releases, releaseId)
    && DistinctIds(cases) && !Reactivates(db.rows, cases)
  }

  // ----- what a projection lists -----

  /** The record of a case of the release: active, with the case's own content. */
  predicate CarriesCase(prior: map<string, CaseRow>, c: CaseVersion, releaseId: string, record: IssuedCaseRecord) {
    && record.caseId == c.caseId && record.row.state.Active? && record.row.retiredRelease.None?
    && record.row.currentContent == c.content
    && if c.caseId in prior then
         record.row.firstRelease == prior[c.caseId].firstRelease
         && record.row.firstContent == prior[c.caseId].firstContent
       else record.row.firstRelease == releaseId && record.row.firstContent == c.content
  }

  /** The record of an issued id that no case of the release has: retired, now or before. */
  predicate CarriesDropped(prior: map<string, CaseRow>, id: string, releaseId: string, record: IssuedCaseRecord)
    requires id in prior
  {
    && record.caseId == id
    && if prior[id].state.Retired? then record.row == prior[id]
       else record.row == prior[id].(state := Retired, retiredRelease := Some(releaseId))
  }

  predicate ListsCase(prior: map<string, CaseRow>, c: CaseVersion, releaseId: string,
                      records: seq<IssuedCaseRecord>) {
    exists j :: 0 <= j < |records| && CarriesCase(prior, c, releaseId, records[j])
  }

  predicate ListsDropped(prior: map<string, CaseRow>, id: string, releaseId: string, records: seq<IssuedCaseRecord>)
    requires id in prior
  {
    exists j :: 0 <= j < |records| && CarriesDropped(prior, id, releaseId, records[j])
  }

  predicate HasCase(cases: seq<CaseVersion>, id: string) {
    exists i :: 0 <= i < |cases| && cases[i].caseId == id
  }

  /** One record for every case and for every issued id, no other, in the order of the ids. */
  predicate ListsCases(prior: map<string, CaseRow>, cases: seq<CaseVersion>, releaseId: string,
                       records: seq<IssuedCaseRecord>) {
    && (forall i, j :: 0 <= i < j < |records| ==> Less(records[i].caseId, records[j].caseId))
    && (forall j :: 0 <= j < |records| ==> records[j].caseId in prior || HasCase(cases, records[j].caseId))
    && (forall i :: 0 <= i < |cases| ==> ListsCase(prior, cases[i], releaseId, records))
    && forall id :: id in prior && !HasCase(cases, id) ==> ListsDropped(prior, id, releaseId, records)
  }

  /** What a projection lists, in terms of the cases and the issued rows alone. */
  lemma {:induction false} ProjectionListsCases(prior: map<string, CaseRow>, cases: seq<CaseVersion>, releaseId: string)
    requires DistinctIds(cases) && !Reactivates(prior, cases)
    requires forall id :: id in prior ==> (prior[id].state.Active? <==> prior[id].retiredRelease.None?)
    ensures ListsCases(prior, cases, releaseId, Listing(ProjectedRows(prior, Contents(cases), releaseId)))
  {
    var next := ProjectedRows(prior, Contents(cases), releaseId);
    ListingSorted(next);
    ListedKnown(next);
    forall i | 0 <= i < |cases| ensures ListsCase(prior, cases[i], releaseId, Listing(next)) {
      CaseListed(prior, cases, releaseId, i);
    }
    forall id | id in prior && !HasCase(cases, id) ensures ListsDropped(prior, id, releaseId, Listing(next)) {
      DroppedListed(prior, cases, releaseId, id);
    }
  }

  lemma {:induction false} CaseListed(prior: map<string, CaseRow>, cases: seq<CaseVersion>, releaseId: string, i: nat)
    requires DistinctIds(cases) && !Reactivates(prior, cases) && i < |cases|
    requires forall id :: id in prior ==> (prior[id].state.Active? <==> prior[id].retiredRelease.None?)
    ensures ListsCase(prior, cases[i], releaseId, Listing(ProjectedRows(prior, Contents(cases), releaseId)))
  {
    ContentsAt(cases, i);
    var j := ListingHas(ProjectedRows(prior, Contents(cases), releaseId), cases[i].caseId);
  }

  lemma {:induction false} DroppedListed(prior: map<string, CaseRow>, cases: seq<CaseVersion>, releaseId: string,
                                         id: string)
    requires id in prior && !HasCase(cases, id)
    ensures ListsDropped(prior, id, releaseId, Listing(ProjectedRows(prior, Contents(cases), releaseId)))
  {
    var j := ListingHas(ProjectedRows(prior, Contents(cases), releaseId), id);
  }

  /** That leaves one list of records. */
  lemma ListsCasesUnique(prior: map<string, CaseRow>, cases: seq<CaseVersion>, releaseId: string,
                         a: seq<IssuedCaseRecord>, b: seq<IssuedCaseRecord>)
    requires ListsCases(prior, cases, releaseId, a) && ListsCases(prior, cases, releaseId, b)
    ensures a == b
  {
    SameListedIds(prior, cases, releaseId, a, b);
    assert |a| == |Ids(a)| == |Ids(b)| == |b|;
    forall j | 0 <= j < |a| ensures a[j] == b[j] {
      assert Ids(a)[j] == Ids(b)[j];
      SameListedRecord(prior, cases, releaseId, a, b, j);
    }
  }

  function Ids(records: seq<IssuedCaseRecord>): seq<string> {
    seq(|records|, i requires 0 <= i < |records| => records[i].caseId)
  }

  lemma ListedIds(prior: map<string, CaseRow>, cases: seq<CaseVersion>, releaseId: string,
                  records: seq<IssuedCaseRecord>, id: string)
    requires ListsCases(prior, cases, releaseId, records)
    ensures id in Ids(records) <==> id in prior || HasCase(cases, id)
  {
    if HasCase(cases, id) {
      var i :| 0 <= i < |cases| && cases[i].caseId == id;
      var j := CaseRecord(prior, cases, releaseId, records, i);
      assert Ids(records)[j] == id;
    } else if id in prior {
      var j := DroppedRecord(prior, cases, releaseId, records, id);
      assert Ids(records)[j] == id;
    }
  }

  lemma SameListedIds(prior: map<string, CaseRow>, cases: seq<CaseVersion>, releaseId: string,
                      a: seq<IssuedCaseRecord>, b: seq<IssuedCaseRecord>)
    requires ListsCases(prior, cases, releaseId, a) && ListsCases(prior, cases, releaseId, b)
    ensures Ids(a) == Ids(b)
  {
    forall id ensures id in Ids(a) <==> id in Ids(b) {
      ListedIds(prior, cases, releaseId, a, id);
      ListedIds(prior, cases, releaseId, b, id);
    }
    assert Elements(Ids(a)) == Elements(Ids(b));
    SortedUnique(Ids(a), Ids(b));
  }

  lemma SameListedRecord(prior: map<string, CaseRow>, cases: seq<CaseVersion>, releaseId: string,
                         a: seq<IssuedCaseRecord>, b: seq<IssuedCaseRecord>, j: nat)
    requires ListsCases(prior, cases, releaseId, a) && ListsCases(prior, cases, releaseId, b)
    requires j < |a| && j < |b| && a[j].caseId == b[j].caseId
    ensures a[j] == b[j]
  {
    var id := a[j].caseId;
    if HasCase(cases, id) {
      var i :| 0 <= i < |cases| && cases[i].caseId == id;
      var k := CaseRecord(prior, cases, releaseId, a, i);
      var l := CaseRecord(prior, cases, releaseId, b, i);
      SameIdSamePlace(a, j, k);
      SameIdSamePlace(b, j, l);
    } else {
      var k := DroppedRecord(prior, cases, releaseId, a, id);
      var l := DroppedRecord(prior, cases, releaseId, b, id);
      SameIdSamePlace(a, j, k);
      SameIdSamePlace(b, j, l);
    }
  }

  lemma CaseRecord(prior: map<string, CaseRow>, cases: seq<CaseVersion>, releaseId: string,
                   records: seq<IssuedCaseRecord>, i: nat) returns (j: int)
    requires ListsCases(prior, cases, releaseId, records) && i < |cases|
    ensures 0 <= j < |records| && CarriesCase(prior, cases[i], releaseId, records[j])
  {
    assert ListsCase(prior, cases[i], releaseId, records);
    j :| 0 <= j < |records| && CarriesCase(prior, cases[i], releaseId, records[j]);
  }

  lemma DroppedRecord(prior: map<string, CaseRow>, cases: seq<CaseVersion>, releaseId: string,
                      records: seq<IssuedCaseRecord>, id: string) returns (j: int)
    requires ListsCases(prior, cases, releaseId, records) && id in prior && !HasCase(cases, id)
    ensures 0 <= j < |records| && CarriesDropped(prior, id, releaseId, records[j])
  {
    assert ListsDropped(prior, id, releaseId, records);
    j :| 0 <= j < |records| && CarriesDropped(prior, id, releaseId, records[j]);
  }

  lemma SameIdSamePlace(records: seq<IssuedCaseRecord>, j: nat, k: nat)
    requires forall i, j :: 0 <= i < j < |records| ==> Less(records[i].caseId, records[j].caseId)
    requires j < |records| && k < |records| && records[j].caseId == records[k].caseId
    ensures j == k
  {
    LessIrreflexive(records[j].caseId);
  }

  // ----- commit -----

  function RecordRows(records: seq<IssuedCaseRecord>): (m: map<string, CaseRow>)
    ensures forall id :: id in m <==> exists i :: 0 <= i < |records| && records[i].caseId == id
  {
    if records == [] then map[]
    else
      var last := records[|records| - 1];
      RecordRows(records[..|records| - 1])[last.caseId := last.row]
  }

  predicate DistinctRecords(records: seq<IssuedCaseRecord>) {
    forall i, j :: 0 <= i < j < |records| ==> records[i].caseId != records[j].caseId
  }

  lemma {:induction false} RecordRowsAt(records: seq<IssuedCaseRecord>, i: nat)
    requires DistinctRecords(records) && i < |records|
    ensures RecordRows(records)[records[i].caseId] == records[i].row
  {
    if i < |records| - 1 {
      RecordRowsAt(records[..|records| - 1], i);
    }
  }

  /** The check a commit makes on one record against the stored rows. */
  predicate RecordAccepted(prior: map<string, CaseRow>, record: IssuedCaseRecord, releaseId: string) {
    record.caseId in prior ==>
      var previous := prior[record.caseId];
      if previous.state.Retired? then previous == record.row
      else
        && record.row.firstRelease == previous.firstRelease && record.row.firstContent == previous.firstContent
        && if record.row.state.Active? then record.row.retiredRelease.None?
           else record.row.currentContent == previous.currentContent && record.row.retiredRelease == Some(releaseId)
  }

  predicate RecordsAccepted(prior: map<string, CaseRow>, records: seq<IssuedCaseRecord>, releaseId: string) {
    && prior.Keys <= RecordRows(records).Keys
    && forall i :: 0 <= i < |records| ==> RecordAccepted(prior, records[i], releaseId)
  }

  function NextRelease(env: Env, head: IssuanceHead, releaseId: string, bundle: Digest,
                       projection: Digest): IssuedRelease {
    var message := ReleaseMessage(head.generation + 1, releaseId, head.bundle, bundle, projection, head.authority);
    IssuedRelease(head.generation + 1, releaseId, head.bundle, bundle, projection, head.authority, env.hash(message))
  }

  /** The UNIQUE columns and the primary key of `issued_releases`. */
  predicate Insertable(releases: seq<IssuedRelease>, r: IssuedRelease) {
    forall i :: 0 <= i < |releases| ==>
      releases[i].generation != r.generation && releases[i].releaseId != r.releaseId
      && releases[i].bundle != r.bundle && releases[i].authority != r.authority
  }

  function HeadOf(r: IssuedRelease): IssuanceHead {
    IssuanceHead(r.generation, Some(r.releaseId), Some(r.bundle), r.authority)
  }

  /** The database after a successful commit. */
  function Committed(env: Env, db: Database, rows: map<string, CaseRow>, releaseId: string, bundle: Digest): Database {
    var r := NextRelease(env, db.head, releaseId, bundle, ProjectionDigest(env, rows));
    Database(HeadOf(r), rows, db.releases + [r])
  }

  // ----- a commit of its own projection -----

  lemma ListingDistinct(rows: map<string, CaseRow>)
    ensures DistinctRecords(Listing(rows))
  {
    var s, ids := Listing(rows), Sorted(rows.Keys);
    forall i, j | 0 <= i < j < |s| ensures s[i].caseId != s[j].caseId {
      assert s[i].caseId == ids[i] && s[j].caseId == ids[j] && Less(ids[i], ids[j]);
      LessIrreflexive(ids[i]);
    }
  }

  lemma ListingSorted(rows: map<string, CaseRow>)
    ensures var s := Listing(rows); forall i, j :: 0 <= i < j < |s| ==> Less(s[i].caseId, s[j].caseId)
  {
    var s, ids := Listing(rows), Sorted(rows.Keys);
    forall i, j | 0 <= i < j < |s| ensures Less(s[i].caseId, s[j].caseId) {
      assert s[i].caseId == ids[i] && s[j].caseId == ids[j];
    }
  }

  lemma ListedKnown(rows: map<string, CaseRow>)
    ensures forall j :: 0 <= j < |Listing(rows)| ==> Listing(rows)[j].caseId in rows
  {
    forall j | 0 <= j < |Listing(rows)| ensures Listing(rows)[j].caseId in rows {
      assert Sorted(rows.Keys)[j] in Elements(Sorted(rows.Keys));
    }
  }

  lemma ListingHas(rows: map<string, CaseRow>, id: string) returns (i: nat)
    requires id in rows
    ensures i < |Listing(rows)| && Listing(rows)[i].caseId == id && Listing(rows)[i].row == rows[id]
  {
    var ids := Sorted(rows.Keys);
    assert id in Elements(ids);
    i :| 0 <= i < |ids| && ids[i] == id;
  }

  lemma ListedRow(rows: map<string, CaseRow>, id: string)
    requires id in rows
    ensures id in RecordRows(Listing(rows)) && RecordRows(Listing(rows))[id] == rows[id]
  {
    ListingDistinct(rows);
    var i := ListingHas(rows, id);
    RecordRowsAt(Listing(rows), i);
  }

  lemma ListedOnly(rows: map<string, CaseRow>, id: string)
    requires id in RecordRows(Listing(rows))
    ensures id in rows
  {
    var i :| 0 <= i < |Listing(rows)| && Listing(rows)[i].caseId == id;
    assert Sorted(rows.Keys)[i] in Elements(Sorted(rows.Keys));
  }

  lemma EqualRows(a: map<string, CaseRow>, b: map<string, CaseRow>)
    requires forall id :: id in a ==> id in b && b[id] == a[id]
    requires forall id :: id in b ==> id in a
    ensures b == a
  {
  }

  lemma ListedRows(rows: map<string, CaseRow>)
    ensures DistinctRecords(Listing(rows)) && RecordRows(Listing(rows)) == rows
  {
    var listed := RecordRows(Listing(rows));
    ListingDistinct(rows);
    forall id | id in rows ensures id in listed && listed[id] == rows[id] { ListedRow(rows, id); }
    forall id | id in listed ensures id in rows { ListedOnly(rows, id); }
    EqualRows(rows, listed);
  }

  /** A projection of the stored rows passes every row check of the commit. */
  lemma {:induction false} ProjectionAccepted(rows: map<string, CaseRow>, cases: seq<CaseVersion>, releaseId: string)
    requires forall id :: id in rows ==> (rows[id].state.Active? <==> rows[id].retiredRelease.None?)
    requires !Reactivates(rows, cases)
    ensures RecordsAccepted(rows, Listing(ProjectedRows(rows, Contents(cases), releaseId)), releaseId)
  {
    var next := ProjectedRows(rows, Contents(cases), releaseId);
    ListedRows(next);
    forall i | 0 <= i < |Listing(next)| ensures RecordAccepted(rows, Listing(next)[i], releaseId) {
      var record := Listing(next)[i];
      assert record.row == next[record.caseId];
    }
  }

  /** The commit of a projection succeeds exactly when its bundle digest was never issued. */
  lemma {:induction false} CommitSucceedsExactly(env: Env, db: Database, cases: seq<CaseVersion>, releaseId: string,
                                                 bundle: Digest)
    requires Chained(env, db.releases) && HeadMatches(env, db) && Projectable(db, cases, releaseId)
    requires var rows := ProjectedRows(db.rows, Contents(cases), releaseId);
             NoCollision(env, Messages(db) + Messages(Committed(env, db, rows, releaseId, bundle)))
    ensures var rows := ProjectedRows(db.rows, Contents(cases), releaseId);
            Insertable(db.releases, NextRelease(env, db.head, releaseId, bundle, ProjectionDigest(env, rows)))
            <==> forall i :: 0 <= i < |db.releases| ==> db.releases[i].bundle != bundle
  {
    var rows := ProjectedRows(db.rows, Contents(cases), releaseId);
    var next := Committed(env, db, rows, releaseId, bundle);
    var r := next.releases[|db.releases|];
    assert MessageOf(r) in Messages(next);
    forall i | 0 <= i < |db.releases| && db.releases[i].bundle != bundle
      ensures db.releases[i].generation != r.generation && db.releases[i].authority != r.authority
    {
      assert MessageOf(db.releases[i]) in Messages(db);
      LaterReleaseDiffers(env, db.releases, i, r, Messages(db) + Messages(next));
    }
  }

  /** A release of a later generation has another authority. */
  lemma LaterReleaseDiffers(env: Env, releases: seq<IssuedRelease>, i: nat, r: IssuedRelease, messages: set<Message>)
    requires Chained(env, releases) && i < |releases| && r.generation == |releases| + 1
    requires r.authority == env.hash(MessageOf(r)) && NoCollision(env, messages)
    requires MessageOf(r) in messages && MessageOf(releases[i]) in messages
    ensures releases[i].generation != r.generation && releases[i].authority != r.authority
  {
    assert Linked(env, releases, i);
  }

  predicate EachValid(env: Env, cases: seq<CaseVersion>) {
    forall i :: 0 <= i < |cases| ==> env.validCaseId(cases[i].caseId) && ValidSha(cases[i].content)
  }

  /** What storage takes as the cases of a batch. */
  predicate ValidCases(env: Env, cases: seq<CaseVersion>) { 1 <= |cases| <= MAX_RECORDS && EachValid(env, cases) }

  lemma {:induction false} ContentsValid(env: Env, cases: seq<CaseVersion>)
    requires EachValid(env, cases)
    ensures forall id :: id in Contents(cases) ==> env.validCaseId(id) && ValidSha(Contents(cases)[id])
  {
    if cases != [] {
      ContentsValid(env, cases[..|cases| - 1]);
      assert cases[|cases| - 1].caseId in Contents(cases);
    }
  }

  predicate WithinLimits(db: Database) { |db.rows| <= MAX_RECORDS && |db.releases| <= MAX_RECORDS }

  lemma ChainGrows(env: Env, releases: seq<IssuedRelease>, r: IssuedRelease)
    requires Chained(env, releases) && Insertable(releases, r)
    requires r.generation == |releases| + 1 && r.authority == env.hash(MessageOf(r))
    requires r.predecessorBundle == PriorBundle(releases, |releases|)
    requires r.predecessorAuthority == PriorAuthority(env, releases, |releases|)
    ensures Chained(env, releases + [r])
  {
    var grown := releases + [r];
    forall i | 0 <= i < |grown| ensures Linked(env, grown, i) {
      if i < |releases| { assert Linked(env, releases, i); }
    }
  }

  lemma {:induction false} ProjectedRowsValid(env: Env, rows: map<string, CaseRow>, cases: seq<CaseVersion>,
                                              releaseId: string)
    requires ValidCases(env, cases) && ValidRelease(releaseId)
    requires forall id :: id in rows ==> ValidRow(env, id, rows[id])
    ensures var next := ProjectedRows(rows, Contents(cases), releaseId);
            forall id :: id in next ==> ValidRow(env, id, next[id])
  {
    ContentsValid(env, cases);
  }

  /** After a commit the checker still accepts, exactly while both tables stay within the limit. */
  lemma {:induction false} CommitAcceptedExactly(env: Env, db: Database, cases: seq<CaseVersion>, releaseId: string,
                                                 bundle: Digest)
    requires env.Valid() && Accepted(env, db) && Projectable(db, cases, releaseId)
    requires ValidCases(env, cases) && ValidSha(bundle)
    requires var rows := ProjectedRows(db.rows, Contents(cases), releaseId);
             Insertable(db.releases, NextRelease(env, db.head, releaseId, bundle, ProjectionDigest(env, rows)))
    ensures var next := Committed(env, db, ProjectedRows(db.rows, Contents(cases), releaseId), releaseId, bundle);
            Accepted(env, next) <==> WithinLimits(next)
  {
    ProjectedRowsValid(env, db.rows, cases, releaseId);
    ValidRowsCommitExactly(env, db, ProjectedRows(db.rows, Contents(cases), releaseId), releaseId, bundle);
  }

  lemma ValidRowsCommitExactly(env: Env, db: Database, rows: map<string, CaseRow>, releaseId: string, bundle: Digest)
    requires env.Valid() && ValidHead(db.head) && ValidReleases(db.releases) && Chained(env, db.releases)
             && HeadMatches(env, db)
    requires forall id :: id in rows ==> ValidRow(env, id, rows[id])
    requires ValidRelease(releaseId) && ValidSha(bundle)
    requires Insertable(db.releases, NextRelease(env, db.head, releaseId, bundle, ProjectionDigest(env, rows)))
    ensures Accepted(env, Committed(env, db, rows, releaseId, bundle))
            <==> WithinLimits(Committed(env, db, rows, releaseId, bundle))
  {
    var next := Committed(env, db, rows, releaseId, bundle);
    var r := next.releases[|db.releases|];
    CommittedHeadValid(env, db, rows, releaseId, bundle);
    ChainGrows(env, db.releases, r);
    GrownAcceptedExactly(env, db.releases, r, next);
  }

  lemma GrownAcceptedExactly(env: Env, releases: seq<IssuedRelease>, r: IssuedRelease, next: Database)
    requires next.releases == releases + [r] && ValidReleases(releases) && ValidReleaseRow(r)
    requires forall id :: id in next.rows ==> ValidRow(env, id, next.rows[id])
    requires ValidHead(next.head) && Chained(env, next.releases) && HeadMatches(env, next)
    ensures Accepted(env, next) <==> WithinLimits(next)
  {
  }

  lemma CommittedHeadValid(env: Env, db: Database, rows: map<string, CaseRow>, releaseId: string, bundle: Digest)
    requires env.Valid() && HeadMatches(env, db) && ValidHead(db.head)
    requires ValidRelease(releaseId) && ValidSha(bundle)
    ensures var next := Committed(env, db, rows, releaseId, bundle);
            ValidHead(next.head) && ValidReleaseRow(next.releases[|db.releases|]) && HeadMatches(env, next)
  {
  }

  // ----- runs of leases -----

  /** One lease: what it projects, the bundle it publishes, and whether it gets as far as COMMIT. */
  datatype LeaseInput = LeaseInput(cases: seq<CaseVersion>, releaseId: string, bundle: Digest, commits: bool)

  predicate LeaseCommits(env: Env, db: Database, input: LeaseInput) {
    && input.commits && Accepted(env, db) && ValidCases(env, input.cases) && ValidSha(input.bundle)
    && Projectable(db, input.cases, input.releaseId)
    && Insertable(db.releases,
                  NextRelease(env, db.head, input.releaseId, input.bundle,
                              ProjectionDigest(env, ProjectedRows(db.rows, Contents(input.cases), input.releaseId))))
  }

  function LeaseOutcome(env: Env, db: Database, input: LeaseInput): Database {
    if LeaseCommits(env, db, input) then
      Committed(env, db, ProjectedRows(db.rows, Contents(input.cases), input.releaseId), input.releaseId, input.bundle)
    else db
  }

  /** The registry after any sequence of leases from genesis. */
  function Run(env: Env, inputs: seq<LeaseInput>): Database {
    if inputs == [] then Genesis(env)
    else LeaseOutcome(env, Run(env, inputs[..|inputs| - 1]), inputs[|inputs| - 1])
  }

  /** Every reachable registry is accepted, exactly while both tables stay within the limit. */
  lemma {:induction false} ReachableAcceptedExactly(env: Env, inputs: seq<LeaseInput>)
    requires env.Valid()
    ensures Accepted(env, Run(env, inputs)) <==> WithinLimits(Run(env, inputs))
  {
    if inputs != [] {
      var front, last := inputs[..|inputs| - 1], inputs[|inputs| - 1];
      ReachableAcceptedExactly(env, front);
      if LeaseCommits(env, Run(env, front), last) {
        CommitAcceptedExactly(env, Run(env, front), last.cases, last.releaseId, last.bundle);
      }
    }
  }

  lemma MoreKeysMoreRows<V>(a: map<string, V>, b: map<string, V>, extra: string)
    requires a.Keys <= b.Keys && extra in b && extra !in a
    ensures |a| < |b|
  {
    assert a.Keys < b.Keys && |a.Keys| == |a| && |b.Keys| == |b|;
    SubsetSize(a.Keys, b.Keys);
  }

  lemma SubsetSize(a: set<string>, b: set<string>)
    requires a < b
    ensures |a| < |b|
  {
    assert b == a + (b - a) && b - a != {};
    assert |b| == |a| + |b - a|;
  }

  /** Nothing stops the commit that puts one case too many into a full table; afterwards every
      lease is refused, whatever it asks for, and the registry never changes again. */
  lemma FullTableLocksRegistry(env: Env, db: Database, input: LeaseInput, later: LeaseInput)
    requires LeaseCommits(env, db, input) && |db.rows| == MAX_RECORDS
    requires exists i :: 0 <= i < |input.cases| && input.cases[i].caseId !in db.rows
    ensures var full := LeaseOutcome(env, db, input);
            full != db && !Accepted(env, full) && LeaseOutcome(env, full, later) == full
  {
    var i :| 0 <= i < |input.cases| && input.cases[i].caseId !in db.rows;
    var full := LeaseOutcome(env, db, input);
    assert input.cases[i].caseId in Contents(input.cases);
    MoreKeysMoreRows(db.rows, full.rows, input.cases[i].caseId);
  }

  // ----- the history of a case -----

  /** `b` keeps every release and every row of `a`: first fields stay, retired rows are frozen. */
  predicate Preserves(a: Database, b: Database) {
    && a.releases <= b.releases
    && forall id :: id in a.rows ==>
         && id in b.rows
         && b.rows[id].firstRelease == a.rows[id].firstRelease && b.rows[id].firstContent == a.rows[id].firstContent
         && (a.rows[id].state.Retired? ==> b.rows[id] == a.rows[id])
  }

  lemma OutcomePreserves(env: Env, db: Database, input: LeaseInput)
    ensures Preserves(db, LeaseOutcome(env, db, input))
  {
    CommitPreserves(env, db, Contents(input.cases), input.releaseId, input.bundle);
  }

  lemma CommitPreserves(env: Env, db: Database, current: map<string, Digest>, releaseId: string, bundle: Digest)
    ensures Preserves(db, Committed(env, db, ProjectedRows(db.rows, current, releaseId), releaseId, bundle))
  {
    var next := Committed(env, db, ProjectedRows(db.rows, current, releaseId), releaseId, bundle);
    assert next.releases[..|db.releases|] == db.releases;
    forall id | id in db.rows
      ensures id in next.rows && next.rows[id] == ProjectedRow(Some(db.rows[id]), Get(current, id), releaseId)
    {
    }
  }

  lemma PreservesTransitive(a: Database, b: Database, c: Database)
    requires Preserves(a, b) && Preserves(b, c)
    ensures Preserves(a, c)
  {
  }

  lemma {:induction false} HistoryPreserved(env: Env, inputs: seq<LeaseInput>, k: nat)
    requires k <= |inputs|
    ensures Preserves(Run(env, inputs[..k]), Run(env, inputs))
  {
    if k < |inputs| {
      var front := inputs[..|inputs| - 1];
      HistoryPreserved(env, front, k);
      assert front[..k] == inputs[..k];
      OutcomePreserves(env, Run(env, front), inputs[|inputs| - 1]);
      PreservesTransitive(Run(env, inputs[..k]), Run(env, front), Run(env, inputs));
    } else {
      assert inputs[..k] == inputs;
    }
  }

  /** Lease `k` of the run took `id` from an active row to the retired row `row`. */
  predicate RetiresAt(env: Env, inputs: seq<LeaseInput>, k: nat, id: string, row: CaseRow)
    requires k < |inputs|
  {
    var before, after := Run(env, inputs[..k]), Run(env, inputs[..k + 1]);
    && id in before.rows && before.rows[id].state.Active? && !HasCase(inputs[k].cases, id)
    && id in after.rows && after.rows[id] == row
    && row == before.rows[id].(state := Retired, retiredRelease := Some(inputs[k].releaseId))
    && after.head.releaseId == Some(inputs[k].releaseId)
  }

  /** Some case of the release has this id and this content. */
  predicate HasVersion(cases: seq<CaseVersion>, id: string, content: Digest) { CaseVersion(id, content) in cases }

  /** Lease `k` of the run issued `id` for the first time, with the content of its own case. */
  predicate IssuesAt(env: Env, inputs: seq<LeaseInput>, k: nat, id: string, row: CaseRow)
    requires k < |inputs|
  {
    var before, after := Run(env, inputs[..k]), Run(env, inputs[..k + 1]);
    && id !in before.rows && HasVersion(inputs[k].cases, id, row.firstContent)
    && row.firstRelease == inputs[k].releaseId && after.head.releaseId == Some(inputs[k].releaseId)
  }

  lemma PrefixSlices(front: seq<LeaseInput>, last: LeaseInput, k: nat)
    requires k < |front|
    ensures (front + [last])[..k] == front[..k] && (front + [last])[..k + 1] == front[..k + 1]
            && (front + [last])[k] == front[k]
  {
  }

  lemma IssuedEarlier(env: Env, front: seq<LeaseInput>, last: LeaseInput, k: nat, id: string, row: CaseRow,
                      later: CaseRow)
    requires k < |front| && IssuesAt(env, front, k, id, row)
    requires later.firstRelease == row.firstRelease && later.firstContent == row.firstContent
    ensures IssuesAt(env, front + [last], k, id, later)
  {
    PrefixSlices(front, last, k);
  }

  lemma RetiredEarlier(env: Env, front: seq<LeaseInput>, last: LeaseInput, k: nat, id: string, row: CaseRow)
    requires k < |front| && RetiresAt(env, front, k, id, row)
    ensures RetiresAt(env, front + [last], k, id, row)
  {
    PrefixSlices(front, last, k);
  }

  lemma {:induction false} RunSnoc(env: Env, front: seq<LeaseInput>, last: LeaseInput)
    ensures Run(env, front + [last]) == LeaseOutcome(env, Run(env, front), last)
    ensures (front + [last])[..|front|] == front && (front + [last])[..|front| + 1] == front + [last]
  {
    assert (front + [last])[..|front|] == front;
  }

  lemma {:induction false} IssuedByLast(env: Env, front: seq<LeaseInput>, last: LeaseInput, id: string)
    requires id in Run(env, front + [last]).rows && id !in Run(env, front).rows
    ensures IssuesAt(env, front + [last], |front|, id, Run(env, front + [last]).rows[id])
  {
    RunSnoc(env, front, last);
    ContentsHas(last.cases, id);
  }

  lemma {:induction false} RetiredByLast(env: Env, front: seq<LeaseInput>, last: LeaseInput, id: string)
    requires id in Run(env, front + [last]).rows && Run(env, front + [last]).rows[id].state.Retired?
    requires id in Run(env, front).rows ==> !Run(env, front).rows[id].state.Retired?
    ensures RetiresAt(env, front + [last], |front|, id, Run(env, front + [last]).rows[id])
  {
    RunSnoc(env, front, last);
  }

  /** Every row of a reachable registry names the lease that first issued it. */
  lemma {:induction false} EveryRowWasIssued(env: Env, inputs: seq<LeaseInput>, id: string)
    requires id in Run(env, inputs).rows
    ensures exists k :: 0 <= k < |inputs| && IssuesAt(env, inputs, k, id, Run(env, inputs).rows[id])
  {
    var front, last := inputs[..|inputs| - 1], inputs[|inputs| - 1];
    assert inputs == front + [last];
    if id in Run(env, front).rows {
      EveryRowWasIssued(env, front, id);
      var k :| 0 <= k < |front| && IssuesAt(env, front, k, id, Run(env, front).rows[id]);
      RunSnoc(env, front, last);
      OutcomePreserves(env, Run(env, front), last);
      IssuedEarlier(env, front, last, k, id, Run(env, front).rows[id], Run(env, inputs).rows[id]);
    } else {
      IssuedByLast(env, front, last, id);
    }
  }

  /** Every retired row of a reachable registry names the lease that dropped the case. */
  lemma {:induction false} EveryRetiredRowWasDropped(env: Env, inputs: seq<LeaseInput>, id: string)
    requires id in Run(env, inputs).rows && Run(env, inputs).rows[id].state.Retired?
    ensures exists k :: 0 <= k < |inputs| && RetiresAt(env, inputs, k, id, Run(env, inputs).rows[id])
  {
    var front, last := inputs[..|inputs| - 1], inputs[|inputs| - 1];
    assert inputs == front + [last];
    if id in Run(env, front).rows && Run(env, front).rows[id].state.Retired? {
      EveryRetiredRowWasDropped(env, front, id);
      var k :| 0 <= k < |front| && RetiresAt(env, front, k, id, Run(env, front).rows[id]);
      RunSnoc(env, front, last);
      OutcomePreserves(env, Run(env, front), last);
      RetiredEarlier(env, front, last, k, id, Run(env, front).rows[id]);
    } else {
      RetiredByLast(env, front, last, id);
    }
  }

  /** The active rows of `db` are exactly these cases, with their contents. */
  predicate ActiveCases(db: Database, cases: seq<CaseVersion>) {
    && (forall i :: 0 <= i < |cases| ==> cases[i].caseId in db.rows)
    && forall id :: id in db.rows ==>
         (db.rows[id].state.Active? <==> HasCase(cases, id))
         && (db.rows[id].state.Active? ==> HasVersion(cases, id, db.rows[id].currentContent))
  }

  /** Lease `k` commits, and nothing changes the registry after it. */
  predicate CommitsLast(env: Env, inputs: seq<LeaseInput>, k: nat)
    requires k < |inputs|
  {
    LeaseCommits(env, Run(env, inputs[..k]), inputs[k]) && Run(env, inputs) == Run(env, inputs[..k + 1])
  }

  lemma CommittedActiveCases(env: Env, db: Database, input: LeaseInput)
    requires LeaseCommits(env, db, input)
    ensures ActiveCases(LeaseOutcome(env, db, input), input.cases)
  {
    var next := LeaseOutcome(env, db, input);
    var current := Contents(input.cases);
    ActiveAreCurrent(db, input.cases, input.releaseId);
    forall i | 0 <= i < |input.cases| ensures input.cases[i].caseId in next.rows {
      assert input.cases[i].caseId in current;
    }
    forall id | id in next.rows
      ensures (next.rows[id].state.Active? <==> HasCase(input.cases, id))
              && (next.rows[id].state.Active? ==> HasVersion(input.cases, id, next.rows[id].currentContent))
    {
      assert id in ActiveIds(next.rows) <==> id in current;
      ContentsHas(input.cases, id);
    }
  }

  /** After any run the active cases are exactly those of the last lease that has committed. */
  lemma {:induction false} ActiveAreLastCases(env: Env, inputs: seq<LeaseInput>)
    requires Run(env, inputs).releases != []
    ensures exists k :: 0 <= k < |inputs| && CommitsLast(env, inputs, k)
                        && ActiveCases(Run(env, inputs), inputs[k].cases)
  {
    var front, last := inputs[..|inputs| - 1], inputs[|inputs| - 1];
    assert inputs == front + [last];
    RunSnoc(env, front, last);
    if LeaseCommits(env, Run(env, front), last) {
      CommittedActiveCases(env, Run(env, front), last);
      assert CommitsLast(env, inputs, |front|);
    } else {
      ActiveAreLastCases(env, front);
      var k :| 0 <= k < |front| && CommitsLast(env, front, k) && ActiveCases(Run(env, front), front[k].cases);
      PrefixSlices(front, last, k);
      assert CommitsLast(env, inputs, k);
    }
  }

  // ----- case deltas of an ingestion run -----

  function ActiveIds(rows: map<string, CaseRow>): set<string> {
    set id | id in rows && rows[id].state.Active?
  }

  datatype Deltas = Deltas(created: seq<string>, changed: seq<string>, deleted: seq<string>)

  /** `_run_deltas` in finalize.py. */
  function RunDeltas(current: map<string, Digest>, rows: map<string, CaseRow>): Deltas {
    Deltas(Sorted(current.Keys - rows.Keys),
           Sorted(set id | id in current.Keys * ActiveIds(rows) && current[id] != rows[id].currentContent),
           Sorted(ActiveIds(rows) - current.Keys))
  }

  /** The delta check of `_validated_batch`: sorted, no duplicates, and equal to the recomputed sets. */
  predicate DeltasMatch(d: Deltas, current: map<string, Digest>, rows: map<string, CaseRow>) {
    && StrictlySorted(d.created) && StrictlySorted(d.changed) && StrictlySorted(d.deleted)
    && Elements(d.created) == current.Keys - rows.Keys
    && Elements(d.deleted) == ActiveIds(rows) - current.Keys
    && Elements(d.changed) == set id | id in current.Keys * ActiveIds(rows) && current[id] != rows[id].currentContent
  }

  /** Storage under the lease takes exactly the deltas that finalization computes. */
  lemma DeltasMatchExactly(d: Deltas, current: map<string, Digest>, rows: map<string, CaseRow>)
    ensures DeltasMatch(d, current, rows) <==> d == RunDeltas(current, rows)
  {
    if DeltasMatch(d, current, rows) {
      var r := RunDeltas(current, rows);
      SortedUnique(d.created, r.created);
      SortedUnique(d.changed, r.changed);
      SortedUnique(d.deleted, r.deleted);
    }
  }

  /** What the deltas say is what the projection does to the active cases. */
  lemma {:induction false} DeltasDescribeProjection(db: Database, cases: seq<CaseVersion>, releaseId: string)
    requires Projectable(db, cases, releaseId)
    ensures var current := Contents(cases);
            var next := ProjectedRows(db.rows, current, releaseId);
            var d := RunDeltas(current, db.rows);
            && ActiveIds(next) == (ActiveIds(db.rows) + Elements(d.created)) - Elements(d.deleted) == current.Keys
            && Elements(d.changed) == set id | id in ActiveIds(db.rows) * ActiveIds(next)
                                               && next[id].currentContent != db.rows[id].currentContent
  {
    ActiveAreCurrent(db, cases, releaseId);
    ChangedAreNew(db, cases, releaseId);
  }

  /** Created are the cases that were never issued, deleted the active rows without a case, and changed the active
      rows whose case has other content. */
  predicate InDeltas(d: Deltas, cases: seq<CaseVersion>, rows: map<string, CaseRow>, id: string) {
    && (id in d.created <==> HasCase(cases, id) && id !in rows)
    && (id in d.deleted <==> id in rows && rows[id].state == Active && !HasCase(cases, id))
    && (id in d.changed <==>
          id in rows && rows[id].state == Active && HasCase(cases, id)
          && !HasVersion(cases, id, rows[id].currentContent))
  }

  lemma {:induction false} DeltasExactly(rows: map<string, CaseRow>, cases: seq<CaseVersion>, id: string)
    requires DistinctIds(cases)
    ensures InDeltas(RunDeltas(Contents(cases), rows), cases, rows, id)
  {
    var current := Contents(cases);
    var d := RunDeltas(current, rows);
    assert id in d.created <==> id in Elements(d.created);
    assert id in d.deleted <==> id in Elements(d.deleted);
    assert id in d.changed <==> id in Elements(d.changed);
    assert id in current <==> HasCase(cases, id);
    ContentsHas(cases, id);
    if i :| 0 <= i < |cases| && cases[i] == CaseVersion(id, if id in rows then rows[id].currentContent else "") {
      ContentsAt(cases, i);
    }
  }

  ghost predicate DeltasFollow(d: Deltas, cases: seq<CaseVersion>, rows: map<string, CaseRow>) {
    && StrictlySorted(d.created) && StrictlySorted(d.changed) && StrictlySorted(d.deleted)
    && forall id :: InDeltas(d, cases, rows, id)
  }

  /** Storage takes exactly the sorted deltas that follow from the cases and the rows. */
  lemma {:induction false} DeltasFollowExactly(d: Deltas, cases: seq<CaseVersion>, rows: map<string, CaseRow>)
    requires DistinctIds(cases)
    ensures DeltasMatch(d, Contents(cases), rows) <==> DeltasFollow(d, cases, rows)
  {
    var r := RunDeltas(Contents(cases), rows);
    DeltasMatchExactly(d, Contents(cases), rows);
    DeltasMatchExactly(r, Contents(cases), rows);
    forall id ensures InDeltas(r, cases, rows, id) { DeltasExactly(rows, cases, id); }
    if DeltasFollow(d, cases, rows) { SameDeltas(d, r, cases, rows); }
  }

  lemma SameDeltas(d: Deltas, r: Deltas, cases: seq<CaseVersion>, rows: map<string, CaseRow>)
    requires StrictlySorted(d.created) && StrictlySorted(d.changed) && StrictlySorted(d.deleted)
    requires StrictlySorted(r.created) && StrictlySorted(r.changed) && StrictlySorted(r.deleted)
    requires forall id :: InDeltas(d, cases, rows, id) && InDeltas(r, cases, rows, id)
    ensures d == r
  {
    forall id
      ensures (id in d.created <==> id in r.created) && (id in d.changed <==> id in r.changed)
              && (id in d.deleted <==> id in r.deleted)
    {
      assert InDeltas(d, cases, rows, id) && InDeltas(r, cases, rows, id);
    }
    SameMembers(d.created, r.created);
    SameMembers(d.changed, r.changed);
    SameMembers(d.deleted, r.deleted);
  }

  lemma SameMembers(a: seq<string>, b: seq<string>)
    requires StrictlySorted(a) && StrictlySorted(b) && forall id :: id in a <==> id in b
    ensures a == b
  {
    SortedUnique(a, b);
  }

  /** After a projection exactly the current cases are active, with their current contents. */
  lemma {:induction false} ActiveAreCurrent(db: Database, cases: seq<CaseVersion>, releaseId: string)
    requires Projectable(db, cases, releaseId)
    ensures var current := Contents(cases); var next := ProjectedRows(db.rows, current, releaseId);
            ActiveIds(next) == current.Keys && forall id :: id in current ==> next[id].currentContent == current[id]
  {
    var current := Contents(cases);
    var next := ProjectedRows(db.rows, current, releaseId);
    forall id | id in current ensures id in ActiveIds(next) && next[id].currentContent == current[id] {
      var i :| 0 <= i < |cases| && cases[i].caseId == id;
      assert !(id in db.rows && db.rows[id].state.Retired?);
    }
  }

  lemma {:induction false} ChangedAreNew(db: Database, cases: seq<CaseVersion>, releaseId: string)
    requires Projectable(db, cases, releaseId)
    ensures var current := Contents(cases); var next := ProjectedRows(db.rows, current, releaseId);
            Elements(RunDeltas(current, db.rows).changed)
            == set id | id in ActiveIds(db.rows) * ActiveIds(next)
                        && next[id].currentContent != db.rows[id].currentContent
  {
    ActiveAreCurrent(db, cases, releaseId);
  }
}
