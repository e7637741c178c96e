/** The lease on the registry (src/corpus/storage.py). */
module IssuanceLease {
  // Acquire, project, issue one receipt, bind it to a bundle on disk, commit, close.

  import opened Issuance
  import opened Registry
  import opened Strings
  import opened Wrappers

  /** The database file: what is committed, and whether a transaction holds the write lock. */
  class RegistryFile {
    var durable: Database
    var locked: bool

    constructor (env: Env)
      ensures durable == Genesis(env) && !locked
    {
      durable, locked := Genesis(env), false;
    }
  }

  // ----- bundles on disk -----

  const BUNDLE_ENTRIES: set<string> := {"canonical.sqlite3", "jsonl", "manifest.json"}

  /** A bundle directory; `manifest` is `None` when `manifest.json` is not one canonical payload. */
  datatype Directory = Directory(entries: set<string>, database: string, exports: map<string, string>,
                                 manifest: Option<Manifest>)

  /** The files of the directory hash to what its manifest says. */
  predicate CompleteBundle(env: Env, tables: set<string>, d: Directory) {
    && d.entries == BUNDLE_ENTRIES && d.exports.Keys == tables && d.manifest.Some?
    && d.manifest.value.database == env.hash(FileMessage(d.database))
    && d.manifest.value.exports == ExportDigests(env, d)
    && d.manifest.value.content == env.hash(ContentMessage(d.manifest.value.exports))
  }

  function ExportDigests(env: Env, d: Directory): map<string, Digest> {
    map name | name in d.exports :: env.hash(FileMessage(d.exports[name]))
  }

  function BundleDigest(env: Env, d: Directory): Digest
    requires d.manifest.Some?
  {
    env.hash(BundleMessage(d.manifest.value))
  }

  /** The messages that are hashed to check a bundle directory. */
  function BundleMessages(d: Directory): set<Message>
    requires d.manifest.Some?
  {
    {BundleMessage(d.manifest.value), ContentMessage(d.manifest.value.exports), FileMessage(d.database)}
    + set name | name in d.exports :: FileMessage(d.exports[name])
  }

  /** Two complete directories with one bundle digest hold the same files, unless hashed messages collide: the
      registry, which records the digest, determines every byte that was published. */
  lemma BundleDeterminesDirectory(env: Env, tables: set<string>, a: Directory, b: Directory)
    requires CompleteBundle(env, tables, a) && CompleteBundle(env, tables, b)
    requires BundleDigest(env, a) == BundleDigest(env, b)
    requires NoCollision(env, BundleMessages(a) + BundleMessages(b))
    ensures a == b && a.entries == {"canonical.sqlite3", "jsonl", "manifest.json"} && a.exports.Keys == tables
  {
    assert a.manifest == b.manifest;
    assert FileMessage(a.database) in BundleMessages(a) && FileMessage(b.database) in BundleMessages(b);
    forall name | name in tables ensures a.exports[name] == b.exports[name] { SameExport(env, a, b, name); }
    assert a.exports == b.exports;
  }

  lemma SameExport(env: Env, a: Directory, b: Directory, name: string)
    requires a.manifest.Some? && b.manifest.Some? && name in a.exports && name in b.exports
    requires ExportDigests(env, a) == ExportDigests(env, b) && NoCollision(env, BundleMessages(a) + BundleMessages(b))
    ensures a.exports[name] == b.exports[name]
  {
    assert FileMessage(a.exports[name]) in BundleMessages(a) && FileMessage(b.exports[name]) in BundleMessages(b);
    assert ExportDigests(env, a)[name] == ExportDigests(env, b)[name];
  }

  /** The content digest alone determines the exports. */
  lemma ContentDeterminesExports(env: Env, tables: set<string>, a: Directory, b: Directory)
    requires CompleteBundle(env, tables, a) && CompleteBundle(env, tables, b)
    requires a.manifest.value.content == b.manifest.value.content
    requires NoCollision(env, BundleMessages(a) + BundleMessages(b))
    ensures a.exports == b.exports
  {
    assert ContentMessage(a.manifest.value.exports) in BundleMessages(a);
    assert ContentMessage(b.manifest.value.exports) in BundleMessages(b);
    forall name | name in tables ensures a.exports[name] == b.exports[name] { SameExport(env, a, b, name); }
  }

  // ----- receipts -----

  /** A capability: commit and bind compare receipts by identity. */
  class StorageProjectionReceipt {
    const releaseId: string
    const predecessor: IssuanceHead
    const database: Digest
    const bundle: Digest
    const projection: Digest
    const records: seq<IssuedCaseRecord>
    const leaseToken: object

    constructor (releaseId: string, predecessor: IssuanceHead, database: Digest, bundle: Digest,
                 projection: Digest, records: seq<IssuedCaseRecord>, leaseToken: object)
      ensures this.releaseId == releaseId && this.predecessor == predecessor && this.database == database
      ensures this.bundle == bundle && this.projection == projection && this.records == records
      ensures this.leaseToken == leaseToken
    {
      this.releaseId, this.predecessor, this.database := releaseId, predecessor, database;
      this.bundle, this.projection, this.records, this.leaseToken := bundle, projection, records, leaseToken;
    }
  }

  predicate SortedRecords(records: seq<IssuedCaseRecord>) {
    forall i, j :: 0 <= i < j < |records| ==> Less(records[i].caseId, records[j].caseId)
  }

  lemma SortedRecordsDistinct(records: seq<IssuedCaseRecord>)
    requires SortedRecords(records)
    ensures DistinctRecords(records)
  {
    forall i, j | 0 <= i < j < |records| ensures records[i].caseId != records[j].caseId {
      LessIrreflexive(records[i].caseId);
    }
  }

  /** The manifest names the receipt's release, predecessor, database and projection. */
  predicate ManifestNames(m: Manifest, receipt: StorageProjectionReceipt) {
    && m.releaseId == receipt.releaseId && m.database == receipt.database
    && m.projection == receipt.projection && m.predecessorBundle == receipt.predecessor.bundle
  }

  function ReceiptRelease(env: Env, head: IssuanceHead, receipt: StorageProjectionReceipt): IssuedRelease {
    NextRelease(env, head, receipt.releaseId, receipt.bundle, receipt.projection)
  }

  /** The committed database when a receipt's records replace the rows. */
  function ReceiptCommitted(env: Env, db: Database, receipt: StorageProjectionReceipt): Database {
    var release := ReceiptRelease(env, db.head, receipt);
    Database(HeadOf(release), RecordRows(receipt.records), db.releases + [release])
  }

  // ----- single-row updates -----

  function UpdateCurrent(rows: map<string, CaseRow>, id: string, content: Digest): map<string, CaseRow> {
    if id in rows && rows[id].state.Active? then rows[id := rows[id].(currentContent := content)] else rows
  }

  function UpdateRetired(rows: map<string, CaseRow>, id: string, releaseId: string): map<string, CaseRow> {
    if id in rows && rows[id].state.Active? && rows[id].retiredRelease.None?
    then rows[id := rows[id].(state := Retired, retiredRelease := Some(releaseId))] else rows
  }

  /** No fewer contents than cases exactly when no id comes twice. */
  predicate Sized(cases: seq<CaseVersion>) {
    |Contents(cases)| <= |cases| && (|Contents(cases)| == |cases| <==> DistinctIds(cases))
  }

  lemma SizeGrows(front: seq<CaseVersion>, last: CaseVersion, cases: seq<CaseVersion>)
    requires Sized(front) && cases == front + [last]
    ensures Sized(cases)
  {
    DistinctIdsGrow(front, last);
    ContentsGrow(front, last);
  }

  lemma SizedNone(cases: seq<CaseVersion>)
    requires cases == []
    ensures Sized(cases)
  {
  }

  lemma {:induction false} ContentsSize(cases: seq<CaseVersion>)
    ensures Sized(cases)
  {
    if cases == [] {
      SizedNone(cases);
    } else {
      var front, last := cases[..|cases| - 1], cases[|cases| - 1];
      ContentsSize(front);
      SizeGrows(front, last, cases);
    }
  }

  lemma {:induction false} ContentsGrow(front: seq<CaseVersion>, last: CaseVersion)
    ensures |Contents(front + [last])| == |Contents(front)| + if last.caseId in Contents(front) then 0 else 1
  {
    assert (front + [last])[..|front|] == front;
    AddedKeySize(Contents(front), last.caseId, last.content);
  }

  lemma AddedKeySize(m: map<string, Digest>, id: string, content: Digest)
    ensures |m[id := content]| == |m| + if id in m then 0 else 1
  {
    assert m[id := content].Keys == m.Keys + {id};
    assert |m.Keys + {id}| == |m.Keys| + if id in m.Keys then 0 else 1;
  }

  lemma {:induction false} DistinctIdsGrow(front: seq<CaseVersion>, last: CaseVersion)
    ensures DistinctIds(front + [last]) <==> DistinctIds(front) && last.caseId !in Contents(front)
  {
    var cases := front + [last];
    assert cases[|front|] == last;
    if DistinctIds(cases) {
      assert forall i, j :: 0 <= i < j < |front| ==> cases[i] == front[i] && cases[j] == front[j];
      forall i | 0 <= i < |front|
        ensures front[i].caseId != last.caseId { assert cases[i] == front[i] && cases[|front|] == last; }
    }
  }

  // ----- the row loops of projection and commit -----

  lemma ListedAt(rows: map<string, CaseRow>, id: string)
    requires id in rows
    ensures exists j :: 0 <= j < |Listing(rows)| && Listing(rows)[j].caseId == id
  {
    assert id in Elements(Sorted(rows.Keys));
    var j :| 0 <= j < |Sorted(rows.Keys)| && Sorted(rows.Keys)[j] == id;
    assert Listing(rows)[j].caseId == id;
  }

  /** One row carried into the next release: kept, refreshed, or retired. */
  method CarryRow(prior: CaseRow, id: string, current: map<string, Digest>, releaseId: string) returns (row: CaseRow)
    ensures row == ProjectedRow(Some(prior), Get(current, id), releaseId)
  {
    row := prior;
    if row.state.Active? && id !in current {
      row := CaseRow(Retired, row.firstRelease, row.firstContent, row.currentContent, Some(releaseId));
    } else if row.state.Active? {
      row := CaseRow(row.state, row.firstRelease, row.firstContent, current[id], None);
    }
  }

  /** The prior rows carried into the next release. */
  method CarryRows(prior: map<string, CaseRow>, current: map<string, Digest>, releaseId: string)
      returns (next: map<string, CaseRow>)
    ensures next.Keys == prior.Keys
    ensures forall id :: id in prior ==> next[id] == ProjectedRow(Some(prior[id]), Get(current, id), releaseId)
  {
    var listed := Listing(prior);
    next := map[];
    for i := 0 to |listed|
      invariant forall id :: id in next ==>
                id in prior && next[id] == ProjectedRow(Some(prior[id]), Get(current, id), releaseId)
      invariant forall j :: 0 <= j < i ==> listed[j].caseId in next
    {
      var row := CarryRow(listed[i].row, listed[i].caseId, current, releaseId);
      next := next[listed[i].caseId := row];
    }
    forall id | id in prior ensures id in next { ListedAt(prior, id); }
  }

  /** The next row table, from the prior rows and the current cases. */
  method ProjectRows(prior: map<string, CaseRow>, cases: seq<CaseVersion>, releaseId: string)
      returns (next: map<string, CaseRow>)
    ensures next == ProjectedRows(prior, Contents(cases), releaseId)
    ensures Projects(prior, cases) ==> ListsCases(prior, cases, releaseId, Listing(next))
  {
    var current := Contents(cases);
    next := CarryRows(prior, current, releaseId);
    for i := 0 to |cases|
      invariant ProjectedPart(prior, current, releaseId, next)
      invariant prior.Keys <= next.Keys && forall j :: 0 <= j < i ==> cases[j].caseId in next
    {
      if cases[i].caseId !in prior {
        var content := current[cases[i].caseId];
        AddProjected(prior, current, releaseId, next, cases[i].caseId);
        next := next[cases[i].caseId := CaseRow(Active, releaseId, content, content, None)];
      }
    }
    ProjectedAll(prior, cases, releaseId, next);
    if Projects(prior, cases) { ProjectionListsCases(prior, cases, releaseId); }
  }

  /** Distinct cases, none of them retired before, on rows that say when they were retired. */
  predicate Projects(prior: map<string, CaseRow>, cases: seq<CaseVersion>) {
    && DistinctIds(cases) && !Reactivates(prior, cases)
    && forall id :: id in prior ==> (prior[id].state.Active? <==> prior[id].retiredRelease.None?)
  }

  lemma {:induction false} ProjectedAll(prior: map<string, CaseRow>, cases: seq<CaseVersion>, releaseId: string,
                                        next: map<string, CaseRow>)
    requires ProjectedPart(prior, Contents(cases), releaseId, next) && prior.Keys <= next.Keys
    requires forall j :: 0 <= j < |cases| ==> cases[j].caseId in next
    ensures next == ProjectedRows(prior, Contents(cases), releaseId)
  {
    assert next.Keys == prior.Keys + Contents(cases).Keys;
  }

  ghost predicate ProjectedPart(prior: map<string, CaseRow>, current: map<string, Digest>, releaseId: string,
                                next: map<string, CaseRow>) {
    forall id :: id in next ==>
      id in prior.Keys + current.Keys && next[id] == ProjectedRow(Get(prior, id), Get(current, id), releaseId)
  }

  lemma AddProjected(prior: map<string, CaseRow>, current: map<string, Digest>, releaseId: string,
                     next: map<string, CaseRow>, id: string)
    requires ProjectedPart(prior, current, releaseId, next) && id !in prior && id in current
    ensures ProjectedPart(prior, current, releaseId,
                          next[id := CaseRow(Active, releaseId, current[id], current[id], None)])
  {
  }

  predicate StatesConsistent(rows: map<string, CaseRow>) {
    forall id :: id in rows ==> (rows[id].state.Active? <==> rows[id].retiredRelease.None?)
  }

  /** The INSERT and UPDATE of one checked record. */
  function WriteRecord(prior: map<string, CaseRow>, rows: map<string, CaseRow>, record: IssuedCaseRecord,
                       releaseId: string): map<string, CaseRow> {
    if record.caseId !in prior then rows[record.caseId := record.row]
    else if prior[record.caseId].state.Retired? then rows
    else if record.row.state.Active? then UpdateCurrent(rows, record.caseId, record.row.currentContent)
    else UpdateRetired(rows, record.caseId, releaseId)
  }

  /** One accepted record leaves its own row behind, and touches no other. */
  lemma WrittenRecord(prior: map<string, CaseRow>, rows: map<string, CaseRow>, record: IssuedCaseRecord,
                      releaseId: string)
    requires StatesConsistent(prior) && RecordAccepted(prior, record, releaseId)
    requires record.caseId in prior ==> record.caseId in rows && rows[record.caseId] == prior[record.caseId]
    ensures WriteRecord(prior, rows, record, releaseId) == rows[record.caseId := record.row]
  {
  }

  lemma OverlayGrows(prior: map<string, CaseRow>, rows: map<string, CaseRow>, records: seq<IssuedCaseRecord>, i: nat,
                     releaseId: string)
    requires i < |records| && DistinctRecords(records)
    requires StatesConsistent(prior) && RecordAccepted(prior, records[i], releaseId)
    requires rows == prior + RecordRows(records[..i])
    ensures WriteRecord(prior, rows, records[i], releaseId) == prior + RecordRows(records[..i + 1])
  {
    RecordRowsStep(records, i);
    OverlayWritten(prior, rows, RecordRows(records[..i]), records[i], releaseId);
  }

  lemma OverlayWritten(prior: map<string, CaseRow>, rows: map<string, CaseRow>, done: map<string, CaseRow>,
                       record: IssuedCaseRecord, releaseId: string)
    requires StatesConsistent(prior) && RecordAccepted(prior, record, releaseId)
    requires rows == prior + done && record.caseId !in done
    ensures WriteRecord(prior, rows, record, releaseId) == prior + done[record.caseId := record.row]
  {
    WrittenRecord(prior, rows, record, releaseId);
  }

  lemma RecordRowsStep(records: seq<IssuedCaseRecord>, i: nat)
    requires i < |records| && DistinctRecords(records)
    ensures records[i].caseId !in RecordRows(records[..i])
    ensures RecordRows(records[..i + 1]) == RecordRows(records[..i])[records[i].caseId := records[i].row]
  {
    assert records[..i + 1][..i] == records[..i];
  }

  /** Check and write the records one by one over the stored rows. */
  method WriteRecords(prior: map<string, CaseRow>, records: seq<IssuedCaseRecord>, releaseId: string)
      returns (ok: bool, rows: map<string, CaseRow>)
    requires DistinctRecords(records)
    ensures ok <==> RecordsAccepted(prior, records, releaseId)
    ensures ok && StatesConsistent(prior) ==> rows == RecordRows(records)
  {
    rows := prior;
    if !(prior.Keys <= RecordRows(records).Keys) { return false, rows; }
    NothingWritten(prior, records);
    for i := 0 to |records|
      invariant forall j :: 0 <= j < i ==> RecordAccepted(prior, records[j], releaseId)
      invariant Overlaid(prior, rows, records, i)
    {
      if !RecordAccepted(prior, records[i], releaseId) {
        RefusedRecord(prior, records, releaseId, i);
        return false, rows;
      }
      OverlaidStep(prior, rows, records, i, releaseId);
      rows := WriteRecord(prior, rows, records[i], releaseId);
    }
    AllWritten(prior, rows, records);
    return true, rows;
  }

  lemma RefusedRecord(prior: map<string, CaseRow>, records: seq<IssuedCaseRecord>, releaseId: string, i: nat)
    requires i < |records| && !RecordAccepted(prior, records[i], releaseId)
    ensures !RecordsAccepted(prior, records, releaseId)
  {
  }

  /** Over consistent rows, the first `i` records lie over the prior table. */
  predicate Overlaid(prior: map<string, CaseRow>, rows: map<string, CaseRow>, records: seq<IssuedCaseRecord>, i: nat)
    requires i <= |records|
  {
    StatesConsistent(prior) ==> rows == prior + RecordRows(records[..i])
  }

  lemma NothingWritten(prior: map<string, CaseRow>, records: seq<IssuedCaseRecord>)
    ensures Overlaid(prior, prior, records, 0)
  {
    assert prior + RecordRows(records[..0]) == prior;
  }

  lemma OverlaidStep(prior: map<string, CaseRow>, rows: map<string, CaseRow>, records: seq<IssuedCaseRecord>, i: nat,
                     releaseId: string)
    requires i < |records| && DistinctRecords(records) && RecordAccepted(prior, records[i], releaseId)
    requires Overlaid(prior, rows, records, i)
    ensures Overlaid(prior, WriteRecord(prior, rows, records[i], releaseId), records, i + 1)
  {
    if StatesConsistent(prior) { OverlayGrows(prior, rows, records, i, releaseId); }
  }

  lemma {:induction false} AllWritten(prior: map<string, CaseRow>, rows: map<string, CaseRow>,
                                      records: seq<IssuedCaseRecord>)
    requires Overlaid(prior, rows, records, |records|) && prior.Keys <= RecordRows(records).Keys
    ensures StatesConsistent(prior) ==> rows == RecordRows(records)
  {
    assert records[..|records|] == records;
    Covered(prior, RecordRows(records));
  }

  lemma Covered(prior: map<string, CaseRow>, done: map<string, CaseRow>)
    requires prior.Keys <= done.Keys
    ensures prior + done == done
  {
  }

  // ----- the lease -----

  class Lease {
    const env: Env
    const file: RegistryFile
    /** The transaction's own view of the database. */
    var working: Database
    var head: IssuanceHead
    var inTransaction: bool
    var closed: bool
    var committed: bool
    var receiptIssued: bool
    var issuedReceipt: StorageProjectionReceipt?
    var commitReceipt: StorageProjectionReceipt?
    /** A commit got as far as writing rows. */
    ghost var wrote: bool

    /** An open lease holds the lock on an accepted head, and has not touched the committed data. */
    ghost predicate Valid()
      reads this, file
    {
      && env.Valid()
      && (inTransaction ==> file.locked && !closed && !committed)
      && (!closed && !committed ==> inTransaction)
      && (!committed && !closed ==> Accepted(env, file.durable) && head == file.durable.head)
      && (inTransaction && !wrote ==> working == file.durable)
      && (issuedReceipt != null <==> receiptIssued)
      && (issuedReceipt != null ==> IssuedReceipt(issuedReceipt))
      && (commitReceipt != null ==> issuedReceipt != null && IssuedReceipt(commitReceipt)
                                    && commitReceipt.records == issuedReceipt.records
                                    && commitReceipt.releaseId == issuedReceipt.releaseId)
    }

    /** What every receipt of this lease says. */
    ghost predicate IssuedReceipt(r: StorageProjectionReceipt)
      reads this
    {
      && r.leaseToken == this && (!committed ==> r.predecessor == head)
      && ValidRelease(r.releaseId) && ValidSha(r.bundle) && ValidSha(r.database)
      && r.projection == env.hash(ProjectionMessage(r.records))
      && SortedRecords(r.records)
    }

    constructor (env: Env, file: RegistryFile)
      requires env.Valid() && file.locked && Accepted(env, file.durable)
      ensures Valid() && this.env == env && this.file == file
      ensures !closed && !committed && !receiptIssued && commitReceipt == null && !wrote
    {
      this.env, this.file := env, file;
      working, head := file.durable, file.durable.head;
      inTransaction, closed, committed, receiptIssued := true, false, false, false;
      issuedReceipt, commitReceipt, wrote := null, null, false;
    }

    /** Roll back whatever was not committed and give up the lock. */
    method Close()
      requires Valid()
      modifies this, file
      ensures Valid() && closed && file.durable == old(file.durable)
      ensures committed == old(committed) && head == old(head)
      ensures file.locked == (old(file.locked) && !old(inTransaction))
    {
      if closed { return; }
      if inTransaction {
        working := file.durable;
        file.locked := false;
        inTransaction := false;
      }
      closed := true;
    }

    /** The issued rows of the next release, as a sorted tuple. */
    method ProjectedRecords(cases: seq<CaseVersion>, releaseId: string) returns (r: Result<seq<IssuedCaseRecord>>)
      requires Valid()
      ensures !closed && !committed && !wrote ==>
                (r.Ok? <==> Projectable(file.durable, cases, releaseId))
                && (r.Ok? ==> r.value == Listing(ProjectedRows(file.durable.rows, Contents(cases), releaseId))
                              && ListsCases(file.durable.rows, cases, releaseId, r.value))
      ensures closed ==> r.Err?
    {
      if closed || !ValidRelease(releaseId) { return Err("issuance lease is invalid"); }
      var releases := IssuanceReleases(working.releases);
      if releases.Err? { return Err(releases.message); }
      if HasRelease(releases.value, releaseId) {
        return Err("issuance release is already present");
      }
      var listed := IssuanceRecords(env, working.rows);
      if listed.Err? { return Err(listed.message); }
      ContentsSize(cases);
      if |Contents(cases)| != |cases| || Reactivates(working.rows, cases) {
        return Err("retired case ID cannot be reactivated");
      }
      var next := ProjectRows(working.rows, cases, releaseId);
      if !committed && !wrote { ProjectionListsCases(working.rows, cases, releaseId); }
      return Ok(Listing(next));
    }

    /** The one receipt a lease may issue. */
    method IssueProjectionReceipt(releaseId: string, bundle: Digest, records: seq<IssuedCaseRecord>)
        returns (r: Result<StorageProjectionReceipt>)
      requires Valid()
      modifies this
      ensures Valid() && closed == old(closed) && committed == old(committed) && wrote == old(wrote)
      ensures inTransaction == old(inTransaction) && working == old(working) && head == old(head)
      ensures commitReceipt == old(commitReceipt)
      ensures r.Ok? <==> !old(closed) && !old(committed) && !old(receiptIssued) && ValidRelease(releaseId)
                         && ValidSha(bundle) && SortedRecords(records)
      ensures r.Ok? ==> receiptIssued && issuedReceipt == r.value && r.value.releaseId == releaseId
                        && r.value.records == records && r.value.database == bundle && r.value.predecessor == head
                        && r.value.projection == env.hash(ProjectionMessage(records))
      ensures r.Err? ==> receiptIssued == old(receiptIssued) && issuedReceipt == old(issuedReceipt)
    {
      if closed || committed || receiptIssued || !ValidRelease(releaseId) || !ValidSha(bundle)
         || !SortedRecords(records)
      {
        return Err("issuance projection receipt is invalid");
      }
      var receipt := new StorageProjectionReceipt(releaseId, head, bundle, bundle,
                                                  env.hash(ProjectionMessage(records)), records, this);
      receiptIssued := true;
      issuedReceipt := receipt;
      return Ok(receipt);
    }

    /** Re-hash the directory at `path` and bind the receipt to its bundle digest. */
    method BindPublishedBundle(receipt: StorageProjectionReceipt, tables: set<string>, disk: map<string, Directory>,
                               path: string)
        returns (r: Result<StorageProjectionReceipt>)
      requires Valid()
      modifies this
      ensures Valid() && closed == old(closed) && committed == old(committed) && wrote == old(wrote)
      ensures inTransaction == old(inTransaction) && working == old(working) && head == old(head)
      ensures issuedReceipt == old(issuedReceipt) && receiptIssued == old(receiptIssued)
      ensures r.Ok? <==> !old(closed) && !old(committed) && receipt == old(issuedReceipt) && old(commitReceipt) == null
                         && path in disk && CompleteBundle(env, tables, disk[path])
                         && ManifestNames(disk[path].manifest.value, receipt)
      ensures r.Ok? ==>
                && path in disk && disk[path].manifest.Some?
                && var m := disk[path].manifest.value;
                   && m.releaseId == receipt.releaseId && m.predecessorBundle == receipt.predecessor.bundle
                   && m.database == receipt.database && m.projection == receipt.projection
                   && receipt.database == env.hash(FileMessage(disk[path].database))
                   && r.value.bundle == env.hash(BundleMessage(m))
      ensures r.Ok? ==> commitReceipt == r.value && r.value.bundle == BundleDigest(env, disk[path])
                        && r.value.records == receipt.records && r.value.releaseId == receipt.releaseId
      ensures r.Err? ==> commitReceipt == old(commitReceipt)
    {
      if closed || committed || receipt != issuedReceipt || commitReceipt != null
         || !ValidSha(receipt.database) || receipt.projection != env.hash(ProjectionMessage(receipt.records))
      {
        return Err("published bundle receipt is invalid");
      }
      if path !in disk { return Err("published bundle receipt is invalid"); }
      var d := disk[path];
      if d.entries != BUNDLE_ENTRIES || d.exports.Keys != tables || d.manifest.None? {
        return Err("published bundle receipt is invalid");
      }
      var database := env.hash(FileMessage(d.database));
      var actual := ExportDigests(env, d);
      var payload := d.manifest.value;
      if payload.releaseId != receipt.releaseId || payload.database != receipt.database || payload.database != database
         || payload.projection != receipt.projection || payload.predecessorBundle != receipt.predecessor.bundle
         || payload.exports != actual || payload.content != env.hash(ContentMessage(payload.exports))
      {
        return Err("published bundle receipt is invalid");
      }
      var bound := new StorageProjectionReceipt(receipt.releaseId, receipt.predecessor, receipt.database,
                                                BundleDigest(env, d), receipt.projection, receipt.records,
                                                receipt.leaseToken);
      commitReceipt := bound;
      return Ok(bound);
    }

    /** Write the rows, append the release, move the head, and COMMIT. `commits` says whether the
        database engine manages the COMMIT itself. */
    method CommitPublishedBundle(receipt: StorageProjectionReceipt, commits: bool) returns (r: Result<IssuanceHead>)
      requires Valid()
      modifies this, file
      ensures Valid() && closed == old(closed) && issuedReceipt == old(issuedReceipt)
      ensures r.Err? ==> file.durable == old(file.durable) && file.locked == old(file.locked) && head == old(head)
                         && committed == old(committed) && inTransaction == old(inTransaction)
      ensures r.Ok? ==> committed && !file.locked && head == file.durable.head && r.value == head && !inTransaction
      ensures r.Ok? ==> !old(closed) && !old(committed) && receipt == old(commitReceipt)
      ensures !old(closed) && !old(committed) && !old(wrote) ==>
                (r.Ok? <==> commits && receipt == old(commitReceipt)
                            && RecordsAccepted(old(file.durable).rows, receipt.records, receipt.releaseId)
                            && Insertable(old(file.durable).releases, ReceiptRelease(env, old(head), receipt)))
                && (r.Ok? ==> file.durable == ReceiptCommitted(env, old(file.durable), receipt))
    {
      if closed || committed || receipt != commitReceipt || receipt.leaseToken != this
         || receipt.predecessor != head || !ValidRelease(receipt.releaseId) || !ValidSha(receipt.bundle)
         || !ValidSha(receipt.database) || receipt.projection != env.hash(ProjectionMessage(receipt.records))
      {
        return Err("issuance lease commit is invalid");
      }
      r := WriteRelease(receipt);
      if r.Err? { return; }
      if !commits { return Err("database engine failed"); }
      CommitTransaction();
    }

    /** The COMMIT itself: what was written becomes durable, and the lock is free. */
    method CommitTransaction()
      requires Valid() && !closed && !committed && wrote
      modifies this`inTransaction, this`committed, this`head, file
      ensures Valid() && committed && !inTransaction && !file.locked
      ensures file.durable == working && head == working.head
    {
      file.durable := working;
      file.locked := false;
      inTransaction := false;
      committed := true;
      head := working.head;
    }

    /** The statements of a commit: the rows, the release and the head, all in the transaction's own view. */
    method WriteRelease(receipt: StorageProjectionReceipt) returns (r: Result<IssuanceHead>)
      requires Valid() && SortedRecords(receipt.records)
      modifies this`working, this`wrote
      ensures Valid() && wrote
      ensures r.Ok? <==> RecordsAccepted(old(working).rows, receipt.records, receipt.releaseId)
                         && Insertable(old(working).releases, ReceiptRelease(env, head, receipt))
      ensures r.Ok? ==> r.value == working.head
      ensures r.Ok? && StatesConsistent(old(working).rows) && old(working).head == head ==>
                working == ReceiptCommitted(env, old(working), receipt)
    {
      SortedRecordsDistinct(receipt.records);
      wrote := true;
      var accepted, rows := WriteRecords(working.rows, receipt.records, receipt.releaseId);
      working := working.(rows := rows);
      if !accepted { return Err("issuance projection is invalid"); }
      var release := NextRelease(env, head, receipt.releaseId, receipt.bundle, receipt.projection);
      if !Insertable(working.releases, release) { return Err("UNIQUE constraint failed"); }
      working := Database(HeadOf(release), working.rows, working.releases + [release]);
      return Ok(working.head);
    }
  }

  /** What the caller expects to find, against the persistent head. */
  predicate HeadExpected(head: IssuanceHead, generation: int, authority: Digest, bundle: Option<Digest>) {
    head.generation == generation && head.authority == authority && head.bundle == bundle
  }

  /** Take the write lock, check the whole registry, and compare its head. */
  method AcquireIssuanceLease(env: Env, file: RegistryFile, generation: int, authority: Digest, bundle: Option<Digest>)
      returns (r: Result<Lease>)
    requires env.Valid()
    modifies file
    ensures file.durable == old(file.durable)
    ensures r.Ok? <==> !old(file.locked) && Accepted(env, file.durable)
                       && HeadExpected(file.durable.head, generation, authority, bundle)
    ensures r.Ok? ==> file.durable.head.generation == generation && file.durable.head.authority == authority
                      && file.durable.head.bundle == bundle
    ensures r.Ok? ==> file.locked && fresh(r.value) && r.value.Valid() && r.value.env == env && r.value.file == file
                      && !r.value.closed && !r.value.committed && !r.value.receiptIssued
                      && r.value.commitReceipt == null && !r.value.wrote
    ensures r.Err? ==> file.locked == old(file.locked)
  {
    if file.locked { return Err("issuance predecessor does not match the persistent head"); }
    file.locked := true;
    var head := ReadHead(env, file.durable);
    if head.Err? || head.value.generation != generation || head.value.authority != authority
      || head.value.bundle != bundle {
      file.locked := false;
      return Err("issuance predecessor does not match the persistent head");
    }
    var lease := new Lease(env, file);
    return Ok(lease);
  }
}
