/** Building one bundle (src/corpus/build.py). */
module BuildBundle {
  // The code of a build: a temporary directory, the publishing rename, the bind that re-hashes what was
  // published, the commit, and the cleanup after a failure. Every method is proved to do exactly what
  // the functions of the stages say.

  import opened BuildStages
  import opened Issuance
  import opened IssuanceLease
  import opened Registry
  import opened Strings
  import opened Wrappers

  /** The output root: published bundles by name, and temporary directories. */
  class OutputRoot {
    var targets: map<string, Directory>
    var temporaries: map<string, Directory>

    constructor ()
      ensures targets == map[] && temporaries == map[]
    {
      targets, temporaries := map[], map[];
    }
  }

  function DiskOf(file: RegistryFile, root: OutputRoot): Disk
    reads file, root
  {
    Disk(file.durable, file.locked, root.targets, root.temporaries)
  }

  function Persistent(file: RegistryFile, root: OutputRoot): Snapshot
    reads file, root
  {
    Snapshot(file.durable, root.targets)
  }

  // ----- storage -----

  /** `write_canonical_storage`: validate the batch against the issued rows, project, issue a receipt. */
  method WriteStorage(lease: Lease, batch: Batch) returns (r: Result<StorageProjectionReceipt>)
    requires lease.Valid() && OpenLease(lease) && !lease.receiptIssued
    modifies lease
    ensures lease.Valid() && OpenLease(lease) && lease.head == old(lease.head)
    ensures r.Ok? <==> StorageAccepts(lease.env, batch, lease.file.durable)
    ensures r.Ok? ==> OwnReceipt(lease, batch, r.value)
    ensures r.Ok? ==>
              1 <= |batch.cases| <= 100000
              && forall i :: 0 <= i < |batch.cases| ==>
                   lease.env.validCaseId(batch.cases[i].caseId) && Hex64(batch.cases[i].content)
  {
    if !ValidCases(lease.env, batch.cases) || !DeltasMatch(batch.deltas, Contents(batch.cases), lease.working.rows) {
      return Err("ingestion run case delta is invalid");
    }
    forall i | 0 <= i < |batch.cases| ensures Hex64(batch.cases[i].content) { GoodDigest(batch.cases[i].content); }
    var records := lease.ProjectedRecords(batch.cases, batch.releaseId);
    if records.Err? { return Err(records.message); }
    ListingSorted(ProjectedRows(lease.working.rows, Contents(batch.cases), batch.releaseId));
    r := lease.IssueProjectionReceipt(batch.releaseId, lease.env.hash(FileMessage(batch.database)), records.value);
  }

  lemma ListingSorted(rows: map<string, CaseRow>)
    ensures SortedRecords(Listing(rows))
  {
    var s := Listing(rows);
    forall i, j | 0 <= i < j < |s| ensures Less(s[i].caseId, s[j].caseId) {
      assert s[i].caseId == Sorted(rows.Keys)[i] && s[j].caseId == Sorted(rows.Keys)[j];
    }
  }

  ghost predicate OpenLease(lease: Lease)
    reads lease
  {
    !lease.closed && !lease.committed && !lease.wrote && lease.commitReceipt == null && lease.inTransaction
  }

  /** The receipt of the lease for the projection of this batch. */
  ghost predicate OwnReceipt(lease: Lease, batch: Batch, receipt: StorageProjectionReceipt)
    reads lease, lease.file
  {
    && lease.issuedReceipt == receipt && receipt.releaseId == batch.releaseId
    && receipt.database == lease.env.hash(FileMessage(batch.database))
    && receipt.records == Listing(ProjectedRows(lease.file.durable.rows, Contents(batch.cases), batch.releaseId))
  }

  ghost predicate Stored(lease: Lease, batch: Batch, receipt: StorageProjectionReceipt)
    reads lease, lease.file
  {
    OwnReceipt(lease, batch, receipt) && StorageAccepts(lease.env, batch, lease.file.durable)
  }

  // ----- the temporary directory -----

  /** The manifest payload that the builder renders from the receipt. */
  function ReceiptManifest(env: Env, batch: Batch, head: IssuanceHead, receipt: StorageProjectionReceipt): Manifest {
    var exports := ExportDigests(env, Directory({}, "", batch.exports, None));
    Manifest(env.hash(ContentMessage(exports)), receipt.database, exports, head.bundle, receipt.projection,
             batch.releaseId)
  }

  lemma ReceiptManifestMatches(lease: Lease, batch: Batch, receipt: StorageProjectionReceipt)
    requires lease.Valid() && OpenLease(lease) && OwnReceipt(lease, batch, receipt)
    ensures Some(ReceiptManifest(lease.env, batch, lease.head, receipt))
            == BundleDirectory(lease.env, batch, lease.file.durable).manifest
  {
  }

  /** What the writing of exports and manifest leaves in the temporary directory. */
  function Rendered(job: Job, manifest: Manifest): Directory {
    if job.plan(Exporting) != Fine then Directory({"canonical.sqlite3"}, job.batch.database, map[], None)
    else if job.plan(WritingManifest) != Fine then
      Directory({"canonical.sqlite3", "jsonl"}, job.batch.database, job.batch.exports, None)
    else Directory(BUNDLE_ENTRIES, job.batch.database, job.batch.exports, Some(manifest))
  }

  /** The database, the exports and the manifest, written into the temporary directory. */
  method RenderBundle(root: OutputRoot, job: Job, manifest: Manifest) returns (fault: Fault)
    modifies root`temporaries
    ensures fault == if job.plan(Exporting) != Fine then job.plan(Exporting) else job.plan(WritingManifest)
    ensures root.temporaries == old(root.temporaries)[job.temporary := Rendered(job, manifest)]
  {
    var d := Directory({"canonical.sqlite3"}, job.batch.database, map[], None);
    root.temporaries := root.temporaries[job.temporary := d];
    if job.plan(Exporting) != Fine { return job.plan(Exporting); }
    d := Directory({"canonical.sqlite3", "jsonl"}, job.batch.database, job.batch.exports, None);
    root.temporaries := root.temporaries[job.temporary := d];
    if job.plan(WritingManifest) != Fine { return job.plan(WritingManifest); }
    d := Directory(BUNDLE_ENTRIES, job.batch.database, job.batch.exports, Some(manifest));
    root.temporaries := root.temporaries[job.temporary := d];
    return Fine;
  }

  lemma RenderedIsPartial(job: Job, bundle: Directory, f: Stage -> Fault, manifest: Manifest)
    requires OutsideFaults(job, f) && f(Storing) == Fine
    requires bundle == Directory(BUNDLE_ENTRIES, job.batch.database, job.batch.exports, Some(manifest))
    ensures Rendered(job, manifest) == PartialDirectory(job, bundle, StopRendering(f).GetOr(Renaming))
  {
  }

  /** Storage as a stage of the build. */
  method StoreBatch(lease: Lease, job: Job, ghost f: Stage -> Fault)
      returns (fault: Fault, receipt: StorageProjectionReceipt?)
    requires lease.Valid() && OpenLease(lease) && !lease.receiptIssued
    requires StoringFault(lease.env, lease.file.durable, job, f)
    modifies lease
    ensures lease.Valid() && OpenLease(lease) && fault == f(Storing)
    ensures fault == Fine ==> receipt != null && Stored(lease, job.batch, receipt)
  {
    if job.plan(Storing) != Fine { return job.plan(Storing), null; }
    var stored := WriteStorage(lease, job.batch);
    if stored.Err? { return Handled, null; }
    return Fine, stored.value;
  }

  /** Rendering the receipt of an open lease into the temporary directory. */
  method RenderReceipt(root: OutputRoot, lease: Lease, job: Job, receipt: StorageProjectionReceipt,
                       ghost disk: Disk, ghost bundle: Directory, ghost f: Stage -> Fault) returns (fault: Fault)
    requires lease.Valid() && OpenLease(lease) && OwnReceipt(lease, job.batch, receipt)
    requires bundle == BundleDirectory(lease.env, job.batch, lease.file.durable)
    requires OutsideFaults(job, f) && f(Storing) == Fine
    requires root.temporaries == disk.temporaries[job.temporary := EMPTY_DIRECTORY]
    modifies root`temporaries
    ensures fault == EndFault(f, StopRendering(f)) && StopRendering(f).Some? == (fault != Fine)
    ensures root.temporaries == LeftTemporaries(disk, job, bundle, StopRendering(f).GetOr(Renaming))
  {
    var manifest := ReceiptManifest(lease.env, job.batch, lease.head, receipt);
    ReceiptManifestMatches(lease, job.batch, receipt);
    RenderedIsPartial(job, bundle, f, manifest);
    fault := RenderBundle(root, job, manifest);
    Overwritten(disk.temporaries, job.temporary, EMPTY_DIRECTORY, Rendered(job, manifest));
  }

  /** Storage and rendering, all inside the temporary directory; `f` is what interrupts them, and `disk`
      is where the build began. */
  method PrepareBundle(root: OutputRoot, lease: Lease, job: Job, ghost disk: Disk, ghost bundle: Directory,
                       ghost f: Stage -> Fault)
      returns (fault: Fault, receipt: StorageProjectionReceipt?)
    requires lease.Valid() && OpenLease(lease) && !lease.receiptIssued
    requires job.temporary !in disk.temporaries
             && root.temporaries == disk.temporaries[job.temporary := EMPTY_DIRECTORY]
    requires bundle == BundleDirectory(lease.env, job.batch, lease.file.durable) && OutsideFaults(job, f)
    requires StoringFault(lease.env, lease.file.durable, job, f)
    modifies root`temporaries, lease
    ensures lease.Valid() && OpenLease(lease) && fault == EndFault(f, StopRendering(f))
    ensures StopRendering(f).Some? == (fault != Fine)
    ensures root.temporaries == LeftTemporaries(disk, job, bundle, StopRendering(f).GetOr(Renaming))
    ensures fault == Fine ==> receipt != null && Stored(lease, job.batch, receipt)
  {
    StoringStops(disk, job, bundle, f);
    fault, receipt := StoreBatch(lease, job, f);
    if fault != Fine { return; }
    fault := RenderReceipt(root, lease, job, receipt, disk, bundle, f);
  }

  lemma StoringStops(disk: Disk, job: Job, bundle: Directory, f: Stage -> Fault)
    ensures f(Storing) != Fine ==> StopRendering(f) == Some(Storing)
    ensures LeftTemporaries(disk, job, bundle, Storing) == disk.temporaries[job.temporary := EMPTY_DIRECTORY]
  {
  }

  /** `os.rename` of the finished directory onto a name that is free. */
  method RenameDirectory(root: OutputRoot, temporary: string, target: string)
    requires temporary in root.temporaries && target !in root.targets
    modifies root
    ensures root.targets == old(root.targets)[target := old(root.temporaries)[temporary]]
    ensures root.temporaries == old(root.temporaries) - {temporary}
  {
    root.targets := root.targets[target := root.temporaries[temporary]];
    root.temporaries := root.temporaries - {temporary};
  }

  lemma WithoutTemporary(temporaries: map<string, Directory>, temporary: string, d: Directory)
    requires temporary !in temporaries
    ensures temporaries[temporary := d] - {temporary} == temporaries
  {
  }

  lemma Overwritten(temporaries: map<string, Directory>, temporary: string, d: Directory, e: Directory)
    ensures temporaries[temporary := d][temporary := e] == temporaries[temporary := e]
  {
  }

  /** The rename as a stage of the build. */
  method RenameBundle(root: OutputRoot, job: Job, ghost disk: Disk, ghost bundle: Directory) returns (fault: Fault)
    requires job.temporary !in disk.temporaries && root.temporaries == LeftTemporaries(disk, job, bundle, Renaming)
    requires root.targets == disk.targets && job.Target() !in disk.targets
    modifies root
    ensures fault == job.plan(Renaming)
    ensures fault != Fine ==>
              root.targets == disk.targets && root.temporaries == LeftTemporaries(disk, job, bundle, Renaming)
    ensures fault == Fine ==>
              root.targets == PublishedTargets(disk, job, bundle) && root.temporaries == disk.temporaries
  {
    if job.plan(Renaming) != Fine { return job.plan(Renaming); }
    WithoutTemporary(disk.temporaries, job.temporary, bundle);
    RenameDirectory(root, job.temporary, job.Target());
    return Fine;
  }

  // ----- bind and commit -----

  /** A receipt for its own projection commits exactly like the abstract lease. */
  lemma OwnProjectionCommits(env: Env, db: Database, batch: Batch, receipt: StorageProjectionReceipt)
    requires Accepted(env, db) && ValidCases(env, batch.cases) && Projectable(db, batch.cases, batch.releaseId)
    requires receipt.releaseId == batch.releaseId && ValidSha(receipt.bundle)
             && receipt.bundle == BundleInput(env, batch, db).bundle
    requires receipt.records == Listing(ProjectedRows(db.rows, Contents(batch.cases), batch.releaseId))
    requires receipt.projection == env.hash(ProjectionMessage(receipt.records))
    ensures RecordsAccepted(db.rows, receipt.records, receipt.releaseId)
    ensures LeaseCommits(env, db, BundleInput(env, batch, db))
            <==> Insertable(db.releases, ReceiptRelease(env, db.head, receipt))
    ensures LeaseCommits(env, db, BundleInput(env, batch, db)) ==>
              ReceiptCommitted(env, db, receipt) == LeaseOutcome(env, db, BundleInput(env, batch, db))
  {
    ProjectionAccepted(db.rows, batch.cases, batch.releaseId);
    ListedRows(ProjectedRows(db.rows, Contents(batch.cases), batch.releaseId));
  }

  /** The receipt is bound to the published bundle of this batch. */
  ghost predicate BoundReceipt(lease: Lease, batch: Batch, bound: StorageProjectionReceipt)
    reads lease, lease.file
  {
    && lease.commitReceipt == bound && bound.releaseId == batch.releaseId
    && bound.bundle == BundleInput(lease.env, batch, lease.file.durable).bundle
    && bound.records == Listing(ProjectedRows(lease.file.durable.rows, Contents(batch.cases), batch.releaseId))
  }

  ghost predicate UncommittedLease(lease: Lease)
    reads lease
  {
    !lease.closed && !lease.committed && !lease.wrote && lease.inTransaction
  }

  /** Binding its own published bundle never fails. */
  method BindBundle(tables: set<string>, root: OutputRoot, lease: Lease, job: Job, receipt: StorageProjectionReceipt)
      returns (bound: StorageProjectionReceipt)
    requires lease.Valid() && OpenLease(lease) && OwnReceipt(lease, job.batch, receipt)
             && job.batch.exports.Keys == tables
    requires job.Target() in root.targets
             && root.targets[job.Target()] == BundleDirectory(lease.env, job.batch, lease.file.durable)
    modifies lease
    ensures lease.Valid() && UncommittedLease(lease) && BoundReceipt(lease, job.batch, bound)
  {
    BundleDirectoryComplete(lease.env, tables, job.batch, lease.file.durable);
    var r := lease.BindPublishedBundle(receipt, tables, root.targets, job.Target());
    bound := r.value;
  }

  /** The COMMIT as a stage of the build. */
  method CommitBundle(lease: Lease, job: Job, bound: StorageProjectionReceipt, ghost f: Stage -> Fault)
      returns (fault: Fault, head: IssuanceHead)
    requires lease.Valid() && UncommittedLease(lease) && BoundReceipt(lease, job.batch, bound)
    requires StorageAccepts(lease.env, job.batch, lease.file.durable)
    requires CommittingFault(lease.env, lease.file.durable, job, f)
    modifies lease, lease.file
    ensures lease.Valid() && !lease.closed && fault == f(Committing)
    ensures fault != Fine ==>
              lease.file.durable == old(lease.file.durable) && lease.file.locked == old(lease.file.locked)
                              && lease.inTransaction
    ensures fault == Fine ==>
              lease.file.durable
              == LeaseOutcome(lease.env, old(lease.file.durable),
                              BundleInput(lease.env, job.batch, old(lease.file.durable)))
              && head == lease.file.durable.head && !lease.file.locked && !lease.inTransaction
  {
    head := lease.head;
    if job.plan(Committing) == Crash { return Crash, head; }
    OwnProjectionCommits(lease.env, lease.file.durable, job.batch, bound);
    var committed := lease.CommitPublishedBundle(bound, job.plan(Committing) == Fine);
    if committed.Err? { return if job.plan(Committing) != Fine then job.plan(Committing) else Unhandled, head; }
    return Fine, committed.value;
  }

  /** Sync and bind what was published, and commit it. */
  method BindAndCommit(tables: set<string>, root: OutputRoot, lease: Lease, job: Job, receipt: StorageProjectionReceipt,
                       ghost input: LeaseInput, ghost moved: Database,
                       ghost f: Stage -> Fault) returns (fault: Fault, head: IssuanceHead, bundle: Digest)
    requires lease.Valid() && OpenLease(lease) && Stored(lease, job.batch, receipt) && job.batch.exports.Keys == tables
    requires job.Target() in root.targets
             && root.targets[job.Target()] == BundleDirectory(lease.env, job.batch, lease.file.durable)
    requires input == BundleInput(lease.env, job.batch, lease.file.durable)
             && moved == LeaseOutcome(lease.env, lease.file.durable, input)
    requires OutsideFaults(job, f)
    requires CommittingFault(lease.env, lease.file.durable, job, f)
    modifies lease, lease.file
    ensures lease.Valid() && !lease.closed && fault == EndFault(f, StopCommitting(f))
    ensures lease.inTransaction == StopCommitting(f).Some? == (fault != Fine)
    ensures fault != Fine ==>
              lease.file.durable == old(lease.file.durable) && lease.file.locked == old(lease.file.locked)
                              && lease.inTransaction
    ensures fault == Fine ==>
              lease.file.durable == moved && head == moved.head && !lease.file.locked && !lease.inTransaction
                              && bundle == input.bundle
  {
    head, bundle := lease.head, "";
    if job.plan(Syncing) != Fine { return job.plan(Syncing), head, bundle; }
    if job.plan(Binding) != Fine { return job.plan(Binding), head, bundle; }
    var bound := BindBundle(tables, root, lease, job, receipt);
    bundle := bound.bundle;
    fault, head := CommitBundle(lease, job, bound, f);
  }

  // ----- the build -----

  /** Registry, targets and temporaries are those of `disk`. */
  ghost predicate EndsAt(file: RegistryFile, root: OutputRoot, disk: Disk)
    reads file, root
  {
    file.durable == disk.durable && root.targets == disk.targets && root.temporaries == disk.temporaries
  }

  /** What follows the rendering: rename the finished directory, and finish what is in place. */
  method PublishPrepared(tables: set<string>, root: OutputRoot, lease: Lease, job: Job,
                         receipt: StorageProjectionReceipt,
                         ghost disk: Disk, ghost f: Stage -> Fault)
      returns (fault: Fault, published: bool, head: IssuanceHead, bundle: Digest, ghost trace: seq<Snapshot>)
    requires lease.Valid() && OpenLease(lease) && Stored(lease, job.batch, receipt) && job.batch.exports.Keys == tables
    requires disk.durable == lease.file.durable && root.targets == disk.targets && job.Target() !in disk.targets
    requires job.temporary !in disk.temporaries
             && root.temporaries == LeftTemporaries(disk, job, BundleOf(lease.env, disk, job), Renaming)
    requires OutsideFaults(job, f) && f(Acquiring) == Fine && StopRendering(f).None?
    requires CommittingFault(lease.env, lease.file.durable, job, f)
    modifies root, lease, lease.file
    ensures lease.Valid() && !lease.closed && fault == EndFault(f, Stop(f)) && published == Publishes(disk, job, f)
    ensures EndsAt(lease.file, root, AtCleanup(lease.env, disk, job, f))
    ensures lease.inTransaction == !Commits(disk, job, f)
            && lease.file.locked == (old(lease.file.locked) && lease.inTransaction)
    ensures fault == Fine ==>
              head == lease.file.durable.head && bundle == BundleInput(lease.env, job.batch, disk.durable).bundle
    ensures trace == LeaseTrace(lease.env, disk, job, f)
  {
    head, bundle, trace := lease.head, "", [];
    fault := RenameBundle(root, job, disk, BundleOf(lease.env, disk, job));
    published := fault == Fine;
    if published {
      PublishedEnds(lease.env, disk, job, f);
      trace := [Persistent(lease.file, root)];
      fault, head, bundle :=
        BindAndCommit(tables, root, lease, job, receipt, BundleInput(lease.env, job.batch, disk.durable),
                      Moved(lease.env, disk, job), f);
      if fault == Fine {
        trace := trace + [Persistent(lease.file, root)];
        fault := job.plan(Returning);
      }
    } else {
      EndsRenaming(lease.env, disk, job, f);
    }
  }

  /** The build under its lease. `trace` collects the persistent state after every step that changes it. */
  method PublishUnderLease(tables: set<string>, root: OutputRoot, lease: Lease, job: Job, ghost disk: Disk,
                           ghost f: Stage -> Fault)
      returns (fault: Fault, published: bool, head: IssuanceHead, bundle: Digest, ghost trace: seq<Snapshot>)
    requires lease.Valid() && OpenLease(lease) && !lease.receiptIssued && job.batch.exports.Keys == tables
    requires disk.durable == lease.file.durable && root.targets == disk.targets && job.Target() !in disk.targets
    requires job.temporary !in disk.temporaries
             && root.temporaries == disk.temporaries[job.temporary := EMPTY_DIRECTORY]
    requires OutsideFaults(job, f) && f(Acquiring) == Fine
    requires StoringFault(lease.env, lease.file.durable, job, f)
    requires CommittingFault(lease.env, lease.file.durable, job, f)
    modifies root, lease, lease.file
    ensures lease.Valid() && !lease.closed && fault == EndFault(f, Stop(f)) && published == Publishes(disk, job, f)
    ensures EndsAt(lease.file, root, AtCleanup(lease.env, disk, job, f))
    ensures lease.inTransaction == !Commits(disk, job, f)
            && lease.file.locked == (old(lease.file.locked) && lease.inTransaction)
    ensures fault == Fine ==>
              head == lease.file.durable.head && bundle == BundleInput(lease.env, job.batch, disk.durable).bundle
    ensures trace == LeaseTrace(lease.env, disk, job, f)
  {
    published, head, bundle, trace := false, lease.head, "", [];
    var receipt: StorageProjectionReceipt?;
    fault, receipt := PrepareBundle(root, lease, job, disk, BundleOf(lease.env, disk, job), f);
    if fault != Fine {
      EndsRendering(lease.env, disk, job, f);
    } else {
      fault, published, head, bundle, trace := PublishPrepared(tables, root, lease, job, receipt, disk, f);
    }
  }

  /** Acquire, publish under the lease, and close it whatever happened. */
  method RunLease(env: Env, tables: set<string>, root: OutputRoot, file: RegistryFile, job: Job, ghost disk: Disk,
                  ghost f: Stage -> Fault)
      returns (fault: Fault, published: bool, head: IssuanceHead, bundle: Digest, ghost trace: seq<Snapshot>)
    requires env.Valid() && job.batch.exports.Keys == tables && root.targets == disk.targets
    requires disk.durable == file.durable && disk.locked == file.locked && job.Target() !in disk.targets
    requires job.temporary !in disk.temporaries
             && root.temporaries == disk.temporaries[job.temporary := EMPTY_DIRECTORY]
    requires OutsideFaults(job, f)
    requires CheckedFault(job, f, Acquiring, LeaseGiven(env, disk, job), Handled)
    requires StoringFault(env, file.durable, job, f)
    requires CommittingFault(env, file.durable, job, f)
    modifies root, file
    ensures fault == EndFault(f, Stop(f)) && published == Publishes(disk, job, f)
    ensures DiskOf(file, root) == AtCleanup(env, disk, job, f)
    ensures fault == Fine ==> head == file.durable.head && bundle == BundleInput(env, job.batch, disk.durable).bundle
    ensures trace == LeaseTrace(env, disk, job, f)
  {
    published, head, bundle, trace := false, file.durable.head, "", [];
    EndsAcquiring(env, disk, job, f);
    if job.plan(Acquiring) != Fine { return job.plan(Acquiring), false, head, "", []; }
    var acquired := AcquireIssuanceLease(env, file, job.generation, job.authority, job.predecessor);
    if acquired.Err? { return Handled, false, head, "", []; }
    var lease := acquired.value;
    fault, published, head, bundle, trace := PublishUnderLease(tables, root, lease, job, disk, f);
    lease.Close();
  }

  /** `build_canonical_bundle` from the target check on: whatever interrupts it, it ends with the outcome, on the
      disk, and by way of the persistent states that the functions of the stages say. */
  method BuildCanonicalBundle(env: Env, tables: set<string>, root: OutputRoot, file: RegistryFile, job: Job)
      returns (outcome: Outcome, ghost trace: seq<Snapshot>)
    requires env.Valid() && job.batch.exports.Keys == tables && job.temporary !in root.temporaries
    modifies root, file
    ensures var disk := old(DiskOf(file, root)); var f := FaultsOf(env, disk, job);
            && outcome == OutcomeOf(env, disk, job, f) && DiskOf(file, root) == After(env, disk, job, f)
            && trace == TraceOf(env, disk, job, f)
  {
    ghost var disk := DiskOf(file, root);
    ghost var f := FaultsOf(env, disk, job);
    trace := [Persistent(file, root)];
    if job.Target() in root.targets {
      TargetTaken(env, disk, job, f);
      trace := trace + [Persistent(file, root)];
      return Failed, trace;
    }
    FaultsExactly(env, disk, job);
    TraceContinues(env, disk, job, f);
    ghost var steps;
    outcome, steps := BuildIntoFreeTarget(env, tables, root, file, job, disk, f);
    trace := trace + steps;
  }

  /** The build when its target is free; `f` is what interrupts it. */
  method BuildIntoFreeTarget(env: Env, tables: set<string>, root: OutputRoot, file: RegistryFile, job: Job,
                             ghost disk: Disk, ghost f: Stage -> Fault)
      returns (outcome: Outcome, ghost trace: seq<Snapshot>)
    requires env.Valid() && job.batch.exports.Keys == tables && DiskOf(file, root) == disk
    requires job.Target() !in disk.targets && job.temporary !in disk.temporaries
    requires OutsideFaults(job, f)
    requires CheckedFault(job, f, Acquiring, LeaseGiven(env, disk, job), Handled)
    requires StoringFault(env, disk.durable, job, f)
    requires CommittingFault(env, disk.durable, job, f)
    modifies root, file
    ensures outcome == OutcomeOf(env, disk, job, f) && DiskOf(file, root) == After(env, disk, job, f)
    ensures trace == LeaseTrace(env, disk, job, f) + [Visible(After(env, disk, job, f))]
  {
    CleanupRestores(env, disk, job, f);
    OutcomeExactly(env, disk, job, f);
    root.temporaries := root.temporaries[job.temporary := EMPTY_DIRECTORY];
    var fault, published, head, bundle;
    fault, published, head, bundle, trace := RunLease(env, tables, root, file, job, disk, f);
    if fault == Handled { CleanUp(file, root, job, published); }
    trace := trace + [Persistent(file, root)];
    outcome :=
      match fault
      case Fine => Built(head, bundle)
      case Handled => Failed
      case Unhandled => Raised
      case Crash => Crashed;
  }

  /** The cleanup of a handled failure: what was published, or else the temporary directory. */
  method CleanUp(ghost file: RegistryFile, root: OutputRoot, job: Job, published: bool)
    modifies root
    ensures DiskOf(file, root) == CleanedUp(old(DiskOf(file, root)), job, published)
  {
    if published {
      root.targets := root.targets - {job.Target()};
    } else {
      root.temporaries := root.temporaries - {job.temporary};
    }
  }

  /** Builds for one output root: each has a temporary name of its own, and exports the same tables. */
  predicate TurnsNamed(tables: set<string>, turns: seq<Turn>) {
    && (forall i :: 0 <= i < |turns| ==> turns[i].job.batch.exports.Keys == tables)
    && forall i, j :: 0 <= i < j < |turns| ==> turns[i].job.temporary != turns[j].job.temporary
  }

  lemma {:induction false} NameIsFree(env: Env, tables: set<string>, turns: seq<Turn>, i: nat)
    requires TurnsNamed(tables, turns) && i < |turns|
    ensures turns[i].job.temporary !in RunTurns(env, turns[..i]).temporaries
  {
    if turns[i].job.temporary in RunTurns(env, turns[..i]).temporaries {
      TurnTemporaries(env, turns[..i], turns[i].job.temporary);
    }
  }

  /** What a sequence of builds has come to: the disk, the outcomes and every persistent state so far. */
  ghost predicate BuiltSoFar(env: Env, done: seq<Turn>, file: RegistryFile, root: OutputRoot, outcomes: seq<Outcome>,
                             trace: seq<Snapshot>)
    reads file, root
  {
    && DiskOf(file, root) == RunTurns(env, done)
    && outcomes == TurnOutcomes(env, done) && trace == TurnTraces(env, done)
  }

  /** One build after others. */
  method BuildTurn(env: Env, tables: set<string>, root: OutputRoot, file: RegistryFile, turn: Turn,
                   ghost front: seq<Turn>,
                   outcomes: seq<Outcome>, ghost trace: seq<Snapshot>)
      returns (outcomes': seq<Outcome>, ghost trace': seq<Snapshot>)
    requires env.Valid() && turn.job.batch.exports.Keys == tables
             && turn.job.temporary !in RunTurns(env, front).temporaries
    requires BuiltSoFar(env, front, file, root, outcomes, trace)
    modifies root, file
    ensures BuiltSoFar(env, front + [turn], file, root, outcomes', trace')
  {
    TurnSnoc(env, front, turn);
    file.locked := turn.busy;
    var outcome;
    ghost var steps;
    outcome, steps := BuildCanonicalBundle(env, tables, root, file, turn.job);
    file.locked := false;
    return outcomes + [outcome], trace + steps;
  }

  lemma NextTurn(turns: seq<Turn>, i: nat)
    requires i < |turns|
    ensures turns[..i + 1] == turns[..i] + [turns[i]]
  {
  }

  /** Any sequence of builds, each with the head it expects, interrupted anywhere or not at all. */
  method BuildAll(env: Env, tables: set<string>, turns: seq<Turn>)
      returns (root: OutputRoot, file: RegistryFile, outcomes: seq<Outcome>, ghost trace: seq<Snapshot>)
    requires env.Valid() && TurnsNamed(tables, turns)
    ensures DiskOf(file, root) == RunTurns(env, turns)
    ensures outcomes == TurnOutcomes(env, turns) && trace == TurnTraces(env, turns)
  {
    root := new OutputRoot();
    file := new RegistryFile(env);
    outcomes, trace := [], [];
    for i := 0 to |turns|
      invariant fresh(root) && fresh(file)
      invariant BuiltSoFar(env, turns[..i], file, root, outcomes, trace)
    {
      NameIsFree(env, tables, turns, i);
      NextTurn(turns, i);
      outcomes, trace := BuildTurn(env, tables, root, file, turns[i], turns[..i], outcomes, trace);
    }
    assert turns[..|turns|] == turns;
  }
}
