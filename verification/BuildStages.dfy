/** What a build leaves behind (src/corpus/build.py). */
module BuildStages {
  // The stages of one build, what can interrupt each of them, and, as a function of the build and of
  // the disk it starts on, its outcome, the disk it ends on, and every persistent state on the way.

  import opened Issuance
  import opened IssuanceLease
  import opened Registry
  import opened Wrappers

  /** What is to be published: the cases, the deltas of its ingestion run, and the rendered files. */
  datatype Batch = Batch(releaseId: string, cases: seq<CaseVersion>, deltas: Deltas,
                         database: string, exports: map<string, string>)

  /** The places where the build can be interrupted, in order; `Returning` is after the COMMIT. */
  datatype Stage =
    | Acquiring | Storing | Exporting | WritingManifest | Renaming | Syncing | Binding | Committing | Returning

  /** `Handled` exceptions reach the cleanup; others pass it by; a crash ends the process. */
  datatype Fault = Fine | Handled | Unhandled | Crash

  datatype Outcome = Built(head: IssuanceHead, bundle: Digest) | Failed | Raised | Crashed

  /** One build: its batch, the head it expects, the names it uses, and what interrupts it. */
  datatype Job = Job(batch: Batch, generation: int, authority: Digest, predecessor: Option<Digest>,
                     directoryName: Option<string>, temporary: string, plan: Stage -> Fault)
  {
    function Target(): string { directoryName.GetOr(batch.releaseId) }
  }

  /** The registry file, its lock, the published bundles by name, and the temporary directories. */
  datatype Disk = Disk(durable: Database, locked: bool, targets: map<string, Directory>,
                       temporaries: map<string, Directory>)

  /** What survives a crash and can be read by others. */
  datatype Snapshot = Snapshot(durable: Database, targets: map<string, Directory>)

  // ----- the bundle -----

  const EMPTY_DIRECTORY := Directory({}, "", map[], None)

  function BundleManifest(env: Env, batch: Batch, head: IssuanceHead, rows: map<string, CaseRow>): Manifest {
    var exports := ExportDigests(env, Directory({}, "", batch.exports, None));
    Manifest(env.hash(ContentMessage(exports)), env.hash(FileMessage(batch.database)), exports, head.bundle,
             ProjectionDigest(env, rows), batch.releaseId)
  }

  function BundleInput(env: Env, batch: Batch, db: Database): LeaseInput {
    var rows := ProjectedRows(db.rows, Contents(batch.cases), batch.releaseId);
    LeaseInput(batch.cases, batch.releaseId, env.hash(BundleMessage(BundleManifest(env, batch, db.head, rows))), true)
  }

  /** The finished directory of a batch on top of `db`. */
  function BundleDirectory(env: Env, batch: Batch, db: Database): Directory {
    var rows := ProjectedRows(db.rows, Contents(batch.cases), batch.releaseId);
    Directory(BUNDLE_ENTRIES, batch.database, batch.exports, Some(BundleManifest(env, batch, db.head, rows)))
  }

  lemma BundleDirectoryComplete(env: Env, tables: set<string>, batch: Batch, db: Database)
    requires batch.exports.Keys == tables
    ensures CompleteBundle(env, tables, BundleDirectory(env, batch, db))
    ensures BundleDigest(env, BundleDirectory(env, batch, db)) == BundleInput(env, batch, db).bundle
  {
    var d := BundleDirectory(env, batch, db);
    assert ExportDigests(env, d) == ExportDigests(env, Directory({}, "", batch.exports, None));
  }

  /** What storage demands of a batch on top of `db`. */
  predicate StorageAccepts(env: Env, batch: Batch, db: Database) {
    ValidCases(env, batch.cases) && DeltasMatch(batch.deltas, Contents(batch.cases), db.rows)
    && Projectable(db, batch.cases, batch.releaseId)
  }

  // ----- where a build stops -----

  /** What the code itself raises at a stage that nothing else interrupts: the refused lease and the
      refused batch are handled, a repeated digest is an exception of the database engine. */
  function CodeFault(env: Env, disk: Disk, job: Job, stage: Stage): Fault {
    match stage
    case Acquiring => if LeaseGiven(env, disk, job) then Fine else Handled
    case Storing => if StorageAccepts(env, job.batch, disk.durable) then Fine else Handled
    case Committing =>
      if LeaseCommits(env, disk.durable, BundleInput(env, job.batch, disk.durable)) then Fine else Unhandled
    case _ => Fine
  }

  function FaultAt(env: Env, disk: Disk, job: Job, stage: Stage): Fault {
    if job.plan(stage) != Fine then job.plan(stage) else CodeFault(env, disk, job, stage)
  }

  /** Every interruption of a build, from outside or by its own checks. */
  function FaultsOf(env: Env, disk: Disk, job: Job): Stage -> Fault { stage => FaultAt(env, disk, job, stage) }

  /** Faults under which only a possible commit goes through. */
  predicate Sound(env: Env, disk: Disk, job: Job, f: Stage -> Fault) {
    f(Committing) == Fine ==> LeaseCommits(env, disk.durable, BundleInput(env, job.batch, disk.durable))
  }

  lemma FaultsSound(env: Env, disk: Disk, job: Job)
    ensures Sound(env, disk, job, FaultsOf(env, disk, job))
  {
    assert FaultsOf(env, disk, job)(Committing) == FaultAt(env, disk, job, Committing);
  }

  /** The stages that only something from outside can interrupt. */
  predicate OutsideFaults(job: Job, f: Stage -> Fault) {
    && f(Exporting) == job.plan(Exporting) && f(WritingManifest) == job.plan(WritingManifest)
    && f(Renaming) == job.plan(Renaming) && f(Syncing) == job.plan(Syncing)
    && f(Binding) == job.plan(Binding) && f(Returning) == job.plan(Returning)
  }

  /** A stage that also checks something, and raises `own` when the check fails. */
  predicate CheckedFault(job: Job, f: Stage -> Fault, stage: Stage, holds: bool, own: Fault) {
    f(stage) == if job.plan(stage) != Fine then job.plan(stage) else if holds then Fine else own
  }

  predicate StoringFault(env: Env, db: Database, job: Job, f: Stage -> Fault) {
    CheckedFault(job, f, Storing, StorageAccepts(env, job.batch, db), Handled)
  }

  predicate CommittingFault(env: Env, db: Database, job: Job, f: Stage -> Fault) {
    CheckedFault(job, f, Committing, LeaseCommits(env, db, BundleInput(env, job.batch, db)), Unhandled)
  }

  predicate LeaseGiven(env: Env, disk: Disk, job: Job) {
    && !disk.locked && Accepted(env, disk.durable)
    && HeadExpected(disk.durable.head, job.generation, job.authority, job.predecessor)
  }

  lemma FaultsExactly(env: Env, disk: Disk, job: Job)
    ensures var f := FaultsOf(env, disk, job);
            && OutsideFaults(job, f)
            && CheckedFault(job, f, Acquiring, LeaseGiven(env, disk, job), Handled)
            && StoringFault(env, disk.durable, job, f) && CommittingFault(env, disk.durable, job, f)
  {
  }

  /** The first of the stages inside the temporary directory that does not go through. */
  function StopRendering(f: Stage -> Fault): Option<Stage> {
    if f(Storing) != Fine then Some(Storing)
    else if f(Exporting) != Fine then Some(Exporting)
    else if f(WritingManifest) != Fine then Some(WritingManifest)
    else None
  }

  /** The first of the stages up to the rename that does not go through. */
  function StopPreparing(f: Stage -> Fault): Option<Stage> {
    if StopRendering(f).Some? then StopRendering(f) else if f(Renaming) != Fine then Some(Renaming) else None
  }

  /** The first of the stages from the rename to the COMMIT that does not go through. */
  function StopCommitting(f: Stage -> Fault): Option<Stage> {
    if f(Syncing) != Fine then Some(Syncing)
    else if f(Binding) != Fine then Some(Binding)
    else if f(Committing) != Fine then Some(Committing)
    else None
  }

  /** The first of the stages after the rename that does not go through. */
  function StopPublished(f: Stage -> Fault): Option<Stage> {
    if StopCommitting(f).Some? then StopCommitting(f) else if f(Returning) != Fine then Some(Returning) else None
  }

  /** The fault at which some stages end; `Fine` when they go through. */
  function EndFault(f: Stage -> Fault, stop: Option<Stage>): Fault { if stop.None? then Fine else f(stop.value) }

  /** Where the build stops; `None` when it goes through. */
  function Stop(f: Stage -> Fault): Option<Stage> {
    if f(Acquiring) != Fine then Some(Acquiring)
    else if StopPreparing(f).Some? then StopPreparing(f)
    else StopPublished(f)
  }

  function Order(stage: Stage): nat {
    match stage
    case Acquiring => 0
    case Storing => 1
    case Exporting => 2
    case WritingManifest => 3
    case Renaming => 4
    case Syncing => 5
    case Binding => 6
    case Committing => 7
    case Returning => 8
  }

  /** The build stops at the first stage that does not go through. */
  lemma StopIsFirst(f: Stage -> Fault, stage: Stage)
    ensures Stop(f) == Some(stage) <==> f(stage) != Fine && forall s :: Order(s) < Order(stage) ==> f(s) == Fine
    ensures Stop(f).None? <==> forall s :: f(s) == Fine
  {
    forall s: Stage ensures Stop(f).None? ==> f(s) == Fine {
      assert s.Acquiring? || s.Storing? || s.Exporting? || s.WritingManifest? || s.Renaming? || s.Syncing? || s.Binding?
             || s.Committing? || s.Returning?;
    }
    forall s: Stage ensures Stop(f).Some? && Order(s) < Order(Stop(f).value) ==> f(s) == Fine {
      assert s.Acquiring? || s.Storing? || s.Exporting? || s.WritingManifest? || s.Renaming? || s.Syncing? || s.Binding?
             || s.Committing? || s.Returning?;
    }
    if Stop(f).Some? && Stop(f) != Some(stage) {
      assert f(Stop(f).value) != Fine && Order(stage) != Order(Stop(f).value);
    }
  }

  predicate BeforeRename(stage: Stage) {
    stage.Acquiring? || stage.Storing? || stage.Exporting? || stage.WritingManifest? || stage.Renaming?
  }

  /** The bundle is in place when the build ends or is interrupted. */
  predicate Publishes(disk: Disk, job: Job, f: Stage -> Fault) { PublishesAt(disk, job, Stop(f)) }

  predicate PublishesAt(disk: Disk, job: Job, stop: Option<Stage>) {
    job.Target() !in disk.targets && (stop.None? || !BeforeRename(stop.value))
  }

  predicate Commits(disk: Disk, job: Job, f: Stage -> Fault) { CommitsAt(disk, job, Stop(f)) }

  predicate CommitsAt(disk: Disk, job: Job, stop: Option<Stage>) {
    job.Target() !in disk.targets && (stop.None? || stop.value.Returning?)
  }

  // ----- what it leaves behind -----

  /** The temporary directory when the stage is interrupted. */
  function PartialDirectory(job: Job, bundle: Directory, stage: Stage): Directory {
    match stage
    case Exporting => Directory({"canonical.sqlite3"}, job.batch.database, map[], None)
    case WritingManifest => Directory({"canonical.sqlite3", "jsonl"}, job.batch.database, job.batch.exports, None)
    case Renaming => bundle
    case _ => EMPTY_DIRECTORY
  }

  /** The finished directory of a build. */
  function BundleOf(env: Env, disk: Disk, job: Job): Directory { BundleDirectory(env, job.batch, disk.durable) }

  /** The temporary directories when the stage is interrupted. */
  function LeftTemporaries(disk: Disk, job: Job, bundle: Directory, stage: Stage): map<string, Directory> {
    disk.temporaries[job.temporary := PartialDirectory(job, bundle, stage)]
  }

  function PublishedTargets(disk: Disk, job: Job, bundle: Directory): map<string, Directory> {
    disk.targets[job.Target() := bundle]
  }

  function Moved(env: Env, disk: Disk, job: Job): Database {
    LeaseOutcome(env, disk.durable, BundleInput(env, job.batch, disk.durable))
  }

  /** The disk after a build. */
  function After(env: Env, disk: Disk, job: Job, f: Stage -> Fault): Disk {
    AfterStop(disk, job, Moved(env, disk, job), BundleOf(env, disk, job), Stop(f), EndFault(f, Stop(f)))
  }

  /** The disk after a build that stops at `stop` with `fault`; the target is looked up before anything is created. */
  function AfterStop(disk: Disk, job: Job, moved: Database, bundle: Directory, stop: Option<Stage>,
                     fault: Fault): Disk {
    if job.Target() in disk.targets then disk
    else
      match stop
      case None => disk.(durable := moved, targets := PublishedTargets(disk, job, bundle))
      case Some(stage) =>
        var durable := if stage.Returning? then moved else disk.durable;
        if fault == Handled then disk.(durable := durable)
        else if BeforeRename(stage) then disk.(temporaries := LeftTemporaries(disk, job, bundle, stage))
        else disk.(durable := durable, targets := PublishedTargets(disk, job, bundle))
  }

  /** The disk when the lease is closed and the cleanup, if there is any, has not begun. */
  function AtCleanup(env: Env, disk: Disk, job: Job, f: Stage -> Fault): Disk {
    AtCleanupStop(disk, job, Moved(env, disk, job), BundleOf(env, disk, job), Stop(f))
  }

  function AtCleanupStop(disk: Disk, job: Job, moved: Database, bundle: Directory, stop: Option<Stage>): Disk {
    match stop
    case None => disk.(durable := moved, targets := PublishedTargets(disk, job, bundle))
    case Some(stage) =>
      if stage.Acquiring? then disk.(temporaries := disk.temporaries[job.temporary := EMPTY_DIRECTORY])
      else if BeforeRename(stage) then disk.(temporaries := LeftTemporaries(disk, job, bundle, stage))
      else if stage.Returning? then disk.(durable := moved, targets := PublishedTargets(disk, job, bundle))
      else disk.(targets := PublishedTargets(disk, job, bundle))
  }

  /** What the cleanup of a handled failure removes: the target, or else the temporary directory. */
  function CleanedUp(disk: Disk, job: Job, published: bool): Disk {
    if published then disk.(targets := disk.targets - {job.Target()})
    else disk.(temporaries := disk.temporaries - {job.temporary})
  }

  lemma TemporaryRemoved(disk: Disk, job: Job, d: Directory)
    requires job.temporary !in disk.temporaries
    ensures CleanedUp(disk.(temporaries := disk.temporaries[job.temporary := d]), job, false) == disk
  {
    assert disk.temporaries[job.temporary := d] - {job.temporary} == disk.temporaries;
  }

  lemma TargetRemoved(disk: Disk, job: Job, durable: Database, d: Directory)
    requires job.Target() !in disk.targets
    ensures CleanedUp(disk.(durable := durable, targets := disk.targets[job.Target() := d]), job, true)
            == disk.(durable := durable)
  {
    assert disk.targets[job.Target() := d] - {job.Target()} == disk.targets;
  }

  /** The cleanup is what makes a handled failure leave nothing; without one the disk stays as it is. */
  lemma CleanupRestores(env: Env, disk: Disk, job: Job, f: Stage -> Fault)
    requires job.Target() !in disk.targets && job.temporary !in disk.temporaries
    ensures EndFault(f, Stop(f)) != Handled ==> After(env, disk, job, f) == AtCleanup(env, disk, job, f)
    ensures EndFault(f, Stop(f)) == Handled ==>
              After(env, disk, job, f) == CleanedUp(AtCleanup(env, disk, job, f), job, Publishes(disk, job, f))
  {
    CleanupRestoresAt(disk, job, Moved(env, disk, job), BundleOf(env, disk, job), Stop(f), EndFault(f, Stop(f)));
  }

  lemma CleanupRestoresAt(disk: Disk, job: Job, moved: Database, bundle: Directory, stop: Option<Stage>, fault: Fault)
    requires job.Target() !in disk.targets && job.temporary !in disk.temporaries && (stop.None? ==> fault == Fine)
    ensures fault != Handled ==>
              AfterStop(disk, job, moved, bundle, stop, fault) == AtCleanupStop(disk, job, moved, bundle, stop)
    ensures fault == Handled ==>
              AfterStop(disk, job, moved, bundle, stop, fault)
              == CleanedUp(AtCleanupStop(disk, job, moved, bundle, stop), job, PublishesAt(disk, job, stop))
  {
    if fault == Handled {
      TemporaryRemoved(disk, job, PartialDirectory(job, bundle, stop.value));
      TargetRemoved(disk, job, if stop.value.Returning? then moved else disk.durable, bundle);
    }
  }

  function OutcomeOf(env: Env, disk: Disk, job: Job, f: Stage -> Fault): Outcome {
    if job.Target() in disk.targets then Failed
    else OutcomeAt(Moved(env, disk, job).head, BundleInput(env, job.batch, disk.durable).bundle, EndFault(f, Stop(f)))
  }

  function OutcomeAt(head: IssuanceHead, bundle: Digest, fault: Fault): Outcome {
    match fault
    case Fine => Built(head, bundle)
    case Handled => Failed
    case Unhandled => Raised
    case Crash => Crashed
  }

  /** What the build returns, read off the registry when the lease is closed. */
  lemma OutcomeExactly(env: Env, disk: Disk, job: Job, f: Stage -> Fault)
    requires job.Target() !in disk.targets
    ensures OutcomeOf(env, disk, job, f)
            == OutcomeAt(AtCleanup(env, disk, job, f).durable.head, BundleInput(env, job.batch, disk.durable).bundle,
                         EndFault(f, Stop(f)))
  {
    var stop := Stop(f);
    if stop.Some? { StopIsFirst(f, stop.value); }
  }

  function Visible(disk: Disk): Snapshot { Snapshot(disk.durable, disk.targets) }

  /** The persistent states of the steps under the lease that change them: the rename and the COMMIT. */
  function LeaseTrace(env: Env, disk: Disk, job: Job, f: Stage -> Fault): seq<Snapshot> {
    var published := PublishedTargets(disk, job, BundleOf(env, disk, job));
    (if Publishes(disk, job, f) then [Snapshot(disk.durable, published)] else [])
    + (if Commits(disk, job, f) then [Snapshot(Moved(env, disk, job), published)] else [])
  }

  /** Every persistent state of a build, from the first to the last. */
  function TraceOf(env: Env, disk: Disk, job: Job, f: Stage -> Fault): seq<Snapshot> {
    [Visible(disk)] + LeaseTrace(env, disk, job, f) + [Visible(After(env, disk, job, f))]
  }

  /** A build that gets no lease. */
  lemma EndsAcquiring(env: Env, disk: Disk, job: Job, f: Stage -> Fault)
    ensures f(Acquiring) != Fine ==>
              && EndFault(f, Stop(f)) == f(Acquiring) && !Publishes(disk, job, f) && LeaseTrace(env, disk, job, f) == []
              && AtCleanup(env, disk, job, f)
                == disk.(temporaries := disk.temporaries[job.temporary := EMPTY_DIRECTORY])
  {
  }

  /** A build under its lease that ends before its bundle is finished. */
  lemma EndsRendering(env: Env, disk: Disk, job: Job, f: Stage -> Fault)
    requires job.Target() !in disk.targets && f(Acquiring) == Fine && StopRendering(f).Some?
    ensures Stop(f) == StopRendering(f) && !Publishes(disk, job, f) && !Commits(disk, job, f)
    ensures AtCleanup(env, disk, job, f)
            == disk.(temporaries := LeftTemporaries(disk, job, BundleOf(env, disk, job), StopRendering(f).value))
    ensures LeaseTrace(env, disk, job, f) == []
  {
  }

  /** One that ends at the rename. */
  lemma EndsRenaming(env: Env, disk: Disk, job: Job, f: Stage -> Fault)
    requires job.Target() !in disk.targets && f(Acquiring) == Fine && StopRendering(f).None? && f(Renaming) != Fine
    ensures Stop(f) == Some(Renaming) && !Publishes(disk, job, f) && !Commits(disk, job, f)
    ensures AtCleanup(env, disk, job, f)
            == disk.(temporaries := LeftTemporaries(disk, job, BundleOf(env, disk, job), Renaming))
    ensures LeaseTrace(env, disk, job, f) == []
  {
  }

  /** One that ends with its bundle in place. */
  lemma PublishedEnds(env: Env, disk: Disk, job: Job, f: Stage -> Fault)
    requires job.Target() !in disk.targets && f(Acquiring) == Fine && StopPreparing(f).None?
    ensures Publishes(disk, job, f) && (Commits(disk, job, f) <==> StopCommitting(f).None?)
    ensures EndFault(f, Stop(f)) == if StopCommitting(f).None? then f(Returning) else EndFault(f, StopCommitting(f))
    ensures AtCleanup(env, disk, job, f).temporaries == disk.temporaries
    ensures AtCleanup(env, disk, job, f).targets == PublishedTargets(disk, job, BundleOf(env, disk, job))
    ensures AtCleanup(env, disk, job, f).durable
            == if StopCommitting(f).None? then Moved(env, disk, job) else disk.durable
    ensures LeaseTrace(env, disk, job, f)
            == [Snapshot(disk.durable, PublishedTargets(disk, job, BundleOf(env, disk, job)))]
               + if StopCommitting(f).None?
                 then [Snapshot(Moved(env, disk, job), PublishedTargets(disk, job, BundleOf(env, disk, job)))] else []
  {
  }

  /** A build whose target exists does nothing. */
  lemma TargetTaken(env: Env, disk: Disk, job: Job, f: Stage -> Fault)
    requires job.Target() in disk.targets
    ensures OutcomeOf(env, disk, job, f) == Failed && After(env, disk, job, f) == disk
    ensures TraceOf(env, disk, job, f) == [Visible(disk), Visible(disk)]
  {
  }

  lemma TraceContinues(env: Env, disk: Disk, job: Job, f: Stage -> Fault)
    ensures TraceOf(env, disk, job, f)
            == [Visible(disk)] + (LeaseTrace(env, disk, job, f) + [Visible(After(env, disk, job, f))])
  {
  }

  // ----- publish before commit -----

  /** A complete bundle with this digest is in place. */
  predicate Published(env: Env, tables: set<string>, targets: map<string, Directory>, bundle: Digest) {
    exists path :: path in targets && CompleteBundle(env, tables, targets[path])
                   && BundleDigest(env, targets[path]) == bundle
  }

  /** Every release the registry ever named, the head included, is published and complete. */
  predicate NamesOnlyPublished(env: Env, tables: set<string>, s: Snapshot) {
    forall i :: 0 <= i < |s.durable.releases| ==> Published(env, tables, s.targets, s.durable.releases[i].bundle)
  }

  predicate AllPublished(env: Env, tables: set<string>, trace: seq<Snapshot>) {
    forall i :: 0 <= i < |trace| ==> NamesOnlyPublished(env, tables, trace[i])
  }

  lemma StaysPublished(env: Env, tables: set<string>, targets: map<string, Directory>, target: string, d: Directory,
                       bundle: Digest)
    requires Published(env, tables, targets, bundle) && target !in targets
    ensures Published(env, tables, targets[target := d], bundle)
  {
    var path :| path in targets && CompleteBundle(env, tables, targets[path])
      && BundleDigest(env, targets[path]) == bundle;
    assert path in targets[target := d] && targets[target := d][path] == targets[path];
  }

  lemma RenameKeepsPublished(env: Env, tables: set<string>, disk: Disk, job: Job)
    requires NamesOnlyPublished(env, tables, Visible(disk)) && job.Target() !in disk.targets
    ensures NamesOnlyPublished(env, tables,
                               Snapshot(disk.durable, PublishedTargets(disk, job, BundleOf(env, disk, job))))
  {
    forall i | 0 <= i < |disk.durable.releases|
      ensures Published(env, tables, PublishedTargets(disk, job, BundleOf(env, disk, job)),
                        disk.durable.releases[i].bundle)
    {
      var d := BundleDirectory(env, job.batch, disk.durable);
      StaysPublished(env, tables, disk.targets, job.Target(), d, disk.durable.releases[i].bundle);
    }
  }

  lemma OwnBundlePublished(env: Env, tables: set<string>, disk: Disk, job: Job)
    requires job.batch.exports.Keys == tables
    ensures Published(env, tables, PublishedTargets(disk, job, BundleOf(env, disk, job)),
                      BundleInput(env, job.batch, disk.durable).bundle)
  {
    BundleDirectoryComplete(env, tables, job.batch, disk.durable);
    assert PublishedTargets(disk, job, BundleOf(env, disk, job))[job.Target()]
           == BundleDirectory(env, job.batch, disk.durable);
  }

  /** A commit adds one release to the history, and it is the one of this build. */
  lemma MovedReleases(env: Env, disk: Disk, job: Job)
    requires LeaseCommits(env, disk.durable, BundleInput(env, job.batch, disk.durable))
    ensures var moved := Moved(env, disk, job); var n := |disk.durable.releases|;
            && |moved.releases| == n + 1 && moved.releases[..n] == disk.durable.releases
            && moved.releases[n].bundle == BundleInput(env, job.batch, disk.durable).bundle
            && moved.head.bundle == Some(moved.releases[n].bundle) && moved != disk.durable
  {
  }

  lemma CommitPassed(disk: Disk, job: Job, f: Stage -> Fault)
    ensures Commits(disk, job, f) ==> f(Committing) == Fine
  {
  }

  /** One more release: the registry names only published bundles exactly when its bundle is published. */
  lemma OneMoreRelease(env: Env, tables: set<string>, targets: map<string, Directory>, before: Database,
                       after: Database)
    requires |after.releases| == |before.releases| + 1 && after.releases[..|before.releases|] == before.releases
    requires NamesOnlyPublished(env, tables, Snapshot(before, targets))
    ensures NamesOnlyPublished(env, tables, Snapshot(after, targets))
            <==> Published(env, tables, targets, after.releases[|before.releases|].bundle)
  {
    forall i | 0 <= i < |before.releases| ensures after.releases[i] == before.releases[i] {
      assert after.releases[..|before.releases|][i] == after.releases[i];
    }
  }

  lemma MovedNamesPublished(env: Env, tables: set<string>, disk: Disk, job: Job, f: Stage -> Fault)
    requires Sound(env, disk, job, f) && NamesOnlyPublished(env, tables, Visible(disk))
             && job.batch.exports.Keys == tables && Commits(disk, job, f)
    ensures NamesOnlyPublished(env, tables,
                               Snapshot(Moved(env, disk, job), PublishedTargets(disk, job, BundleOf(env, disk, job))))
  {
    CommitPassed(disk, job, f);
    MovedReleases(env, disk, job);
    RenameKeepsPublished(env, tables, disk, job);
    OwnBundlePublished(env, tables, disk, job);
    OneMoreRelease(env, tables, PublishedTargets(disk, job, BundleOf(env, disk, job)), disk.durable,
                   Moved(env, disk, job));
  }

  /** The cleanup runs although the registry already names the bundle. */
  predicate CleansUpAfterCommit(disk: Disk, job: Job, f: Stage -> Fault) {
    Commits(disk, job, f) && f(Returning) == Handled
  }

  lemma LeaseTracePublished(env: Env, tables: set<string>, disk: Disk, job: Job, f: Stage -> Fault)
    requires Sound(env, disk, job, f) && NamesOnlyPublished(env, tables, Visible(disk))
             && job.batch.exports.Keys == tables
    ensures AllPublished(env, tables, LeaseTrace(env, disk, job, f))
  {
    if job.Target() !in disk.targets {
      RenameKeepsPublished(env, tables, disk, job);
      if Commits(disk, job, f) { MovedNamesPublished(env, tables, disk, job, f); }
    }
  }

  /** The disk ends as it began, or as the lease left it, unless the cleanup runs after the COMMIT. */
  lemma EndsAsSeen(env: Env, disk: Disk, job: Job, f: Stage -> Fault)
    requires !CleansUpAfterCommit(disk, job, f)
    ensures var end, seen := Visible(After(env, disk, job, f)), LeaseTrace(env, disk, job, f);
            end == Visible(disk) || (seen != [] && end == seen[|seen| - 1])
  {
  }

  /** Interrupted at whatever stage, at every moment the registry only names bundles that are in place
      and complete; the one exception would be a handled exception after the COMMIT. */
  lemma PublishBeforeCommit(env: Env, tables: set<string>, disk: Disk, job: Job, f: Stage -> Fault)
    requires Sound(env, disk, job, f) && NamesOnlyPublished(env, tables, Visible(disk))
             && job.batch.exports.Keys == tables
    ensures AllPublished(env, tables, [Visible(disk)] + LeaseTrace(env, disk, job, f))
    ensures !CleansUpAfterCommit(disk, job, f) ==> AllPublished(env, tables, TraceOf(env, disk, job, f))
  {
    LeaseTracePublished(env, tables, disk, job, f);
    TracesJoin(env, tables, [Visible(disk)], LeaseTrace(env, disk, job, f));
    if !CleansUpAfterCommit(disk, job, f) {
      EndsAsSeen(env, disk, job, f);
      TracesJoin(env, tables, [Visible(disk)] + LeaseTrace(env, disk, job, f), [Visible(After(env, disk, job, f))]);
    }
  }

  /** Such an exception would take away the bundle that the head names, unless another directory holds the same. */
  lemma CleanupAfterCommitExactly(env: Env, tables: set<string>, disk: Disk, job: Job, f: Stage -> Fault)
    requires Sound(env, disk, job, f) && NamesOnlyPublished(env, tables, Visible(disk))
             && CleansUpAfterCommit(disk, job, f)
    ensures NamesOnlyPublished(env, tables, Visible(After(env, disk, job, f)))
            <==> Published(env, tables, disk.targets, BundleInput(env, job.batch, disk.durable).bundle)
  {
    CommitPassed(disk, job, f);
    MovedReleases(env, disk, job);
    CleanedUpDisk(env, disk, job, f);
    OneMoreRelease(env, tables, disk.targets, disk.durable, Moved(env, disk, job));
  }

  lemma CleanedUpDisk(env: Env, disk: Disk, job: Job, f: Stage -> Fault)
    requires CleansUpAfterCommit(disk, job, f)
    ensures Visible(After(env, disk, job, f)) == Snapshot(Moved(env, disk, job), disk.targets)
  {
  }

  // ----- what a failure leaves -----

  /** A handled failure before the COMMIT leaves everything as it was, whichever stage it strikes. */
  lemma HandledFailureRestores(env: Env, disk: Disk, job: Job, f: Stage -> Fault, stage: Stage)
    requires Stop(f) == Some(stage) && f(stage) == Handled && !stage.Returning?
    ensures OutcomeOf(env, disk, job, f) == Failed && After(env, disk, job, f) == disk
  {
  }

  /** The build is interrupted by something that its cleanup does not see. */
  predicate Escapes(disk: Disk, job: Job, f: Stage -> Fault, stage: Stage) {
    && job.Target() !in disk.targets && Stop(f) == Some(stage)
    && (f(stage) == Unhandled || f(stage) == Crash)
  }

  /** What is left behind, exactly: a temporary directory after an escape up to the rename; a published directory
      that the registry does not name after an escape between the rename and the COMMIT. */
  lemma LeftBehindExactly(env: Env, disk: Disk, job: Job, f: Stage -> Fault)
    requires Sound(env, disk, job, f) && job.temporary !in disk.temporaries
    ensures After(env, disk, job, f).temporaries != disk.temporaries
            <==> exists stage :: Escapes(disk, job, f, stage) && BeforeRename(stage)
    ensures After(env, disk, job, f).targets != disk.targets && After(env, disk, job, f).durable == disk.durable
            <==> exists stage :: Escapes(disk, job, f, stage) && !BeforeRename(stage) && !stage.Returning?
  {
    var stop := Stop(f);
    if stop.Some? {
      StopIsFirst(f, stop.value);
      assert Escapes(disk, job, f, stop.value) <==> job.Target() !in disk.targets && EndFault(f, stop) != Handled;
    }
    CommitPassed(disk, job, f);
    if Commits(disk, job, f) { MovedReleases(env, disk, job); }
    LeftBehindAt(disk, job, Moved(env, disk, job), BundleOf(env, disk, job), stop, EndFault(f, stop));
  }

  lemma LeftBehindAt(disk: Disk, job: Job, moved: Database, bundle: Directory, stop: Option<Stage>, fault: Fault)
    requires job.temporary !in disk.temporaries && (CommitsAt(disk, job, stop) ==> moved != disk.durable)
    requires stop.None? ==> fault == Fine
    ensures var left, escaped := AfterStop(disk, job, moved, bundle, stop, fault),
                                 job.Target() !in disk.targets && stop.Some? && fault != Handled;
            && (left.temporaries != disk.temporaries <==> escaped && BeforeRename(stop.value))
            && (left.targets != disk.targets && left.durable == disk.durable
                <==> escaped && !BeforeRename(stop.value) && !stop.value.Returning?)
  {
    assert job.temporary in disk.temporaries[job.temporary := bundle];
    if stop.Some? { assert job.temporary in LeftTemporaries(disk, job, bundle, stop.value); }
    if job.Target() !in disk.targets { assert job.Target() in PublishedTargets(disk, job, bundle); }
  }

  lemma DurableAfterStop(disk: Disk, job: Job, moved: Database, bundle: Directory, stop: Option<Stage>, fault: Fault)
    ensures AfterStop(disk, job, moved, bundle, stop, fault).durable
            == if CommitsAt(disk, job, stop) then moved else disk.durable
  {
  }

  lemma DurableAfter(env: Env, disk: Disk, job: Job, f: Stage -> Fault)
    ensures After(env, disk, job, f).durable == if Commits(disk, job, f) then Moved(env, disk, job) else disk.durable
  {
    DurableAfterStop(disk, job, Moved(env, disk, job), BundleOf(env, disk, job), Stop(f), EndFault(f, Stop(f)));
  }

  lemma BuiltExactly(env: Env, disk: Disk, job: Job, f: Stage -> Fault)
    ensures OutcomeOf(env, disk, job, f).Built? <==> Commits(disk, job, f) && f(Returning) == Fine
  {
  }

  /** A build that succeeds returns the new head and the bundle that it names, and that bundle lies at its target. */
  lemma BuiltNamesBundle(env: Env, tables: set<string>, disk: Disk, job: Job, f: Stage -> Fault)
    requires Sound(env, disk, job, f) && job.batch.exports.Keys == tables
    requires OutcomeOf(env, disk, job, f).Built?
    ensures var built, after := OutcomeOf(env, disk, job, f), After(env, disk, job, f);
            && built.head == after.durable.head && built.head.bundle == Some(built.bundle)
            && built.head.releaseId == Some(job.batch.releaseId)
            && job.Target() in after.targets && CompleteBundle(env, tables, after.targets[job.Target()])
            && BundleDigest(env, after.targets[job.Target()]) == built.bundle
            && after.targets[job.Target()].database == job.batch.database
            && after.targets[job.Target()].exports == job.batch.exports
  {
    BuiltExactly(env, disk, job, f);
    CommitPassed(disk, job, f);
    DurableAfter(env, disk, job, f);
    MovedReleases(env, disk, job);
    BundleDirectoryComplete(env, tables, job.batch, disk.durable);
    BuiltTargets(env, disk, job, f);
  }

  lemma BuiltTargets(env: Env, disk: Disk, job: Job, f: Stage -> Fault)
    requires OutcomeOf(env, disk, job, f).Built?
    ensures After(env, disk, job, f).targets == disk.targets[job.Target() := BundleOf(env, disk, job)]
  {
  }

  /** What storage asks of a batch, in terms of its cases, its deltas, the issued rows and the releases. */
  lemma StorageAcceptsExactly(env: Env, batch: Batch, db: Database)
    ensures StorageAccepts(env, batch, db) <==>
            && 1 <= |batch.cases| <= 100000
            && (forall i :: 0 <= i < |batch.cases| ==>
                  env.validCaseId(batch.cases[i].caseId) && Hex64(batch.cases[i].content))
            && (forall i, j :: 0 <= i < j < |batch.cases| ==> batch.cases[i].caseId != batch.cases[j].caseId)
            && CorpusName(batch.releaseId)
            && (forall i :: 0 <= i < |db.releases| ==> db.releases[i].releaseId != batch.releaseId)
            && (forall i :: 0 <= i < |batch.cases| ==>
                  batch.cases[i].caseId in db.rows ==> db.rows[batch.cases[i].caseId].state == Active)
            && DeltasFollow(batch.deltas, batch.cases, db.rows)
  {
    forall i | 0 <= i < |batch.cases| ensures ValidSha(batch.cases[i].content) <==> Hex64(batch.cases[i].content) {
      GoodDigest(batch.cases[i].content);
    }
    GoodName(batch.releaseId);
    if DistinctIds(batch.cases) { DeltasFollowExactly(batch.deltas, batch.cases, db.rows); }
  }

  /** A build that nothing interrupts succeeds exactly when its target is free, its lease is given, its batch is
      accepted, and its bundle was never issued. */
  lemma UninterruptedBuild(env: Env, disk: Disk, job: Job)
    requires forall stage :: job.plan(stage) == Fine
    requires var input := BundleInput(env, job.batch, disk.durable);
             var rows := ProjectedRows(disk.durable.rows, Contents(input.cases), input.releaseId);
             var next := Committed(env, disk.durable, rows, input.releaseId, input.bundle);
             env.Valid() && NoCollision(env, Messages(disk.durable) + Messages(next))
    ensures OutcomeOf(env, disk, job, FaultsOf(env, disk, job)).Built?
            <==> job.Target() !in disk.targets && LeaseGiven(env, disk, job)
                 && StorageAccepts(env, job.batch, disk.durable)
                 && forall i :: 0 <= i < |disk.durable.releases| ==>
                      disk.durable.releases[i].bundle != BundleInput(env, job.batch, disk.durable).bundle
  {
    var f, input := FaultsOf(env, disk, job), BundleInput(env, job.batch, disk.durable);
    BuiltExactly(env, disk, job, f);
    UninterruptedCommits(env, disk, job);
    if LeaseGiven(env, disk, job) && StorageAccepts(env, job.batch, disk.durable) {
      CommitSucceedsExactly(env, disk.durable, input.cases, input.releaseId, input.bundle);
    }
  }

  /** Only the stages that also check something can stop the build. */
  lemma CommitsWhenChecked(disk: Disk, job: Job, f: Stage -> Fault)
    requires OutsideFaults(job, f) && job.plan(Exporting) == Fine && job.plan(WritingManifest) == Fine
    requires job.plan(Renaming) == Fine && job.plan(Syncing) == Fine && job.plan(Binding) == Fine
    requires job.plan(Returning) == Fine
    ensures Commits(disk, job, f)
            <==> job.Target() !in disk.targets && f(Acquiring) == Fine && f(Storing) == Fine && f(Committing) == Fine
  {
  }

  lemma UninterruptedCommits(env: Env, disk: Disk, job: Job)
    requires forall stage :: job.plan(stage) == Fine
    ensures var f := FaultsOf(env, disk, job);
            Commits(disk, job, f) && f(Returning) == Fine
            <==> job.Target() !in disk.targets && LeaseGiven(env, disk, job)
                 && StorageAccepts(env, job.batch, disk.durable)
                 && LeaseCommits(env, disk.durable, BundleInput(env, job.batch, disk.durable))
  {
    FaultsExactly(env, disk, job);
    CommitsWhenChecked(disk, job, FaultsOf(env, disk, job));
  }

  /** The registry moves exactly when nothing stops the build up to its COMMIT, and then as one abstract lease. */
  lemma RegistryMovesExactly(env: Env, disk: Disk, job: Job, f: Stage -> Fault)
    requires Sound(env, disk, job, f)
    ensures After(env, disk, job, f).durable != disk.durable <==> Commits(disk, job, f)
    ensures Commits(disk, job, f) ==> After(env, disk, job, f).durable == Moved(env, disk, job)
    ensures OutcomeOf(env, disk, job, f).Built? <==> Commits(disk, job, f) && f(Returning) == Fine
  {
    DurableAfter(env, disk, job, f);
    BuiltExactly(env, disk, job, f);
    CommitPassed(disk, job, f);
    if Commits(disk, job, f) { MovedReleases(env, disk, job); }
  }

  // ----- a directory that stays -----

  /** A batch with one new case, for an empty registry. */
  function OneCase(id: string, content: Digest, releaseId: string): Batch {
    var cases := [CaseVersion(id, content)];
    Batch(releaseId, cases, RunDeltas(Contents(cases), map[]), "", map[])
  }

  /** A build of it on an empty disk that nothing interrupts but the database engine, at the COMMIT. */
  function CommitFails(env: Env, batch: Batch): Job {
    Job(batch, 0, env.hash(GenesisMessage), None, None, "temporary",
        stage => if stage == Committing then Unhandled else Fine)
  }

  lemma OneCaseStored(env: Env, id: string, content: Digest, releaseId: string)
    requires env.validCaseId(id) && ValidSha(content) && ValidRelease(releaseId)
    ensures StorageAccepts(env, OneCase(id, content, releaseId), Genesis(env))
  {
    var cases := [CaseVersion(id, content)];
    DeltasMatchExactly(RunDeltas(Contents(cases), map[]), Contents(cases), map[]);
  }

  /** The lease is given, the batch is stored, the bundle is published and bound, and the COMMIT raises: the new
      directory stays, and the registry is the empty one. */
  lemma InterruptedCommitLeavesBundle(env: Env, id: string, content: Digest, releaseId: string)
    requires env.Valid() && env.validCaseId(id) && ValidSha(content) && ValidRelease(releaseId)
    ensures var disk := Disk(Genesis(env), false, map[], map[]);
            var job := CommitFails(env, OneCase(id, content, releaseId));
            var after := After(env, disk, job, FaultsOf(env, disk, job));
            && LeaseGiven(env, disk, job) && StorageAccepts(env, job.batch, disk.durable)
            && OutcomeOf(env, disk, job, FaultsOf(env, disk, job)) == Raised
            && after == disk.(targets := map[releaseId := BundleOf(env, disk, job)])
  {
    var disk := Disk(Genesis(env), false, map[], map[]);
    var job := CommitFails(env, OneCase(id, content, releaseId));
    GenesisAccepted(env);
    OneCaseStored(env, id, content, releaseId);
    OnlyCommitFaults(env, disk, job);
    CommitRaises(env, disk, job, FaultsOf(env, disk, job));
  }

  lemma CommitRaises(env: Env, disk: Disk, job: Job, f: Stage -> Fault)
    requires f(Committing) == Unhandled && forall stage :: stage != Committing ==> f(stage) == Fine
    requires job.Target() !in disk.targets
    ensures OutcomeOf(env, disk, job, f) == Raised
    ensures After(env, disk, job, f) == disk.(targets := disk.targets[job.Target() := BundleOf(env, disk, job)])
  {
    CommitFaultOnly(disk, job, f, Moved(env, disk, job), BundleOf(env, disk, job));
  }

  lemma GenesisAccepted(env: Env)
    requires env.Valid()
    ensures Accepted(env, Genesis(env))
  {
    ReachableAcceptedExactly(env, []);
  }

  /** Nothing but the engine interrupts a build whose lease is given and whose batch is accepted. */
  lemma OnlyCommitFaults(env: Env, disk: Disk, job: Job)
    requires job == CommitFails(env, job.batch)
    ensures LeaseGiven(env, disk, job) && StorageAccepts(env, job.batch, disk.durable) ==>
              var f := FaultsOf(env, disk, job);
              f(Committing) == Unhandled && forall stage :: stage != Committing ==> f(stage) == Fine
  {
  }

  lemma CommitFaultOnly(disk: Disk, job: Job, f: Stage -> Fault, moved: Database, bundle: Directory)
    requires f(Committing) == Unhandled && forall stage :: stage != Committing ==> f(stage) == Fine
    requires job.Target() !in disk.targets
    ensures Stop(f) == Some(Committing)
    ensures AfterStop(disk, job, moved, bundle, Stop(f), EndFault(f, Stop(f)))
            == disk.(targets := disk.targets[job.Target() := bundle])
  {
  }

  // ----- any sequence of builds -----

  /** A job and whether someone else holds the lock while it runs. */
  datatype Turn = Turn(job: Job, busy: bool)

  /** The disk a turn starts on, after the turns before it. */
  function Before(env: Env, front: seq<Turn>, turn: Turn): Disk { RunTurns(env, front).(locked := turn.busy) }

  function RunTurns(env: Env, turns: seq<Turn>): Disk
  {
    if turns == [] then Disk(Genesis(env), false, map[], map[])
    else
      var last := turns[|turns| - 1];
      var disk := RunTurns(env, turns[..|turns| - 1]).(locked := last.busy);
      After(env, disk, last.job, FaultsOf(env, disk, last.job)).(locked := false)
  }

  function TurnTraces(env: Env, turns: seq<Turn>): seq<Snapshot> {
    if turns == [] then []
    else
      var front, last := turns[..|turns| - 1], turns[|turns| - 1];
      var disk := Before(env, front, last);
      TurnTraces(env, front) + TraceOf(env, disk, last.job, FaultsOf(env, disk, last.job))
  }

  function TurnOutcomes(env: Env, turns: seq<Turn>): seq<Outcome> {
    if turns == [] then []
    else
      var front, last := turns[..|turns| - 1], turns[|turns| - 1];
      var disk := Before(env, front, last);
      TurnOutcomes(env, front) + [OutcomeOf(env, disk, last.job, FaultsOf(env, disk, last.job))]
  }

  /** The abstract leases of the builds that commit, in order. */
  function TurnInputs(env: Env, turns: seq<Turn>): seq<LeaseInput> {
    if turns == [] then []
    else
      var front, last := turns[..|turns| - 1], turns[|turns| - 1];
      var disk := Before(env, front, last);
      TurnInputs(env, front)
      + if Commits(disk, last.job, FaultsOf(env, disk, last.job)) then [BundleInput(env, last.job.batch, disk.durable)]
        else []
  }

  lemma {:induction false} TurnSnoc(env: Env, front: seq<Turn>, last: Turn)
    ensures var turns, disk := front + [last], Before(env, front, last);
            var f := FaultsOf(env, disk, last.job);
            && RunTurns(env, turns) == After(env, disk, last.job, f).(locked := false)
            && TurnTraces(env, turns) == TurnTraces(env, front) + TraceOf(env, disk, last.job, f)
            && TurnOutcomes(env, turns) == TurnOutcomes(env, front) + [OutcomeOf(env, disk, last.job, f)]
            && TurnInputs(env, turns)
               == TurnInputs(env, front)
                  + if Commits(disk, last.job, f) then [BundleInput(env, last.job.batch, disk.durable)] else []
  {
    assert (front + [last])[..|front|] == front;
  }

  lemma {:induction false} TurnIsLease(env: Env, db: Database, inputs: seq<LeaseInput>, disk: Disk, job: Job,
                                       f: Stage -> Fault)
    requires Sound(env, disk, job, f) && disk.durable == db == Run(env, inputs)
    ensures After(env, disk, job, f).durable
            == Run(env, inputs + if Commits(disk, job, f) then [BundleInput(env, job.batch, db)] else [])
  {
    RegistryMovesExactly(env, disk, job, f);
    if Commits(disk, job, f) {
      RunSnoc(env, inputs, BundleInput(env, job.batch, db));
    } else {
      assert inputs + [] == inputs;
    }
  }

  /** Any sequence of builds, each interrupted anywhere or not at all, is the run of the leases of those that commit;
      so its registry is accepted exactly while it is within the limits. */
  lemma {:induction false} BuildsAreLeases(env: Env, turns: seq<Turn>)
    requires env.Valid()
    ensures RunTurns(env, turns).durable == Run(env, TurnInputs(env, turns))
    ensures Accepted(env, RunTurns(env, turns).durable) <==> WithinLimits(RunTurns(env, turns).durable)
  {
    if turns != [] {
      var front, last := turns[..|turns| - 1], turns[|turns| - 1];
      assert turns == front + [last];
      BuildsAreLeases(env, front);
      TurnSnoc(env, front, last);
      var disk := Before(env, front, last);
      FaultsSound(env, disk, last.job);
      TurnIsLease(env, disk.durable, TurnInputs(env, front), disk, last.job, FaultsOf(env, disk, last.job));
    }
    ReachableAcceptedExactly(env, TurnInputs(env, turns));
  }

  predicate TurnsAllowed(tables: set<string>, turns: seq<Turn>) {
    forall i :: 0 <= i < |turns| ==>
      turns[i].job.batch.exports.Keys == tables && turns[i].job.plan(Returning) != Handled
  }

  lemma TraceEnds(env: Env, tables: set<string>, disk: Disk, job: Job, f: Stage -> Fault)
    requires AllPublished(env, tables, TraceOf(env, disk, job, f))
    ensures NamesOnlyPublished(env, tables, Visible(After(env, disk, job, f)))
  {
    var trace := TraceOf(env, disk, job, f);
    assert trace[|trace| - 1] == Visible(After(env, disk, job, f));
  }

  lemma TracesJoin(env: Env, tables: set<string>, a: seq<Snapshot>, b: seq<Snapshot>)
    requires AllPublished(env, tables, a) && AllPublished(env, tables, b)
    ensures AllPublished(env, tables, a + b)
  {
  }

  /** ... and every persistent state on the way names only published, complete bundles. */
  lemma {:induction false} TurnsPublishFirst(env: Env, tables: set<string>, turns: seq<Turn>)
    requires TurnsAllowed(tables, turns)
    ensures AllPublished(env, tables, TurnTraces(env, turns))
    ensures NamesOnlyPublished(env, tables, Visible(RunTurns(env, turns)))
  {
    if turns != [] {
      var front, last := turns[..|turns| - 1], turns[|turns| - 1];
      assert turns == front + [last];
      TurnsPublishFirst(env, tables, front);
      TurnSnoc(env, front, last);
      TurnPublishesFirst(env, tables, Before(env, front, last), last.job);
      var disk := Before(env, front, last);
      TracesJoin(env, tables, TurnTraces(env, front), TraceOf(env, disk, last.job, FaultsOf(env, disk, last.job)));
    }
  }

  lemma TurnPublishesFirst(env: Env, tables: set<string>, disk: Disk, job: Job)
    requires NamesOnlyPublished(env, tables, Visible(disk))
    requires job.batch.exports.Keys == tables && job.plan(Returning) != Handled
    ensures AllPublished(env, tables, TraceOf(env, disk, job, FaultsOf(env, disk, job)))
    ensures NamesOnlyPublished(env, tables, Visible(After(env, disk, job, FaultsOf(env, disk, job))))
  {
    FaultsSound(env, disk, job);
    PublishBeforeCommit(env, tables, disk, job, FaultsOf(env, disk, job));
    TraceEnds(env, tables, disk, job, FaultsOf(env, disk, job));
  }

  lemma NewTemporaries(env: Env, disk: Disk, job: Job, f: Stage -> Fault)
    ensures After(env, disk, job, f).temporaries.Keys <= disk.temporaries.Keys + {job.temporary}
  {
    NewTemporariesAt(disk, job, Moved(env, disk, job), BundleOf(env, disk, job), Stop(f), EndFault(f, Stop(f)));
  }

  lemma NewTemporariesAt(disk: Disk, job: Job, moved: Database, bundle: Directory, stop: Option<Stage>, fault: Fault)
    ensures AfterStop(disk, job, moved, bundle, stop, fault).temporaries.Keys
            <= disk.temporaries.Keys + {job.temporary}
  {
  }

  /** Temporary directories that stay bear the names of the builds that left them. */
  lemma {:induction false} TurnTemporaries(env: Env, turns: seq<Turn>, name: string)
    requires name in RunTurns(env, turns).temporaries
    ensures exists i :: 0 <= i < |turns| && turns[i].job.temporary == name
  {
    var front, last := turns[..|turns| - 1], turns[|turns| - 1];
    assert turns == front + [last];
    TurnTemporary(env, front, last, name);
    if name != last.job.temporary {
      TurnTemporaries(env, front, name);
      var i :| 0 <= i < |front| && front[i].job.temporary == name;
      assert turns[i] == front[i];
    }
  }

  lemma {:induction false} TurnTemporary(env: Env, front: seq<Turn>, last: Turn, name: string)
    ensures name in RunTurns(env, front + [last]).temporaries ==>
              name in RunTurns(env, front).temporaries || name == last.job.temporary
  {
    TurnSnoc(env, front, last);
    var disk := Before(env, front, last);
    NewTemporaries(env, disk, last.job, FaultsOf(env, disk, last.job));
  }
}
