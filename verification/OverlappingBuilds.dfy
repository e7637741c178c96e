/** Builds that overlap (src/corpus/build.py). */
module OverlappingBuilds {
  // Any number of builds over one disk, their steps interleaved in any order. Targets and temporary
  // directories are shared; the lock of the registry is held from the lease to the COMMIT or to the
  // failure, and the cleanup of a handled failure comes after it has been given up.

  import opened BuildStages
  import opened Issuance
  import opened IssuanceLease
  import opened Registry
  import opened Wrappers

  /** Where a build stands between two atomic steps. */
  datatype Pc =
    | Waiting | Checked | Made | Leased | Stored | Exported | Rendered | Renamed | Synced | Bound | Committed
    | Cleaning(published: bool)
    | Ended(ending: Ending)

  /** A build returns, fails as a handled failure does, lets an exception escape, or dies. */
  datatype Ending = Success | Failure | Escape | Death

  datatype Builds = Builds(disk: Disk, pcs: seq<Pc>)

  /** One step of a builder, and how it goes. */
  datatype Act = Act(builder: nat, fault: Fault)

  // ----- one step -----

  function Move(b: Builds, i: nat, pc: Pc, disk: Disk): (r: Builds)
    requires i < |b.pcs|
    ensures |r.pcs| == |b.pcs|
  {
    Builds(disk, b.pcs[i := pc])
  }

  /** An interruption: a handled one goes on to the cleanup, and whoever holds the lock gives it up. */
  function Interrupt(b: Builds, i: nat, fault: Fault, published: bool): (r: Builds)
    requires i < |b.pcs|
    ensures |r.pcs| == |b.pcs| && r.disk.durable == b.disk.durable
  {
    var disk := b.disk.(locked := b.disk.locked && !HoldsLock(b.pcs[i]));
    match fault
    case Crash => Move(b, i, Ended(Death), disk)
    case Handled => Move(b, i, Cleaning(published), disk)
    case _ => Move(b, i, Ended(Escape), disk)
  }

  predicate HoldsLock(pc: Pc) {
    pc.Leased? || pc.Stored? || pc.Exported? || pc.Rendered? || pc.Renamed? || pc.Synced? || pc.Bound?
  }

  /** The temporary directory gets its next contents. */
  function Write(b: Builds, i: nat, job: Job, d: Directory, pc: Pc): (r: Builds)
    requires i < |b.pcs|
    ensures |r.pcs| == |b.pcs| && r.disk.durable == b.disk.durable
  {
    Move(b, i, pc, b.disk.(temporaries := b.disk.temporaries[job.temporary := d]))
  }

  /** Up to the finished temporary directory. */
  function PrepareStep(job: Job, b: Builds, i: nat, fault: Fault, bundle: Directory, given: bool, stores: bool)
      : (r: Builds)
    requires i < |b.pcs|
    ensures |r.pcs| == |b.pcs| && r.disk.durable == b.disk.durable
  {
    match b.pcs[i]
    case Waiting =>
      if fault != Fine then Move(b, i, Ended(if fault == Crash then Death else Escape), b.disk)
      else if job.Target() in b.disk.targets then Move(b, i, Ended(Failure), b.disk)
      else Move(b, i, Checked, b.disk)
    case Checked =>
      if fault != Fine then Move(b, i, Ended(if fault == Crash then Death else Escape), b.disk)
      else Write(b, i, job, EMPTY_DIRECTORY, Made)
    case Made =>
      if fault != Fine then Interrupt(b, i, fault, false)
      else if !given then Interrupt(b, i, Handled, false)
      else Move(b, i, Leased, b.disk.(locked := true))
    case Leased =>
      if fault != Fine then Interrupt(b, i, fault, false)
      else if !stores then Interrupt(b, i, Handled, false)
      else Write(b, i, job, PartialDirectory(job, bundle, Exporting), Stored)
    case Stored =>
      if fault != Fine then Interrupt(b, i, fault, false)
      else Write(b, i, job, PartialDirectory(job, bundle, WritingManifest), Exported)
    case Exported =>
      if fault != Fine then Interrupt(b, i, fault, false)
      else Write(b, i, job, bundle, Rendered)
    case _ => b
  }

  /** The rename and what follows. */
  function FinishStep(job: Job, b: Builds, i: nat, fault: Fault, bundle: Directory, commits: bool, moved: Database)
      : (r: Builds)
    requires i < |b.pcs|
    ensures |r.pcs| == |b.pcs|
    ensures r.disk.durable == if b.pcs[i].Bound? && fault == Fine && commits then moved else b.disk.durable
  {
    var disk := b.disk;
    match b.pcs[i]
    case Rendered =>
      if fault != Fine then Interrupt(b, i, fault, false)
      else if job.Target() in disk.targets then Interrupt(b, i, Handled, false)
      else
        Move(b, i, Renamed,
             disk.(targets := PublishedTargets(disk, job, bundle), temporaries := disk.temporaries - {job.temporary}))
    case Renamed => if fault != Fine then Interrupt(b, i, fault, true) else Move(b, i, Synced, disk)
    case Synced =>
      if fault != Fine then Interrupt(b, i, fault, true)
      else if job.Target() !in disk.targets || disk.targets[job.Target()] != bundle then Interrupt(b, i, Handled, true)
      else Move(b, i, Bound, disk)
    case Bound =>
      if fault != Fine then Interrupt(b, i, fault, true)
      else if !commits then Interrupt(b, i, Unhandled, true)
      else Move(b, i, Committed, disk.(durable := moved, locked := false))
    case Committed =>
      if fault != Fine then Interrupt(b, i, fault, true) else Move(b, i, Ended(Success), disk)
    case Cleaning(published) =>
      if fault == Crash then Move(b, i, Ended(Death), disk)
      else Move(b, i, Ended(Failure), CleanedUp(disk, job, published))
    case _ => b
  }

  function Step(env: Env, jobs: seq<Job>, b: Builds, t: Act): (r: Builds)
    requires |jobs| == |b.pcs|
    ensures |r.pcs| == |b.pcs|
  {
    if t.builder >= |jobs| then b else BuilderStep(env, jobs[t.builder], b, t.builder, t.fault)
  }

  /** What the steps of a build look at besides targets and temporaries. */
  datatype View = View(bundle: Directory, given: bool, stores: bool, commits: bool, moved: Database)

  function ViewOf(env: Env, disk: Disk, job: Job): View {
    View(BundleOf(env, disk, job), LeaseGiven(env, disk, job), StorageAccepts(env, job.batch, disk.durable),
         LeaseCommits(env, disk.durable, BundleInput(env, job.batch, disk.durable)), Moved(env, disk, job))
  }

  function ViewStep(job: Job, b: Builds, i: nat, fault: Fault, v: View): (r: Builds)
    requires i < |b.pcs|
    ensures |r.pcs| == |b.pcs|
  {
    if Preparing(b.pcs[i]) then PrepareStep(job, b, i, fault, v.bundle, v.given, v.stores)
    else FinishStep(job, b, i, fault, v.bundle, v.commits, v.moved)
  }

  function BuilderStep(env: Env, job: Job, b: Builds, i: nat, fault: Fault): (r: Builds)
    requires i < |b.pcs|
    ensures |r.pcs| == |b.pcs|
  {
    ViewStep(job, b, i, fault, ViewOf(env, b.disk, job))
  }

  predicate Preparing(pc: Pc) { pc.Waiting? || pc.Checked? || pc.Made? || pc.Leased? || pc.Stored? || pc.Exported? }

  function RunBuilds(env: Env, jobs: seq<Job>, b: Builds, acts: seq<Act>): (r: Builds)
    requires |jobs| == |b.pcs|
    ensures |r.pcs| == |jobs|
  {
    if acts == [] then b else Step(env, jobs, RunBuilds(env, jobs, b, acts[..|acts| - 1]), acts[|acts| - 1])
  }

  /** Nobody has begun; every build exports the same tables, and has a temporary name of its own. */
  predicate Start(env: Env, tables: set<string>, jobs: seq<Job>, b: Builds) {
    && |b.pcs| == |jobs| && b.disk == Disk(Genesis(env), false, map[], map[])
    && (forall i :: 0 <= i < |jobs| ==> b.pcs[i].Waiting? && jobs[i].batch.exports.Keys == tables)
    && forall i, j :: 0 <= i < j < |jobs| ==> jobs[i].temporary != jobs[j].temporary
  }

  // ----- the invariant -----

  predicate Holds(b: Builds, i: nat)
    requires i < |b.pcs|
  {
    HoldsLock(b.pcs[i])
  }

  /** The directory at the target of `i` is its own, and it may still remove it. */
  predicate Owns(b: Builds, i: nat)
    requires i < |b.pcs|
  {
    InPlace(b, i) || b.pcs[i] == Cleaning(true)
  }

  predicate InPlace(b: Builds, i: nat)
    requires i < |b.pcs|
  {
    b.pcs[i].Renamed? || b.pcs[i].Synced? || b.pcs[i].Bound?
  }

  /** One build at most holds the lock. */
  predicate OneHolds(b: Builds) {
    && (forall i, j :: 0 <= i < j < |b.pcs| ==> !(Holds(b, i) && Holds(b, j)))
    && forall i :: 0 <= i < |b.pcs| && Holds(b, i) ==> b.disk.locked
  }

  /** Owned targets are there, and each is owned by one build. */
  predicate OwnTargets(jobs: seq<Job>, b: Builds)
    requires |jobs| == |b.pcs|
  {
    && (forall i :: 0 <= i < |jobs| && Owns(b, i) ==> jobs[i].Target() in b.disk.targets)
    && forall i, j :: 0 <= i < j < |jobs| && Owns(b, i) && Owns(b, j) ==> jobs[i].Target() != jobs[j].Target()
  }

  /** What a build has in place is its bundle on top of the registry. */
  predicate OwnBundles(env: Env, jobs: seq<Job>, b: Builds)
    requires |jobs| == |b.pcs|
  {
    forall i :: 0 <= i < |jobs| && InPlace(b, i) && jobs[i].Target() in b.disk.targets ==>
      b.disk.targets[jobs[i].Target()] == BundleOf(env, b.disk, jobs[i])
  }

  /** A complete bundle with this digest lies at `path`, and no build may remove it. */
  predicate KeptAt(env: Env, tables: set<string>, jobs: seq<Job>, b: Builds, path: string, bundle: Digest)
    requires |jobs| == |b.pcs|
  {
    && path in b.disk.targets && CompleteBundle(env, tables, b.disk.targets[path])
    && BundleDigest(env, b.disk.targets[path]) == bundle
    && forall i :: 0 <= i < |jobs| && Owns(b, i) ==> jobs[i].Target() != path
  }

  ghost predicate Kept(env: Env, tables: set<string>, jobs: seq<Job>, b: Builds, bundle: Digest)
    requires |jobs| == |b.pcs|
  {
    exists path :: KeptAt(env, tables, jobs, b, path, bundle)
  }

  /** Every release that the registry names is kept. */
  ghost predicate AllKept(env: Env, tables: set<string>, jobs: seq<Job>, b: Builds)
    requires |jobs| == |b.pcs|
  {
    forall k :: 0 <= k < |b.disk.durable.releases| ==> Kept(env, tables, jobs, b, b.disk.durable.releases[k].bundle)
  }

  ghost predicate Inv(env: Env, tables: set<string>, jobs: seq<Job>, b: Builds) {
    && |b.pcs| == |jobs| && OneHolds(b) && OwnTargets(jobs, b) && OwnBundles(env, jobs, b)
      && AllKept(env, tables, jobs, b)
    && forall i :: 0 <= i < |jobs| ==> jobs[i].batch.exports.Keys == tables
  }

  // ----- steps that leave targets and registry alone -----

  /** One build moves, the lock follows it, and targets and registry stay. */
  predicate Quiet(b: Builds, next: Builds, i: nat)
    requires i < |b.pcs|
  {
    && |next.pcs| == |b.pcs| && next.disk.targets == b.disk.targets && next.disk.durable == b.disk.durable
    && (forall j :: 0 <= j < |b.pcs| && j != i ==> next.pcs[j] == b.pcs[j])
    && (Owns(next, i) ==> Owns(b, i)) && (InPlace(next, i) ==> InPlace(b, i))
    && (Holds(next, i) ==> next.disk.locked && (Holds(b, i) || !b.disk.locked))
    && (b.disk.locked && !next.disk.locked ==> Holds(b, i))
  }

  lemma QuietLock(b: Builds, next: Builds, i: nat)
    requires i < |b.pcs| && Quiet(b, next, i) && OneHolds(b)
    ensures OneHolds(next)
  {
    forall j | 0 <= j < |b.pcs| && j != i ensures Holds(next, j) == Holds(b, j) {}
    forall j | 0 <= j < |b.pcs| && j != i && Holds(b, i) ensures !Holds(b, j) { assert i < j || j < i; }
  }

  lemma QuietOwners(b: Builds, next: Builds, i: nat, j: nat)
    requires i < |b.pcs| && Quiet(b, next, i) && j < |b.pcs|
    ensures (Owns(next, j) ==> Owns(b, j)) && (InPlace(next, j) ==> InPlace(b, j))
  {
  }

  lemma QuietKept(env: Env, tables: set<string>, jobs: seq<Job>, b: Builds, next: Builds, i: nat, bundle: Digest)
    requires |jobs| == |b.pcs| && i < |jobs| && Quiet(b, next, i) && Kept(env, tables, jobs, b, bundle)
    ensures Kept(env, tables, jobs, next, bundle)
  {
    var path :| KeptAt(env, tables, jobs, b, path, bundle);
    forall j | 0 <= j < |jobs| && Owns(next, j) ensures jobs[j].Target() != path { QuietOwners(b, next, i, j); }
    assert KeptAt(env, tables, jobs, next, path, bundle);
  }

  lemma QuietKeepsInv(env: Env, tables: set<string>, jobs: seq<Job>, b: Builds, next: Builds, i: nat)
    requires Inv(env, tables, jobs, b) && i < |jobs| && Quiet(b, next, i)
    ensures Inv(env, tables, jobs, next)
  {
    QuietLock(b, next, i);
    forall j | 0 <= j < |jobs| ensures (Owns(next, j) ==> Owns(b, j)) && (InPlace(next, j) ==> InPlace(b, j)) {
      QuietOwners(b, next, i, j);
    }
    forall k | 0 <= k < |b.disk.durable.releases|
      ensures Kept(env, tables, jobs, next, b.disk.durable.releases[k].bundle) {
      QuietKept(env, tables, jobs, b, next, i, b.disk.durable.releases[k].bundle);
    }
  }

  lemma InterruptIsQuiet(b: Builds, i: nat, fault: Fault, published: bool)
    requires i < |b.pcs| && OneHolds(b) && fault != Fine && (published && fault == Handled ==> InPlace(b, i))
    ensures Quiet(b, Interrupt(b, i, fault, published), i)
  {
  }

  /** Writing, or moving on, under the same lock. */
  lemma MoveIsQuiet(b: Builds, i: nat, pc: Pc, disk: Disk)
    requires i < |b.pcs| && OneHolds(b) && disk.targets == b.disk.targets && disk.durable == b.disk.durable
    requires disk.locked == b.disk.locked && (HoldsLock(pc) ==> Holds(b, i)) && pc != Cleaning(true)
    requires pc.Renamed? || pc.Synced? || pc.Bound? ==> InPlace(b, i)
    ensures Quiet(b, Move(b, i, pc, disk), i)
  {
  }

  lemma PrepareIsQuiet(job: Job, b: Builds, i: nat, fault: Fault, bundle: Directory, given: bool, stores: bool)
    requires i < |b.pcs| && OneHolds(b) && Preparing(b.pcs[i]) && (given ==> !b.disk.locked)
    ensures Quiet(b, PrepareStep(job, b, i, fault, bundle, given, stores), i)
  {
    assert Holds(b, i) ==> b.disk.locked;
    if fault != Fine { InterruptIsQuiet(b, i, fault, false); }
    InterruptIsQuiet(b, i, Handled, false);
  }

  // ----- the rename, the COMMIT, and the cleanup -----

  /** A renamed bundle clobbers nothing that is kept or owned. */
  lemma RenameKeepsInv(env: Env, tables: set<string>, jobs: seq<Job>, b: Builds, i: nat, next: Builds)
    requires Inv(env, tables, jobs, b) && i < |jobs| && b.pcs[i].Rendered? && jobs[i].Target() !in b.disk.targets
    requires next.pcs == b.pcs[i := Renamed] && next.disk.durable == b.disk.durable && next.disk.locked == b.disk.locked
    requires next.disk.targets == b.disk.targets[jobs[i].Target() := BundleOf(env, b.disk, jobs[i])]
    ensures Inv(env, tables, jobs, next)
  {
    RenameOwners(b, i, next);
    OwnTargetsGrow(jobs, b, i, next);
    forall k | 0 <= k < |b.disk.durable.releases|
      ensures Kept(env, tables, jobs, next, b.disk.durable.releases[k].bundle) {
      RenameKeeps(env, tables, jobs, b, i, next, b.disk.durable.releases[k].bundle);
    }
    forall j | 0 <= j < |jobs| && InPlace(next, j)
      ensures j == i
    {
      assert Holds(next, i) && Holds(next, j) && (i < j || j < i || i == j);
    }
  }

  lemma RenameOwners(b: Builds, i: nat, next: Builds)
    requires i < |b.pcs| && OneHolds(b) && b.pcs[i].Rendered? && next.pcs == b.pcs[i := Renamed]
             && next.disk.locked == b.disk.locked
    ensures OneHolds(next) && Owns(next, i) && !Owns(b, i)
    ensures forall j :: 0 <= j < |b.pcs| && j != i ==> (Owns(next, j) <==> Owns(b, j))
  {
    forall j | 0 <= j < |b.pcs| ensures Holds(next, j) == Holds(b, j) {}
  }

  lemma OwnTargetsGrow(jobs: seq<Job>, b: Builds, i: nat, next: Builds)
    requires |jobs| == |b.pcs| == |next.pcs| && i < |jobs| && OwnTargets(jobs, b) && jobs[i].Target() !in b.disk.targets
    requires b.disk.targets.Keys + {jobs[i].Target()} == next.disk.targets.Keys
    requires forall j :: 0 <= j < |b.pcs| && j != i ==> (Owns(next, j) <==> Owns(b, j))
    ensures OwnTargets(jobs, next)
  {
  }

  lemma RenameKeeps(env: Env, tables: set<string>, jobs: seq<Job>, b: Builds, i: nat, next: Builds, bundle: Digest)
    requires |jobs| == |b.pcs| == |next.pcs| && i < |jobs| && jobs[i].Target() !in b.disk.targets
    requires Kept(env, tables, jobs, b, bundle)
    requires forall path :: path in b.disk.targets ==>
              path in next.disk.targets && next.disk.targets[path] == b.disk.targets[path]
    requires forall j :: 0 <= j < |b.pcs| && j != i ==> (Owns(next, j) <==> Owns(b, j))
    ensures Kept(env, tables, jobs, next, bundle)
  {
    var path :| KeptAt(env, tables, jobs, b, path, bundle);
    assert KeptAt(env, tables, jobs, next, path, bundle);
  }

  /** The COMMIT names the bundle that its build has in place, and from then on nobody may remove it. */
  lemma CommitKeepsInv(env: Env, tables: set<string>, jobs: seq<Job>, b: Builds, i: nat, next: Builds)
    requires Inv(env, tables, jobs, b) && i < |jobs| && b.pcs[i].Bound?
    requires next.pcs == b.pcs[i := Committed] && next.disk.targets == b.disk.targets && !next.disk.locked
    requires next.disk.durable == Moved(env, b.disk, jobs[i])
    requires LeaseCommits(env, b.disk.durable, BundleInput(env, jobs[i].batch, b.disk.durable))
    ensures Inv(env, tables, jobs, next)
  {
    CommitOwners(b, i, next);
    MovedReleases(env, b.disk, jobs[i]);
    CommittedKept(env, tables, jobs, b, i, next);
    ReleasesKept(env, tables, jobs, b, i, next, b.disk.durable, next.disk.durable);
  }

  lemma ReleasesKept(env: Env, tables: set<string>, jobs: seq<Job>, b: Builds, i: nat, next: Builds, db: Database,
                     moved: Database)
    requires |jobs| == |b.pcs| == |next.pcs| && next.disk.targets == b.disk.targets && AllKept(env, tables, jobs, b)
    requires db == b.disk.durable && moved == next.disk.durable
    requires forall j :: 0 <= j < |jobs| && Owns(next, j) ==> Owns(b, j)
    requires |moved.releases| == |db.releases| + 1 && moved.releases[..|db.releases|] == db.releases
    requires Kept(env, tables, jobs, next, moved.releases[|db.releases|].bundle)
    ensures AllKept(env, tables, jobs, next)
  {
    forall k | 0 <= k < |db.releases| ensures Kept(env, tables, jobs, next, moved.releases[k].bundle) {
      assert moved.releases[k] == moved.releases[..|db.releases|][k];
      StaysKept(env, tables, jobs, b, i, next, db.releases[k].bundle);
    }
  }

  lemma CommitOwners(b: Builds, i: nat, next: Builds)
    requires i < |b.pcs| && OneHolds(b) && b.pcs[i].Bound? && next.pcs == b.pcs[i := Committed]
    ensures OneHolds(next)
    ensures forall j :: 0 <= j < |b.pcs| ==> (Owns(next, j) <==> Owns(b, j) && j != i) && !InPlace(next, j)
  {
    forall j | 0 <= j < |b.pcs| && j != i ensures !Holds(b, j) && next.pcs[j] == b.pcs[j] {
      assert Holds(b, i) && (i < j || j < i);
    }
  }

  /** Fewer owners over the same targets. */
  lemma StaysKept(env: Env, tables: set<string>, jobs: seq<Job>, b: Builds, i: nat, next: Builds, bundle: Digest)
    requires |jobs| == |b.pcs| == |next.pcs| && next.disk.targets == b.disk.targets
             && Kept(env, tables, jobs, b, bundle)
    requires forall j :: 0 <= j < |jobs| && Owns(next, j) ==> Owns(b, j)
    ensures Kept(env, tables, jobs, next, bundle)
  {
    var path :| KeptAt(env, tables, jobs, b, path, bundle);
    assert KeptAt(env, tables, jobs, next, path, bundle);
  }

  lemma CommittedKept(env: Env, tables: set<string>, jobs: seq<Job>, b: Builds, i: nat, next: Builds)
    requires Inv(env, tables, jobs, b) && i < |jobs| && b.pcs[i].Bound? && |next.pcs| == |jobs|
    requires next.disk.targets == b.disk.targets
    requires forall j :: 0 <= j < |jobs| && Owns(next, j) ==> Owns(b, j) && j != i
    ensures Kept(env, tables, jobs, next, BundleInput(env, jobs[i].batch, b.disk.durable).bundle)
  {
    var path := jobs[i].Target();
    assert Owns(b, i) && InPlace(b, i);
    BundleDirectoryComplete(env, tables, jobs[i].batch, b.disk.durable);
    forall j | 0 <= j < |jobs| && Owns(next, j) ensures jobs[j].Target() != path { assert i < j || j < i; }
    assert KeptAt(env, tables, jobs, next, path, BundleInput(env, jobs[i].batch, b.disk.durable).bundle);
  }

  /** The cleanup removes only what its build owns, and nothing that is kept. */
  lemma CleanupKeepsInv(env: Env, tables: set<string>, jobs: seq<Job>, b: Builds, i: nat, next: Builds)
    requires Inv(env, tables, jobs, b) && i < |jobs| && b.pcs[i] == Cleaning(true)
             && next.pcs == b.pcs[i := Ended(Failure)]
    requires next.disk.targets == b.disk.targets - {jobs[i].Target()}
    requires next.disk.durable == b.disk.durable && next.disk.locked == b.disk.locked
    ensures Inv(env, tables, jobs, next)
  {
    forall j | 0 <= j < |jobs| && j != i
      ensures Holds(next, j) == Holds(b, j) && Owns(next, j) == Owns(b, j) && InPlace(next, j) == InPlace(b, j)
      ensures Owns(b, j) ==> jobs[j].Target() != jobs[i].Target()
    {
      assert Owns(b, i) && (i < j || j < i);
    }
    assert OneHolds(next) && OwnTargets(jobs, next);
    forall k | 0 <= k < |b.disk.durable.releases|
      ensures Kept(env, tables, jobs, next, b.disk.durable.releases[k].bundle) {
      var bundle := b.disk.durable.releases[k].bundle;
      assert Kept(env, tables, jobs, b, bundle);
      var path :| KeptAt(env, tables, jobs, b, path, bundle);
      assert Owns(b, i) && path != jobs[i].Target();
      assert KeptAt(env, tables, jobs, next, path, bundle);
    }
  }

  // ----- every schedule -----

  /** The steps after the rename that change nothing but their build. */
  lemma FinishIsQuiet(job: Job, b: Builds, i: nat, fault: Fault, bundle: Directory, commits: bool, moved: Database)
    requires i < |b.pcs| && OneHolds(b) && !Preparing(b.pcs[i])
    requires b.pcs[i].Rendered? ==> fault != Fine || job.Target() in b.disk.targets
    requires b.pcs[i].Bound? ==> fault != Fine || !commits
    requires b.pcs[i] == Cleaning(true) ==> fault == Crash
    requires b.pcs[i].Committed? ==> fault != Handled
    ensures Quiet(b, FinishStep(job, b, i, fault, bundle, commits, moved), i)
  {
    assert Holds(b, i) ==> b.disk.locked;
    var published := InPlace(b, i) || b.pcs[i].Committed?;
    if fault != Fine { InterruptIsQuiet(b, i, fault, published); }
    if !b.pcs[i].Committed? { InterruptIsQuiet(b, i, Handled, published); }
    InterruptIsQuiet(b, i, Unhandled, published);
  }

  /** No exception that the cleanup catches comes after the COMMIT. */
  predicate Allowed(b: Builds, t: Act) {
    t.builder < |b.pcs| && b.pcs[t.builder].Committed? ==> t.fault != Handled
  }

  predicate AllAllowed(env: Env, jobs: seq<Job>, b: Builds, acts: seq<Act>)
    requires |jobs| == |b.pcs|
  {
    acts != [] ==>
      var front := acts[..|acts| - 1];
      AllAllowed(env, jobs, b, front) && Allowed(RunBuilds(env, jobs, b, front), acts[|acts| - 1])
  }

  lemma StepKeepsInv(env: Env, tables: set<string>, jobs: seq<Job>, b: Builds, t: Act)
    requires Inv(env, tables, jobs, b) && Allowed(b, t)
    ensures Inv(env, tables, jobs, Step(env, jobs, b, t))
  {
    var i := t.builder;
    if i < |jobs| {
      if Preparing(b.pcs[i]) {
        PrepareKeepsInv(env, tables, jobs, b, i, t.fault, BundleOf(env, b.disk, jobs[i]),
                        LeaseGiven(env, b.disk, jobs[i]),
                        StorageAccepts(env, jobs[i].batch, b.disk.durable));
      } else {
        FinishKeepsInv(env, tables, jobs, b, i, t.fault, BundleOf(env, b.disk, jobs[i]),
                       LeaseCommits(env, b.disk.durable, BundleInput(env, jobs[i].batch, b.disk.durable)),
                       Moved(env, b.disk, jobs[i]));
      }
    }
  }

  lemma PrepareKeepsInv(env: Env, tables: set<string>, jobs: seq<Job>, b: Builds, i: nat, fault: Fault,
                        bundle: Directory,
                        given: bool, stores: bool)
    requires Inv(env, tables, jobs, b) && i < |jobs| && Preparing(b.pcs[i]) && (given ==> !b.disk.locked)
    ensures Inv(env, tables, jobs, PrepareStep(jobs[i], b, i, fault, bundle, given, stores))
  {
    PrepareIsQuiet(jobs[i], b, i, fault, bundle, given, stores);
    QuietKeepsInv(env, tables, jobs, b, PrepareStep(jobs[i], b, i, fault, bundle, given, stores), i);
  }

  lemma FinishKeepsInv(env: Env, tables: set<string>, jobs: seq<Job>, b: Builds, i: nat, fault: Fault,
                       bundle: Directory,
                       commits: bool, moved: Database)
    requires Inv(env, tables, jobs, b) && i < |jobs| && !Preparing(b.pcs[i])
             && (b.pcs[i].Committed? ==> fault != Handled)
    requires bundle == BundleOf(env, b.disk, jobs[i]) && moved == Moved(env, b.disk, jobs[i])
    requires commits ==> LeaseCommits(env, b.disk.durable, BundleInput(env, jobs[i].batch, b.disk.durable))
    ensures Inv(env, tables, jobs, FinishStep(jobs[i], b, i, fault, bundle, commits, moved))
  {
    var next, job := FinishStep(jobs[i], b, i, fault, bundle, commits, moved), jobs[i];
    if b.pcs[i].Rendered? && fault == Fine && job.Target() !in b.disk.targets {
      RenameKeepsInv(env, tables, jobs, b, i, next);
    } else if b.pcs[i].Bound? && fault == Fine && commits {
      CommitKeepsInv(env, tables, jobs, b, i, next);
    } else if b.pcs[i] == Cleaning(true) && fault != Crash {
      CleanupKeepsInv(env, tables, jobs, b, i, next);
    } else {
      FinishIsQuiet(job, b, i, fault, bundle, commits, moved);
      QuietKeepsInv(env, tables, jobs, b, next, i);
    }
  }

  lemma StartInv(env: Env, tables: set<string>, jobs: seq<Job>, b: Builds)
    requires Start(env, tables, jobs, b)
    ensures Inv(env, tables, jobs, b)
  {
  }

  lemma {:induction false} RunKeepsInv(env: Env, tables: set<string>, jobs: seq<Job>, b: Builds, acts: seq<Act>)
    requires Inv(env, tables, jobs, b) && AllAllowed(env, jobs, b, acts)
    ensures Inv(env, tables, jobs, RunBuilds(env, jobs, b, acts))
  {
    if acts != [] {
      var n := |acts| - 1;
      RunKeepsInv(env, tables, jobs, b, acts[..n]);
      StepKeepsInv(env, tables, jobs, RunBuilds(env, jobs, b, acts[..n]), acts[n]);
    }
  }

  /** However builds overlap and wherever each is interrupted, the registry only ever names bundles that are in place
      and complete. */
  lemma {:induction false} AlwaysPublished(env: Env, tables: set<string>, jobs: seq<Job>, b: Builds, acts: seq<Act>)
    requires Start(env, tables, jobs, b) && AllAllowed(env, jobs, b, acts)
    ensures NamesOnlyPublished(env, tables, Visible(RunBuilds(env, jobs, b, acts).disk))
  {
    StartInv(env, tables, jobs, b);
    RunKeepsInv(env, tables, jobs, b, acts);
    var r := RunBuilds(env, jobs, b, acts);
    forall k | 0 <= k < |r.disk.durable.releases|
      ensures Published(env, tables, r.disk.targets, r.disk.durable.releases[k].bundle)
    {
      assert Kept(env, tables, jobs, r, r.disk.durable.releases[k].bundle);
      var path :| KeptAt(env, tables, jobs, r, path, r.disk.durable.releases[k].bundle);
    }
  }

  /** One build at most is between its lease and its COMMIT. */
  lemma {:induction false} LeasesExclude(env: Env, tables: set<string>, jobs: seq<Job>, b: Builds, acts: seq<Act>,
                                         i: nat, j: nat)
    requires Start(env, tables, jobs, b) && AllAllowed(env, jobs, b, acts) && i < j < |jobs|
    ensures var r := RunBuilds(env, jobs, b, acts); !(Holds(r, i) && Holds(r, j))
  {
    StartInv(env, tables, jobs, b);
    RunKeepsInv(env, tables, jobs, b, acts);
  }

  // ----- the registry is a run of leases -----

  predicate CommitsNow(env: Env, jobs: seq<Job>, b: Builds, t: Act)
    requires |jobs| == |b.pcs|
  {
    && t.builder < |jobs| && b.pcs[t.builder].Bound? && t.fault == Fine
    && LeaseCommits(env, b.disk.durable, BundleInput(env, jobs[t.builder].batch, b.disk.durable))
  }

  /** The abstract leases of the builds that commit, in the order of their COMMITs. */
  function Inputs(env: Env, jobs: seq<Job>, b: Builds, acts: seq<Act>): seq<LeaseInput>
    requires |jobs| == |b.pcs|
  {
    if acts == [] then []
    else
      var front, t := acts[..|acts| - 1], acts[|acts| - 1];
      var before := RunBuilds(env, jobs, b, front);
      Inputs(env, jobs, b, front)
      + if CommitsNow(env, jobs, before, t) then [BundleInput(env, jobs[t.builder].batch, before.disk.durable)] else []
  }

  lemma DurableStep(env: Env, jobs: seq<Job>, b: Builds, t: Act)
    requires |jobs| == |b.pcs|
    ensures Step(env, jobs, b, t).disk.durable
            == if CommitsNow(env, jobs, b, t) then Moved(env, b.disk, jobs[t.builder]) else b.disk.durable
  {
  }

  lemma {:induction false} InputsStep(env: Env, jobs: seq<Job>, b: Builds, front: seq<Act>, t: Act)
    requires |jobs| == |b.pcs|
    ensures var before := RunBuilds(env, jobs, b, front);
            before.disk.durable == Run(env, Inputs(env, jobs, b, front)) ==>
              Step(env, jobs, before, t).disk.durable == Run(env, Inputs(env, jobs, b, front + [t]))
  {
    var before := RunBuilds(env, jobs, b, front);
    DurableStep(env, jobs, before, t);
    InputsMore(env, jobs, b, front, t);
    if CommitsNow(env, jobs, before, t) {
      RunSnoc(env, Inputs(env, jobs, b, front), BundleInput(env, jobs[t.builder].batch, before.disk.durable));
    }
  }

  lemma {:induction false} InputsMore(env: Env, jobs: seq<Job>, b: Builds, front: seq<Act>, t: Act)
    requires |jobs| == |b.pcs|
    ensures var before := RunBuilds(env, jobs, b, front);
            Inputs(env, jobs, b, front + [t])
            == if CommitsNow(env, jobs, before, t) then
                 Inputs(env, jobs, b, front) + [BundleInput(env, jobs[t.builder].batch, before.disk.durable)]
               else Inputs(env, jobs, b, front)
  {
    assert (front + [t])[..|front|] == front;
    assert Inputs(env, jobs, b, front) + [] == Inputs(env, jobs, b, front);
  }

  lemma {:induction false} DurableIsRun(env: Env, jobs: seq<Job>, b: Builds, acts: seq<Act>)
    requires |jobs| == |b.pcs| && b.disk.durable == Genesis(env)
    ensures RunBuilds(env, jobs, b, acts).disk.durable == Run(env, Inputs(env, jobs, b, acts))
  {
    if acts != [] {
      var front, t := acts[..|acts| - 1], acts[|acts| - 1];
      assert acts == front + [t];
      DurableIsRun(env, jobs, b, front);
      InputsStep(env, jobs, b, front, t);
    }
  }

  /** However builds overlap, the registry is what the committed leases make of it, one after the other; so it is
      accepted exactly while it is within its limits. */
  lemma {:induction false} RegistryIsRun(env: Env, tables: set<string>, jobs: seq<Job>, b: Builds, acts: seq<Act>)
    requires env.Valid() && Start(env, tables, jobs, b)
    ensures var db := RunBuilds(env, jobs, b, acts).disk.durable;
            db == Run(env, Inputs(env, jobs, b, acts)) && (Accepted(env, db) <==> WithinLimits(db))
  {
    DurableIsRun(env, jobs, b, acts);
    ReachableAcceptedExactly(env, Inputs(env, jobs, b, acts));
  }

  // ----- a build that nobody overlaps -----

  /** Alone on its disk, a build takes the steps of its stages. */
  function StagePc(stage: Stage): Pc {
    match stage
    case Acquiring => Made
    case Storing => Leased
    case Exporting => Stored
    case WritingManifest => Exported
    case Renaming => Rendered
    case Syncing => Renamed
    case Binding => Synced
    case Committing => Bound
    case Returning => Committed
  }

  function StageDisk(disk: Disk, job: Job, v: View, stage: Stage): Disk {
    if stage.Acquiring? then disk.(temporaries := disk.temporaries[job.temporary := EMPTY_DIRECTORY])
    else if BeforeRename(stage) then disk.(locked := true, temporaries := LeftTemporaries(disk, job, v.bundle, stage))
    else if stage.Returning? then disk.(durable := v.moved, targets := PublishedTargets(disk, job, v.bundle))
    else disk.(locked := true, targets := PublishedTargets(disk, job, v.bundle))
  }

  function StageState(disk: Disk, job: Job, v: View, stage: Stage): Builds {
    Builds(StageDisk(disk, job, v, stage), [StagePc(stage)])
  }

  function Next(stage: Stage): Stage {
    match stage
    case Acquiring => Storing
    case Storing => Exporting
    case Exporting => WritingManifest
    case WritingManifest => Renaming
    case Renaming => Syncing
    case Syncing => Binding
    case Binding => Committing
    case _ => Returning
  }

  /** What the steps themselves find wrong. */
  function OwnFault(v: View, stage: Stage): Fault {
    if stage.Acquiring? && !v.given then Handled
    else if stage.Storing? && !v.stores then Handled
    else if stage.Committing? && !v.commits then Unhandled
    else Fine
  }

  /** A name for the target and for the temporary directory, and a lock that is free. */
  predicate FreeFor(disk: Disk, job: Job) {
    job.Target() !in disk.targets && job.temporary !in disk.temporaries && !disk.locked
  }

  lemma PassedEarly(disk: Disk, job: Job, v: View, stage: Stage)
    requires FreeFor(disk, job) && OwnFault(v, stage) == Fine && BeforeRename(stage) && !stage.Renaming?
    ensures ViewStep(job, StageState(disk, job, v, stage), 0, Fine, v) == StageState(disk, job, v, Next(stage))
  {
  }

  lemma PassedLate(disk: Disk, job: Job, v: View, stage: Stage)
    requires FreeFor(disk, job) && OwnFault(v, stage) == Fine && (stage.Renaming? || !BeforeRename(stage))
             && !stage.Returning?
    ensures ViewStep(job, StageState(disk, job, v, stage), 0, Fine, v) == StageState(disk, job, v, Next(stage))
  {
    if stage.Renaming? { assert LeftTemporaries(disk, job, v.bundle, Renaming) - {job.temporary} == disk.temporaries; }
  }

  /** A single build from `b` on, with these faults at its steps. */
  function SoloRun(job: Job, b: Builds, v: View, faults: seq<Fault>): (r: Builds)
    requires |b.pcs| == 1
    ensures |r.pcs| == 1
    decreases |faults|
  {
    if faults == [] then b else SoloRun(job, ViewStep(job, b, 0, faults[0], v), v, faults[1..])
  }

  /** The steps of an interruption: the one that is interrupted, and the cleanup of a handled one. */
  function InterruptionFaults(plan: Fault, end: Fault): seq<Fault> { if end == Handled then [plan, Fine] else [plan] }

  lemma {:induction false} InterruptedEarly(disk: Disk, job: Job, v: View, stage: Stage, plan: Fault, end: Fault)
    requires FreeFor(disk, job) && BeforeRename(stage)
    requires end == (if plan != Fine then plan else OwnFault(v, stage)) && end != Fine
    ensures SoloRun(job, StageState(disk, job, v, stage), v, InterruptionFaults(plan, end)).disk
            == AfterStop(disk, job, v.moved, v.bundle, Some(stage), end)
  {
    TemporaryRemoved(disk, job, PartialDirectory(job, v.bundle, stage));
    TwoSteps(job, StageState(disk, job, v, stage), v, plan);
  }

  lemma {:induction false} InterruptedLate(disk: Disk, job: Job, v: View, stage: Stage, plan: Fault, end: Fault)
    requires FreeFor(disk, job) && !BeforeRename(stage)
    requires end == (if plan != Fine then plan else OwnFault(v, stage)) && end != Fine
    ensures SoloRun(job, StageState(disk, job, v, stage), v, InterruptionFaults(plan, end)).disk
            == AfterStop(disk, job, v.moved, v.bundle, Some(stage), end)
  {
    TargetRemoved(disk, job, if stage.Returning? then v.moved else disk.durable, v.bundle);
    TwoSteps(job, StageState(disk, job, v, stage), v, plan);
  }

  lemma {:induction false} TwoSteps(job: Job, b: Builds, v: View, plan: Fault)
    requires |b.pcs| == 1
    ensures SoloRun(job, b, v, [plan]) == ViewStep(job, b, 0, plan, v)
    ensures SoloRun(job, b, v, [plan, Fine]) == ViewStep(job, ViewStep(job, b, 0, plan, v), 0, Fine, v)
  {
    assert [plan][1..] == [] && [plan, Fine][1..] == [Fine] && [Fine][1..] == [];
  }

  /** Every interruption of a build: planned, or found by its own step. */
  predicate FaultsAre(job: Job, v: View, f: Stage -> Fault) {
    forall stage :: f(stage) == if job.plan(stage) != Fine then job.plan(stage) else OwnFault(v, stage)
  }

  lemma NextIsNext(f: Stage -> Fault, stage: Stage)
    requires f(stage) == Fine && !stage.Returning? && forall s :: Order(s) < Order(stage) ==> f(s) == Fine
    ensures Order(Next(stage)) == Order(stage) + 1 && forall s :: Order(s) < Order(Next(stage)) ==> f(s) == Fine
  {
    forall s: Stage | Order(s) < Order(Next(stage)) ensures f(s) == Fine {
      if Order(s) == Order(stage) { SameOrder(s, stage); }
    }
  }

  lemma SameOrder(a: Stage, b: Stage)
    requires Order(a) == Order(b)
    ensures a == b
  {
  }

  lemma {:induction false} StageStops(disk: Disk, job: Job, v: View, f: Stage -> Fault, stage: Stage)
    requires FreeFor(disk, job) && FaultsAre(job, v, f) && f(stage) != Fine
    ensures SoloRun(job, StageState(disk, job, v, stage), v, InterruptionFaults(job.plan(stage), f(stage))).disk
            == AfterStop(disk, job, v.moved, v.bundle, Some(stage), f(stage))
  {
    if BeforeRename(stage) {
      InterruptedEarly(disk, job, v, stage, job.plan(stage), f(stage));
    } else {
      InterruptedLate(disk, job, v, stage, job.plan(stage), f(stage));
    }
  }

  lemma StagePasses(disk: Disk, job: Job, v: View, f: Stage -> Fault, stage: Stage)
    requires FreeFor(disk, job) && FaultsAre(job, v, f) && f(stage) == Fine && !stage.Returning?
    ensures ViewStep(job, StageState(disk, job, v, stage), 0, Fine, v) == StageState(disk, job, v, Next(stage))
  {
    if BeforeRename(stage) && !stage.Renaming? {
      PassedEarly(disk, job, v, stage);
    } else {
      PassedLate(disk, job, v, stage);
    }
  }

  lemma {:induction false} SoloFrom(disk: Disk, job: Job, v: View, f: Stage -> Fault, stage: Stage)
      returns (faults: seq<Fault>)
    requires FreeFor(disk, job) && FaultsAre(job, v, f) && forall s :: Order(s) < Order(stage) ==> f(s) == Fine
    ensures SoloRun(job, StageState(disk, job, v, stage), v, faults).disk
            == AfterStop(disk, job, v.moved, v.bundle, Stop(f), EndFault(f, Stop(f)))
    decreases 9 - Order(stage)
  {
    StopIsFirst(f, stage);
    if f(stage) != Fine {
      StageStops(disk, job, v, f, stage);
      faults := InterruptionFaults(job.plan(stage), f(stage));
    } else if stage.Returning? {
      AllPassed(f);
      faults := [];
    } else {
      StagePasses(disk, job, v, f, stage);
      NextIsNext(f, stage);
      var rest := SoloFrom(disk, job, v, f, Next(stage));
      faults := [Fine] + rest;
      assert faults[1..] == rest;
    }
  }

  lemma AllPassed(f: Stage -> Fault)
    requires f(Returning) == Fine && forall s :: Order(s) < Order(Returning) ==> f(s) == Fine
    ensures Stop(f).None?
  {
  }

  // ----- and its steps are steps of the shared disk -----

  /** A single build still sees what it saw at first: the registry until its COMMIT, the lock until its lease. */
  predicate SeesFirst(b: Builds, disk: Disk) {
    && |b.pcs| == 1
    && (b.pcs[0].Committed? || b.pcs[0].Cleaning? || b.pcs[0].Ended?
        || (b.disk.durable == disk.durable
            && (b.pcs[0].Waiting? || b.pcs[0].Checked? || b.pcs[0].Made? ==> b.disk.locked == disk.locked)))
  }

  lemma StepSeesFirst(job: Job, b: Builds, fault: Fault, v: View, disk: Disk)
    requires SeesFirst(b, disk)
    ensures SeesFirst(ViewStep(job, b, 0, fault, v), disk)
  {
    if Preparing(b.pcs[0]) {
      PrepareSeesFirst(job, b, fault, v, disk);
    } else {
      FinishSeesFirst(job, b, fault, v, disk);
    }
  }

  lemma PrepareSeesFirst(job: Job, b: Builds, fault: Fault, v: View, disk: Disk)
    requires SeesFirst(b, disk) && Preparing(b.pcs[0])
    ensures SeesFirst(PrepareStep(job, b, 0, fault, v.bundle, v.given, v.stores), disk)
  {
  }

  lemma FinishSeesFirst(job: Job, b: Builds, fault: Fault, v: View, disk: Disk)
    requires SeesFirst(b, disk) && !Preparing(b.pcs[0])
    ensures SeesFirst(FinishStep(job, b, 0, fault, v.bundle, v.commits, v.moved), disk)
  {
  }

  /** Nothing looks at the lease but the step that takes it. */
  lemma IgnoresLease(job: Job, b: Builds, fault: Fault, v: View, given: bool)
    requires |b.pcs| == 1 && !b.pcs[0].Made?
    ensures ViewStep(job, b, 0, fault, v) == ViewStep(job, b, 0, fault, v.(given := given))
  {
  }

  /** Nothing looks at anything after the COMMIT, or after an interruption. */
  lemma IgnoresAll(job: Job, b: Builds, fault: Fault, v: View, v': View)
    requires |b.pcs| == 1 && (b.pcs[0].Committed? || b.pcs[0].Cleaning? || b.pcs[0].Ended?)
    ensures ViewStep(job, b, 0, fault, v) == ViewStep(job, b, 0, fault, v')
  {
  }

  lemma SameView(env: Env, disk: Disk, other: Disk, job: Job)
    requires disk.durable == other.durable
    ensures ViewOf(env, disk, job) == ViewOf(env, other, job).(given := ViewOf(env, disk, job).given)
    ensures disk.locked == other.locked ==> ViewOf(env, disk, job) == ViewOf(env, other, job)
  {
  }

  lemma SoloStep(env: Env, job: Job, b: Builds, fault: Fault, disk: Disk)
    requires SeesFirst(b, disk)
    ensures Step(env, [job], b, Act(0, fault)) == ViewStep(job, b, 0, fault, ViewOf(env, disk, job))
  {
    assert Step(env, [job], b, Act(0, fault)) == BuilderStep(env, job, b, 0, fault);
    if b.pcs[0].Committed? || b.pcs[0].Cleaning? || b.pcs[0].Ended? {
      IgnoresAll(job, b, fault, ViewOf(env, b.disk, job), ViewOf(env, disk, job));
    } else {
      SameView(env, b.disk, disk, job);
      if !b.pcs[0].Made? { IgnoresLease(job, b, fault, ViewOf(env, disk, job), ViewOf(env, b.disk, job).given); }
    }
  }

  lemma {:induction false} RunOne(env: Env, jobs: seq<Job>, b: Builds, t: Act)
    requires |jobs| == |b.pcs|
    ensures RunBuilds(env, jobs, b, [t]) == Step(env, jobs, b, t)
  {
    assert [t][..0] == [];
  }

  lemma {:induction false} RunFrom(env: Env, jobs: seq<Job>, b: Builds, t: Act, rest: seq<Act>)
    requires |jobs| == |b.pcs|
    ensures RunBuilds(env, jobs, b, [t] + rest) == RunBuilds(env, jobs, RunBuilds(env, jobs, b, [t]), rest)
  {
    if rest == [] {
      assert [t] + rest == [t];
    } else {
      var n := |rest| - 1;
      RunFrom(env, jobs, b, t, rest[..n]);
      assert ([t] + rest)[..n + 1] == [t] + rest[..n] && ([t] + rest)[n + 1] == rest[n];
    }
  }

  lemma {:induction false} SoloIsRun(env: Env, job: Job, b: Builds, v: View, faults: seq<Fault>, disk: Disk)
      returns (acts: seq<Act>)
    requires SeesFirst(b, disk) && v == ViewOf(env, disk, job)
    ensures RunBuilds(env, [job], b, acts) == SoloRun(job, b, v, faults)
    decreases |faults|
  {
    acts := [];
    if faults != [] {
      SoloStep(env, job, b, faults[0], disk);
      StepSeesFirst(job, b, faults[0], v, disk);
      acts := SoloIsRun(env, job, ViewStep(job, b, 0, faults[0], v), v, faults[1..], disk);
      RunOne(env, [job], b, Act(0, faults[0]));
      RunFrom(env, [job], b, Act(0, faults[0]), acts);
      SoloOnce(job, b, ViewStep(job, b, 0, faults[0], v), v, faults);
      acts := [Act(0, faults[0])] + acts;
    }
  }

  lemma {:induction false} SoloOnce(job: Job, b: Builds, next: Builds, v: View, faults: seq<Fault>)
    requires |b.pcs| == |next.pcs| == 1 && faults != []
    ensures next == ViewStep(job, b, 0, faults[0], v) ==>
              SoloRun(job, b, v, faults) == SoloRun(job, next, v, faults[1..])
  {
  }

  /** The check of the target and the temporary directory. */
  lemma BeginsSolo(disk: Disk, job: Job, v: View, rest: seq<Fault>) returns (faults: seq<Fault>)
    requires job.Target() !in disk.targets
    ensures SoloRun(job, Builds(disk, [Waiting]), v, faults)
            == SoloRun(job, StageState(disk, job, v, Acquiring), v, rest)
  {
    faults := [Fine] + ([Fine] + rest);
    assert faults[1..] == [Fine] + rest && ([Fine] + rest)[1..] == rest;
    assert ViewStep(job, Builds(disk, [Waiting]), 0, Fine, v) == Builds(disk, [Checked]);
    assert ViewStep(job, Builds(disk, [Checked]), 0, Fine, v) == StageState(disk, job, v, Acquiring);
  }

  lemma FaultsOfAre(env: Env, disk: Disk, job: Job)
    ensures FaultsAre(job, ViewOf(env, disk, job), FaultsOf(env, disk, job))
  {
    forall stage: Stage { OwnFaultIs(env, disk, job, stage); }
  }

  lemma OwnFaultIs(env: Env, disk: Disk, job: Job, stage: Stage)
    ensures CodeFault(env, disk, job, stage) == OwnFault(ViewOf(env, disk, job), stage)
  {
  }

  /** Alone on its disk, a build of this model leaves exactly what the code of a single build leaves. */
  lemma SoloIsBuild(env: Env, disk: Disk, job: Job) returns (acts: seq<Act>)
    requires job.temporary !in disk.temporaries && !disk.locked
    ensures RunBuilds(env, [job], Builds(disk, [Waiting]), acts).disk == After(env, disk, job, FaultsOf(env, disk, job))
  {
    var f, v := FaultsOf(env, disk, job), ViewOf(env, disk, job);
    var faults := [];
    if job.Target() in disk.targets {
      TargetTaken(env, disk, job, f);
    } else {
      FaultsOfAre(env, disk, job);
      var rest := SoloFrom(disk, job, v, f, Acquiring);
      faults := BeginsSolo(disk, job, v, rest);
    }
    acts := SoloIsRun(env, job, Builds(disk, [Waiting]), v, faults, disk);
  }
}
