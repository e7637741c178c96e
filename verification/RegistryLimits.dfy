/** The limit on the issued rows (src/corpus/storage.py). */
module RegistryLimits {
  // Two leases with valid batches that overfill the table: a run that ends in a locked registry.

  import opened BusinessSlugs
  import opened Issuance
  import opened Registry
  import opened Strings
  import CaseIds

  /** Cases with these ids and one and the same content. */
  function CasesOf(ids: seq<string>, content: Digest): seq<CaseVersion> {
    seq(|ids|, i requires 0 <= i < |ids| => CaseVersion(ids[i], content))
  }

  predicate Distinct(ids: seq<string>) { forall i, j :: 0 <= i < j < |ids| ==> ids[i] != ids[j] }

  lemma {:induction false} DistinctSize(ids: seq<string>)
    requires Distinct(ids)
    ensures |Elements(ids)| == |ids|
  {
    if ids == [] {
      assert Elements(ids) == {};
    } else {
      var front, last := ids[..|ids| - 1], ids[|ids| - 1];
      DistinctSize(front);
      assert ids == front + [last] && last !in front;
      assert Elements(ids) == Elements(front) + {last};
    }
  }

  lemma CasesKeys(ids: seq<string>, content: Digest)
    requires Distinct(ids)
    ensures Contents(CasesOf(ids, content)).Keys == Elements(ids) && |Contents(CasesOf(ids, content))| == |ids|
  {
    var m := Contents(CasesOf(ids, content));
    forall id ensures id in m <==> id in Elements(ids) {
      if id in m {
        var i :| 0 <= i < |CasesOf(ids, content)| && CasesOf(ids, content)[i].caseId == id;
        assert ids[i] == id;
      }
      if id in Elements(ids) {
        var i :| 0 <= i < |ids| && ids[i] == id;
        assert CasesOf(ids, content)[i].caseId == id;
      }
    }
    assert m.Keys == Elements(ids);
    DistinctSize(ids);
    assert |m.Keys| == |m|;
  }

  /** Any first lease with a valid batch of distinct cases goes through. */
  lemma {:induction false} FirstLease(env: Env, cases: seq<CaseVersion>, releaseId: string, bundle: Digest)
    requires env.Valid() && ValidCases(env, cases) && DistinctIds(cases) && ValidRelease(releaseId) && ValidSha(bundle)
    ensures var input, db := LeaseInput(cases, releaseId, bundle, true), Genesis(env);
            && LeaseCommits(env, db, input) && LeaseOutcome(env, db, input).rows.Keys == Contents(cases).Keys
            && |LeaseOutcome(env, db, input).releases| == 1
            && LeaseOutcome(env, db, input).releases[0].releaseId == releaseId
            && LeaseOutcome(env, db, input).releases[0].bundle == bundle
  {
    ReachableAcceptedExactly(env, []);
    GenesisProjectable(env, cases, releaseId);
    FirstOutcome(env, LeaseInput(cases, releaseId, bundle, true));
  }

  lemma GenesisProjectable(env: Env, cases: seq<CaseVersion>, releaseId: string)
    requires DistinctIds(cases) && ValidRelease(releaseId)
    ensures Projectable(Genesis(env), cases, releaseId)
  {
  }

  lemma FirstOutcome(env: Env, input: LeaseInput)
    ensures LeaseCommits(env, Genesis(env), input) ==>
              var db := LeaseOutcome(env, Genesis(env), input);
              && db.rows.Keys == Contents(input.cases).Keys && |db.releases| == 1
              && db.releases[0].releaseId == input.releaseId && db.releases[0].bundle == input.bundle
  {
  }

  lemma OneProjectable(db: Database, one: CaseVersion, releaseId: string)
    requires |db.releases| == 1 && one.caseId !in db.rows && ValidRelease(releaseId)
             && db.releases[0].releaseId != releaseId
    ensures Projectable(db, [one], releaseId)
  {
  }

  lemma OneValid(env: Env, one: CaseVersion)
    requires env.validCaseId(one.caseId) && ValidSha(one.content)
    ensures ValidCases(env, [one])
  {
  }

  /** The digests of the second lease collide with none of the first. */
  ghost predicate SecondDiffers(env: Env, db: Database, input: LeaseInput) {
    var rows := ProjectedRows(db.rows, Contents(input.cases), input.releaseId);
    NoCollision(env, Messages(db) + Messages(Committed(env, db, rows, input.releaseId, input.bundle)))
  }

  lemma NewBundleInserts(env: Env, db: Database, input: LeaseInput)
    requires Chained(env, db.releases) && HeadMatches(env, db) && Projectable(db, input.cases, input.releaseId)
    requires SecondDiffers(env, db, input) && forall i :: 0 <= i < |db.releases| ==>
              db.releases[i].bundle != input.bundle
    ensures var rows := ProjectedRows(db.rows, Contents(input.cases), input.releaseId);
            Insertable(db.releases,
                       NextRelease(env, db.head, input.releaseId, input.bundle, ProjectionDigest(env, rows)))
  {
    CommitSucceedsExactly(env, db, input.cases, input.releaseId, input.bundle);
  }

  lemma NewToOne(releases: seq<IssuedRelease>, bundle: Digest)
    requires |releases| == 1 && releases[0].bundle != bundle
    ensures forall i :: 0 <= i < |releases| ==> releases[i].bundle != bundle
  {
  }

  /** A lease whose bundle digest is new to a registry with one release. */
  lemma SecondLease(env: Env, db: Database, input: LeaseInput)
    requires Accepted(env, db) && ValidCases(env, input.cases) && ValidSha(input.bundle) && input.commits
    requires Projectable(db, input.cases, input.releaseId) && SecondDiffers(env, db, input)
    requires |db.releases| == 1 && db.releases[0].bundle != input.bundle
    ensures LeaseCommits(env, db, input)
  {
    NewToOne(db.releases, input.bundle);
    NewBundleInserts(env, db, input);
  }

  lemma Locked(env: Env, db: Database)
    requires !Accepted(env, db)
    ensures forall later :: LeaseOutcome(env, db, later) == db
  {
  }

  /** From one id more than the limit, two leases with valid batches: the first fills the table and is accepted, the
      second goes over the limit, and then no lease ever changes the registry again. */
  lemma {:induction false} FullTableReachable(env: Env, ids: seq<string>, content: Digest, first: LeaseInput,
                                              second: LeaseInput)
    requires env.Valid() && ValidSha(content) && |ids| == MAX_RECORDS + 1 && Distinct(ids)
    requires forall i :: 0 <= i < |ids| ==> env.validCaseId(ids[i])
    requires first == LeaseInput(CasesOf(ids[..MAX_RECORDS], content), first.releaseId, first.bundle, true)
    requires second == LeaseInput([CaseVersion(ids[MAX_RECORDS], content)], second.releaseId, second.bundle, true)
    requires ValidRelease(first.releaseId) && ValidRelease(second.releaseId) && first.releaseId != second.releaseId
    requires ValidSha(first.bundle) && ValidSha(second.bundle) && first.bundle != second.bundle
    requires SecondDiffers(env, Run(env, [first]), second)
    ensures var full, over := Run(env, [first]), Run(env, [first, second]);
            && |full.rows| == MAX_RECORDS && Accepted(env, full) && LeaseCommits(env, full, second)
            && |over.rows| == MAX_RECORDS + 1 && !Accepted(env, over)
            && forall later :: LeaseOutcome(env, over, later) == over
  {
    FirstFills(env, ids, content, first);
    LastIsNew(ids);
    SecondOverfills(env, Run(env, [first]), second, CaseVersion(ids[MAX_RECORDS], content));
    RunTwo(env, first, second);
    ReachableAcceptedExactly(env, [first, second]);
    Locked(env, Run(env, [first, second]));
  }

  lemma {:induction false} FirstFills(env: Env, ids: seq<string>, content: Digest, first: LeaseInput)
    requires env.Valid() && ValidSha(content) && |ids| == MAX_RECORDS + 1 && Distinct(ids)
    requires forall i :: 0 <= i < |ids| ==> env.validCaseId(ids[i])
    requires first == LeaseInput(CasesOf(ids[..MAX_RECORDS], content), first.releaseId, first.bundle, true)
    requires ValidRelease(first.releaseId) && ValidSha(first.bundle)
    ensures var full := Run(env, [first]);
            && full.rows.Keys == Elements(ids[..MAX_RECORDS]) && |full.rows| == MAX_RECORDS && Accepted(env, full)
            && |full.releases| == 1 && full.releases[0].releaseId == first.releaseId
              && full.releases[0].bundle == first.bundle
  {
    FirstIsValid(env, ids, content);
    FirstLease(env, first.cases, first.releaseId, first.bundle);
    CasesKeys(ids[..MAX_RECORDS], content);
    RunOne(env, first);
    var full := Run(env, [first]);
    assert |full.rows.Keys| == |full.rows|;
    ReachableAcceptedExactly(env, [first]);
  }

  lemma SecondOverfills(env: Env, full: Database, second: LeaseInput, one: CaseVersion)
    requires Accepted(env, full) && |full.rows| == MAX_RECORDS && |full.releases| == 1
    requires full.releases[0].releaseId != second.releaseId && full.releases[0].bundle != second.bundle
    requires second == LeaseInput([one], second.releaseId, second.bundle, true) && one.caseId !in full.rows
    requires env.validCaseId(one.caseId) && ValidSha(one.content) && ValidRelease(second.releaseId)
             && ValidSha(second.bundle)
    requires SecondDiffers(env, full, second)
    ensures LeaseCommits(env, full, second) && |LeaseOutcome(env, full, second).rows| == MAX_RECORDS + 1
  {
    OneProjectable(full, one, second.releaseId);
    OneValid(env, one);
    SecondLease(env, full, second);
    OneMoreRow(env, full, second, one);
  }

  lemma FirstIsValid(env: Env, ids: seq<string>, content: Digest)
    requires ValidSha(content) && |ids| == MAX_RECORDS + 1 && Distinct(ids)
    requires forall i :: 0 <= i < |ids| ==> env.validCaseId(ids[i])
    ensures var cases := CasesOf(ids[..MAX_RECORDS], content); ValidCases(env, cases) && DistinctIds(cases)
    ensures Distinct(ids[..MAX_RECORDS])
  {
  }

  lemma LastIsNew(ids: seq<string>)
    requires |ids| == MAX_RECORDS + 1 && Distinct(ids)
    ensures ids[MAX_RECORDS] !in Elements(ids[..MAX_RECORDS])
  {
  }

  lemma {:induction false} RunOne(env: Env, first: LeaseInput)
    ensures Run(env, [first]) == LeaseOutcome(env, Genesis(env), first)
  {
    RunSnoc(env, [], first);
    assert [] + [first] == [first];
  }

  lemma {:induction false} RunTwo(env: Env, first: LeaseInput, second: LeaseInput)
    ensures Run(env, [first, second]) == LeaseOutcome(env, Run(env, [first]), second)
  {
    RunSnoc(env, [first], second);
    assert [first] + [second] == [first, second];
  }

  lemma OneContent(one: CaseVersion)
    ensures Contents([one]) == map[one.caseId := one.content]
  {
    assert Contents([one][..0]) == map[];
  }

  lemma ProjectedSize(rows: map<string, CaseRow>, id: string, content: Digest, releaseId: string)
    requires id !in rows
    ensures |ProjectedRows(rows, map[id := content], releaseId)| == |rows| + 1
  {
    var next := ProjectedRows(rows, map[id := content], releaseId);
    assert next.Keys == rows.Keys + {id} && |next.Keys| == |next| && |rows.Keys| == |rows|;
  }

  /** A case that is not in the table adds one row. */
  lemma OneMoreRow(env: Env, db: Database, input: LeaseInput, one: CaseVersion)
    requires LeaseCommits(env, db, input) && input.cases == [one] && one.caseId !in db.rows
    ensures |LeaseOutcome(env, db, input).rows| == |db.rows| + 1
  {
    OneContent(one);
    ProjectedSize(db.rows, one.caseId, one.content, input.releaseId);
  }

  /** There are that many ids which the validator takes. */
  lemma EnoughIds(slugs: seq<string>, slug: string) returns (ids: seq<string>)
    requires slug == "audit" && slug in slugs && forall s :: s in slugs ==> SlugShape(s)
    ensures |ids| == MAX_RECORDS + 1 && Distinct(ids) && forall i :: 0 <= i < |ids| ==>
              CaseIds.ValidCaseId(slugs, ids[i])
  {
    ids := seq(MAX_RECORDS + 1, i requires 0 <= i => NumberedId(slug, i));
    forall i | 0 <= i < |ids| ensures CaseIds.ValidCaseId(slugs, ids[i]) {
      SixDigits(i);
      NumberedIdValid(slugs, slug, i);
    }
    forall i, j | 0 <= i < j < |ids| ensures ids[i] != ids[j] {
      if ids[i] == ids[j] { NumberedIdsDiffer(slug, i, j); }
    }
  }

  lemma {:induction false} SixDigits(n: nat)
    requires n <= MAX_RECORDS
    ensures |Decimal(n)| < 10
  {
    assert TenTo(6) == 1000000 by { assert TenTo(3) == 1000; }
    DecimalFits(n, 6);
  }
}
