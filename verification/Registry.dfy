/** The issuance registry (src/corpus/storage.py). */
module Registry {
  // Its tables, the digests that bind them, and `_read_head`, the checker that every lease and every
  // reader runs.

  import opened Strings
  import opened Wrappers
  import CaseIds

  type Digest = string

  const MAX_RECORDS := 100000

  // ----- tables -----

  datatype RowState = Active | Retired

  /** One row of `issued_case_ids` without its primary key. */
  datatype CaseRow = CaseRow(state: RowState, firstRelease: string, firstContent: Digest,
                             currentContent: Digest, retiredRelease: Option<string>)

  datatype IssuedCaseRecord = IssuedCaseRecord(caseId: string, row: CaseRow)

  /** One row of `issued_releases`. */
  datatype IssuedRelease = IssuedRelease(generation: int, releaseId: string, predecessorBundle: Option<Digest>,
                                         bundle: Digest, projection: Digest, predecessorAuthority: Digest,
                                         authority: Digest)

  /** The single row of `issuance_meta`. */
  datatype IssuanceHead = IssuanceHead(generation: int, releaseId: Option<string>,
                                       bundle: Option<Digest>, authority: Digest)

  /** `releases` is in generation order, as every query reads it. */
  datatype Database = Database(head: IssuanceHead, rows: map<string, CaseRow>, releases: seq<IssuedRelease>)

  // ----- digests -----

  datatype Manifest = Manifest(content: Digest, database: Digest, exports: map<string, Digest>,
                               predecessorBundle: Option<Digest>, projection: Digest, releaseId: string)

  /** Everything that is hashed, before its canonical encoding. */
  datatype Message =
    | GenesisMessage
    | ReleaseMessage(generation: int, releaseId: string, predecessorBundle: Option<Digest>,
                     bundle: Digest, projection: Digest, predecessorAuthority: Digest)
    | ProjectionMessage(records: seq<IssuedCaseRecord>)
    | BundleMessage(manifest: Manifest)
    | ContentMessage(exports: map<string, Digest>)
    | FileMessage(bytes: string)

  /** The digest function, and the case-id validator (`CaseIds.ValidCaseId` of the slugs in force). */
  datatype Env = Env(hash: Message -> Digest, validCaseId: string -> bool)
  {
    ghost predicate Valid() { forall m :: ValidSha(hash(m)) }
  }

  predicate ValidSha(d: Digest) { |d| == 64 && CaseIds.AllHex(d) }

  predicate ValidRelease(r: string) {
    && |r| == 30 && r[..7] == "corpus-" && AllDigits(r[7..21]) && r[21] == '-' && CaseIds.AllHex(r[22..])
  }

  function MessageOf(r: IssuedRelease): Message {
    ReleaseMessage(r.generation, r.releaseId, r.predecessorBundle, r.bundle, r.projection, r.predecessorAuthority)
  }

  /** The rows as `SELECT ... ORDER BY case_id` returns them. */
  function Listing(rows: map<string, CaseRow>): (s: seq<IssuedCaseRecord>)
    ensures |s| == |Sorted(rows.Keys)|
    ensures forall i :: 0 <= i < |s| ==>
              s[i].caseId in rows && s[i] == IssuedCaseRecord(Sorted(rows.Keys)[i], rows[s[i].caseId])
  {
    var ids := Sorted(rows.Keys);
    assert forall i :: 0 <= i < |ids| ==> ids[i] in Elements(ids);
    seq(|ids|, i requires 0 <= i < |ids| => IssuedCaseRecord(ids[i], rows[ids[i]]))
  }

  function ProjectionDigest(env: Env, rows: map<string, CaseRow>): Digest {
    env.hash(ProjectionMessage(Listing(rows)))
  }

  // ----- what the checker accepts -----

  predicate ValidRow(env: Env, caseId: string, row: CaseRow) {
    && env.validCaseId(caseId) && ValidRelease(row.firstRelease)
    && ValidSha(row.firstContent) && ValidSha(row.currentContent)
    && (row.state.Active? <==> row.retiredRelease.None?)
    && (row.retiredRelease.Some? ==> ValidRelease(row.retiredRelease.value))
  }

  predicate ValidRows(env: Env, rows: map<string, CaseRow>) {
    |rows| <= MAX_RECORDS && forall id :: id in rows ==> ValidRow(env, id, rows[id])
  }

  predicate ValidReleaseRow(r: IssuedRelease) {
    && r.generation >= 1 && ValidRelease(r.releaseId)
    && (r.predecessorBundle.Some? ==> ValidSha(r.predecessorBundle.value))
    && ValidSha(r.bundle) && ValidSha(r.projection) && ValidSha(r.predecessorAuthority) && ValidSha(r.authority)
  }

  predicate ValidReleases(releases: seq<IssuedRelease>) {
    |releases| <= MAX_RECORDS && forall i :: 0 <= i < |releases| ==> ValidReleaseRow(releases[i])
  }

  predicate ValidHead(head: IssuanceHead) {
    && head.generation >= 0 && (head.releaseId.None? <==> head.bundle.None?)
    && (head.releaseId.Some? ==> ValidRelease(head.releaseId.value))
    && (head.bundle.Some? ==> ValidSha(head.bundle.value)) && ValidSha(head.authority)
  }

  function PriorAuthority(env: Env, releases: seq<IssuedRelease>, i: nat): Digest
    requires i <= |releases|
  {
    if i == 0 then env.hash(GenesisMessage) else releases[i - 1].authority
  }

  function PriorBundle(releases: seq<IssuedRelease>, i: nat): Option<Digest>
    requires i <= |releases|
  {
    if i == 0 then None else Some(releases[i - 1].bundle)
  }

  /** Release `i` continues the hash chain and repeats no earlier id or bundle. */
  predicate Linked(env: Env, releases: seq<IssuedRelease>, i: nat)
    requires i < |releases|
  {
    var r := releases[i];
    && r.generation == i + 1
    && r.predecessorBundle == PriorBundle(releases, i)
    && r.predecessorAuthority == PriorAuthority(env, releases, i)
    && r.authority == env.hash(MessageOf(r))
    && forall j :: 0 <= j < i ==> releases[j].releaseId != r.releaseId && releases[j].bundle != r.bundle
  }

  predicate Chained(env: Env, releases: seq<IssuedRelease>) {
    forall i :: 0 <= i < |releases| ==> Linked(env, releases, i)
  }

  /** The latest release is what the head names, and it binds the issued rows. */
  predicate HeadMatches(env: Env, db: Database) {
    if db.head.generation == 0 then
      db == Database(IssuanceHead(0, None, None, env.hash(GenesisMessage)), map[], [])
    else
      && |db.releases| == db.head.generation
      && var latest := db.releases[|db.releases| - 1];
         && db.head.releaseId == Some(latest.releaseId) && db.head.bundle == Some(latest.bundle)
         && db.head.authority == latest.authority && latest.projection == ProjectionDigest(env, db.rows)
  }

  /** The databases `_read_head` takes. */
  predicate Accepted(env: Env, db: Database) {
    && ValidHead(db.head) && ValidRows(env, db.rows) && ValidReleases(db.releases)
    && Chained(env, db.releases) && HeadMatches(env, db)
  }

  // ----- the same, spelled out -----

  /** A lower-case hexadecimal digest. */
  predicate Hex64(d: Digest) {
    |d| == 64 && forall i :: 0 <= i < |d| ==> '0' <= d[i] <= '9' || 'a' <= d[i] <= 'f'
  }

  /** `corpus-`, fourteen digits, a hyphen, eight hexadecimal digits. */
  predicate CorpusName(r: string) {
    && |r| == 30 && r[0] == 'c' && r[1] == 'o' && r[2] == 'r' && r[3] == 'p' && r[4] == 'u' && r[5] == 's'
    && r[6] == '-' && r[21] == '-'
    && (forall i :: 7 <= i < 21 ==> '0' <= r[i] <= '9')
    && forall i :: 22 <= i < 30 ==> '0' <= r[i] <= '9' || 'a' <= r[i] <= 'f'
  }

  /** A row of a valid case: its digests, its first release, and a retiring release exactly when it is retired. */
  predicate GoodRow(env: Env, id: string, row: CaseRow) {
    && env.validCaseId(id) && CorpusName(row.firstRelease) && Hex64(row.firstContent) && Hex64(row.currentContent)
    && match row.retiredRelease
       case None => row.state == Active
       case Some(r) => row.state == Retired && CorpusName(r)
  }

  /** Release `i` is release number `i + 1`, and names the bundle and the authority of the one before it. */
  predicate GoodRelease(env: Env, releases: seq<IssuedRelease>, i: nat)
    requires i < |releases|
  {
    var r := releases[i];
    && CorpusName(r.releaseId) && Hex64(r.bundle) && Hex64(r.projection) && Hex64(r.authority)
    && r.generation == i + 1
    && r.predecessorBundle == (if i == 0 then None else Some(releases[i - 1].bundle))
    && r.predecessorAuthority == (if i == 0 then env.hash(GenesisMessage) else releases[i - 1].authority)
    && r.authority == env.hash(ReleaseMessage(i + 1, r.releaseId, r.predecessorBundle, r.bundle, r.projection,
                                              r.predecessorAuthority))
  }

  /** At most 100000 good rows and releases, no release or bundle twice, under the head of the last release, which
      binds the rows. */
  predicate History(env: Env, db: Database) {
    var n := |db.releases|;
    && |db.rows| <= 100000 && n <= 100000 && db.head.generation == n
    && (forall id :: id in db.rows ==> GoodRow(env, id, db.rows[id]))
    && AllGood(env, db.releases) && NothingTwice(db.releases)
    && if n == 0 then
         db.rows == map[] && db.head.releaseId == None && db.head.bundle == None
         && db.head.authority == env.hash(GenesisMessage)
       else
         var last := db.releases[n - 1];
         && db.head.releaseId == Some(last.releaseId) && db.head.bundle == Some(last.bundle)
         && db.head.authority == last.authority
         && last.projection == env.hash(ProjectionMessage(Listing(db.rows)))
  }

  lemma GoodDigest(d: Digest)
    ensures ValidSha(d) <==> Hex64(d)
  {
  }

  lemma GoodName(r: string)
    ensures ValidRelease(r) <==> CorpusName(r)
  {
    if |r| == 30 {
      assert forall i :: 7 <= i < 21 ==> r[i] == r[7..21][i - 7];
      assert forall i :: 22 <= i < 30 ==> r[i] == r[22..][i - 22];
      assert forall i :: 0 <= i < 7 ==> r[i] == r[..7][i];
      assert CorpusName(r) ==> r[..7] == "corpus-";
    }
  }

  lemma GoodRowExactly(env: Env, id: string, row: CaseRow)
    ensures ValidRow(env, id, row) <==> GoodRow(env, id, row)
  {
    GoodName(row.firstRelease);
    GoodDigest(row.firstContent);
    GoodDigest(row.currentContent);
    if row.retiredRelease.Some? { GoodName(row.retiredRelease.value); }
  }

  /** A release is valid and linked exactly when it is good and repeats nothing. */
  lemma GoodReleaseLinked(env: Env, releases: seq<IssuedRelease>, i: nat)
    requires env.Valid() && i < |releases|
    requires i > 0 ==> Hex64(releases[i - 1].bundle) && Hex64(releases[i - 1].authority)
    ensures ValidReleaseRow(releases[i]) && Linked(env, releases, i)
            <==> GoodRelease(env, releases, i)
                 && forall j :: 0 <= j < i ==>
                      releases[j].releaseId != releases[i].releaseId && releases[j].bundle != releases[i].bundle
  {
    var r := releases[i];
    GoodName(r.releaseId);
    GoodDigest(r.bundle);
    GoodDigest(r.projection);
    GoodDigest(r.authority);
    GoodDigest(r.predecessorAuthority);
    if r.predecessorBundle.Some? { GoodDigest(r.predecessorBundle.value); }
    assert ValidSha(env.hash(GenesisMessage));
    if i > 0 {
      GoodDigest(releases[i - 1].bundle);
      GoodDigest(releases[i - 1].authority);
    }
  }

  /** No release and no bundle comes twice. */
  predicate NothingTwice(releases: seq<IssuedRelease>) {
    forall i, j :: 0 <= i < j < |releases| ==>
      releases[i].releaseId != releases[j].releaseId && releases[i].bundle != releases[j].bundle
  }

  predicate AllGood(env: Env, releases: seq<IssuedRelease>) {
    forall i :: 0 <= i < |releases| ==> GoodRelease(env, releases, i)
  }

  predicate AllValid(releases: seq<IssuedRelease>) {
    forall i :: 0 <= i < |releases| ==> ValidReleaseRow(releases[i])
  }

  lemma ChainIsGood(env: Env, releases: seq<IssuedRelease>)
    requires env.Valid() && AllValid(releases) && Chained(env, releases)
    ensures AllGood(env, releases) && NothingTwice(releases)
  {
    forall i | 0 <= i < |releases| ensures GoodRelease(env, releases, i) {
      if i > 0 {
        GoodDigest(releases[i - 1].bundle);
        GoodDigest(releases[i - 1].authority);
      }
      assert Linked(env, releases, i);
      GoodReleaseLinked(env, releases, i);
    }
    forall i, j | 0 <= i < j < |releases|
      ensures releases[i].releaseId != releases[j].releaseId && releases[i].bundle != releases[j].bundle
    {
      assert Linked(env, releases, j);
    }
  }

  lemma GoodIsChain(env: Env, releases: seq<IssuedRelease>)
    requires env.Valid() && AllGood(env, releases) && NothingTwice(releases)
    ensures AllValid(releases) && Chained(env, releases)
  {
    forall i | 0 <= i < |releases| ensures ValidReleaseRow(releases[i]) && Linked(env, releases, i) {
      assert i > 0 ==> GoodRelease(env, releases, i - 1);
      GoodReleaseLinked(env, releases, i);
    }
  }

  /** The checker takes exactly the histories. */
  lemma AcceptedExactly(env: Env, db: Database)
    requires env.Valid()
    ensures Accepted(env, db) <==> History(env, db)
  {
    forall id | id in db.rows ensures ValidRow(env, id, db.rows[id]) <==> GoodRow(env, id, db.rows[id]) {
      GoodRowExactly(env, id, db.rows[id]);
    }
    if AllValid(db.releases) && Chained(env, db.releases) { ChainIsGood(env, db.releases); }
    if AllGood(env, db.releases) && NothingTwice(db.releases) { GoodIsChain(env, db.releases); }
    var n := |db.releases|;
    if n > 0 {
      GoodName(db.releases[n - 1].releaseId);
      GoodDigest(db.releases[n - 1].bundle);
      GoodDigest(db.releases[n - 1].authority);
      if History(env, db) { assert GoodRelease(env, db.releases, n - 1); }
    } else {
      assert ValidSha(env.hash(GenesisMessage));
    }
  }

  function Genesis(env: Env): Database {
    Database(IssuanceHead(0, None, None, env.hash(GenesisMessage)), map[], [])
  }

  // ----- the checker -----

  method IssuanceRecords(env: Env, rows: map<string, CaseRow>) returns (r: Result<seq<IssuedCaseRecord>>)
    ensures r.Ok? <==> ValidRows(env, rows)
    ensures r.Ok? ==> r.value == Listing(rows)
  {
    if |rows| > MAX_RECORDS { return Err("issuance registry is invalid"); }
    r := CheckedRecords(env, Listing(rows));
    ListedExactly(env, rows);
  }

  /** The loop over the rows. */
  method CheckedRecords(env: Env, listed: seq<IssuedCaseRecord>) returns (r: Result<seq<IssuedCaseRecord>>)
    ensures r.Ok? <==> AllValidRows(env, listed)
    ensures r.Ok? ==> r.value == listed
  {
    var records := [];
    for i := 0 to |listed|
      invariant records == listed[..i] && AllValidRows(env, listed[..i])
    {
      if !ValidRow(env, listed[i].caseId, listed[i].row) { return Err("issuance registry is invalid"); }
      records := records + [listed[i]];
    }
    assert listed[..|listed|] == listed;
    return Ok(records);
  }

  predicate AllValidRows(env: Env, listed: seq<IssuedCaseRecord>) {
    forall j :: 0 <= j < |listed| ==> ValidRow(env, listed[j].caseId, listed[j].row)
  }

  lemma ListedExactly(env: Env, rows: map<string, CaseRow>)
    ensures AllValidRows(env, Listing(rows)) <==> forall id :: id in rows ==> ValidRow(env, id, rows[id])
  {
    if AllValidRows(env, Listing(rows)) { ListedValid(env, rows); }
    forall i | 0 <= i < |Listing(rows)| ensures Listing(rows)[i].caseId in rows {}
  }

  lemma ListedValid(env: Env, rows: map<string, CaseRow>)
    requires AllValidRows(env, Listing(rows))
    ensures forall id :: id in rows ==> ValidRow(env, id, rows[id])
  {
    forall id | id in rows ensures ValidRow(env, id, rows[id]) {
      assert id in Elements(Sorted(rows.Keys));
      var i :| 0 <= i < |Listing(rows)| && Sorted(rows.Keys)[i] == id;
      assert Listing(rows)[i].caseId == id;
    }
  }

  method IssuanceReleases(releases: seq<IssuedRelease>) returns (r: Result<seq<IssuedRelease>>)
    ensures r.Ok? <==> ValidReleases(releases)
    ensures r.Ok? ==> r.value == releases
  {
    if |releases| > MAX_RECORDS { return Err("issuance registry is invalid"); }
    for i := 0 to |releases|
      invariant forall j :: 0 <= j < i ==> ValidReleaseRow(releases[j])
    {
      if !ValidReleaseRow(releases[i]) { return Err("issuance registry is invalid"); }
    }
    return Ok(releases);
  }

  /** The loop of `_read_head` over the issued releases. */
  method CheckChain(env: Env, releases: seq<IssuedRelease>) returns (ok: bool)
    ensures ok <==> Chained(env, releases)
  {
    var priorAuthority := env.hash(GenesisMessage);
    var priorBundle: Option<Digest> := None;
    var seenReleases: set<string> := {};
    var seenBundles: set<Digest> := {};
    for i := 0 to |releases|
      invariant priorAuthority == PriorAuthority(env, releases, i)
      invariant priorBundle == PriorBundle(releases, i)
      invariant forall id :: id in seenReleases <==> exists j :: 0 <= j < i && releases[j].releaseId == id
      invariant forall d :: d in seenBundles <==> exists j :: 0 <= j < i && releases[j].bundle == d
      invariant forall j :: 0 <= j < i ==> Linked(env, releases, j)
    {
      var issued := releases[i];
      var expected := env.hash(ReleaseMessage(i + 1, issued.releaseId, priorBundle, issued.bundle,
                                              issued.projection, priorAuthority));
      if issued.generation != i + 1 || issued.releaseId in seenReleases || issued.bundle in seenBundles
         || issued.predecessorBundle != priorBundle || issued.predecessorAuthority != priorAuthority
         || issued.authority != expected
      {
        assert !Linked(env, releases, i);
        return false;
      }
      seenReleases := seenReleases + {issued.releaseId};
      seenBundles := seenBundles + {issued.bundle};
      priorAuthority := issued.authority;
      priorBundle := Some(issued.bundle);
    }
    return true;
  }

  method ReadHead(env: Env, db: Database) returns (r: Result<IssuanceHead>)
    ensures r.Ok? <==> Accepted(env, db)
    ensures r.Ok? ==> r.value == db.head
  {
    if !ValidHead(db.head) { return Err("issuance registry is invalid"); }
    var records := IssuanceRecords(env, db.rows);
    if records.Err? { return Err(records.message); }
    var releases := IssuanceReleases(db.releases);
    if releases.Err? { return Err(releases.message); }
    NoRowsListed(db.rows);
    if db.head.generation == 0 {
      if records.value != [] || releases.value != [] || db.head.releaseId.Some? || db.head.bundle.Some?
         || db.head.authority != env.hash(GenesisMessage)
      {
        return Err("issuance registry authority mismatch");
      }
      return Ok(db.head);
    }
    if |releases.value| != db.head.generation { return Err("issuance registry authority mismatch"); }
    var chained := CheckChain(env, releases.value);
    if !chained { return Err("issuance registry authority mismatch"); }
    var latest := releases.value[|releases.value| - 1];
    if Some(latest.releaseId) != db.head.releaseId || Some(latest.bundle) != db.head.bundle
       || latest.authority != db.head.authority || latest.projection != env.hash(ProjectionMessage(records.value))
    {
      return Err("issuance registry authority mismatch");
    }
    return Ok(db.head);
  }

  lemma NoRowsListed(rows: map<string, CaseRow>)
    ensures Listing(rows) == [] <==> rows == map[]
  {
    if Listing(rows) == [] {
      assert Elements(Sorted(rows.Keys)) == {};
      assert rows.Keys == {};
    } else {
      assert Listing(rows)[0].caseId in rows;
    }
  }

  // ----- the head determines the history -----

  /** The messages whose digests bind a registry. */
  function Messages(db: Database): set<Message> {
    {GenesisMessage, ProjectionMessage(Listing(db.rows))} + set r | r in db.releases :: MessageOf(r)
  }

  ghost predicate NoCollision(env: Env, messages: set<Message>) {
    forall a, b :: a in messages && b in messages && env.hash(a) == env.hash(b) ==> a == b
  }

  lemma ListingInjective(a: map<string, CaseRow>, b: map<string, CaseRow>)
    requires Listing(a) == Listing(b)
    ensures a == b
  {
    assert a.Keys == b.Keys by { SameIds(a, b); }
    forall id | id in a ensures a[id] == b[id] {
      var i := ListingAt(a, id);
      assert Listing(b)[i] == Listing(a)[i];
    }
  }

  lemma SameIds(a: map<string, CaseRow>, b: map<string, CaseRow>)
    requires Listing(a) == Listing(b)
    ensures a.Keys == b.Keys
  {
    forall i | 0 <= i < |Listing(a)| ensures Sorted(a.Keys)[i] == Sorted(b.Keys)[i] {
      assert Listing(a)[i].caseId == Listing(b)[i].caseId;
    }
    assert Sorted(a.Keys) == Sorted(b.Keys);
    assert a.Keys == Elements(Sorted(a.Keys)) == b.Keys;
  }

  /** Where an id stands in the listing. */
  lemma ListingAt(rows: map<string, CaseRow>, id: string) returns (i: nat)
    requires id in rows
    ensures i < |Listing(rows)| && Listing(rows)[i] == IssuedCaseRecord(id, rows[id])
  {
    assert id in Elements(Sorted(rows.Keys));
    i :| 0 <= i < |Sorted(rows.Keys)| && Sorted(rows.Keys)[i] == id;
  }

  /** Releases of one place with one authority are equal, and so are their predecessors' authorities. */
  lemma SameRelease(env: Env, a: Database, b: Database, k: nat)
    requires Chained(env, a.releases) && Chained(env, b.releases)
    requires NoCollision(env, Messages(a) + Messages(b))
    requires k < |a.releases| && k < |b.releases| && a.releases[k].authority == b.releases[k].authority
    ensures a.releases[k] == b.releases[k]
    ensures k > 0 ==> a.releases[k - 1].authority == b.releases[k - 1].authority
  {
    assert Linked(env, a.releases, k) && Linked(env, b.releases, k);
    assert MessageOf(a.releases[k]) in Messages(a) && MessageOf(b.releases[k]) in Messages(b);
  }

  /** Chains that agree on one authority agree on everything up to it. */
  lemma {:induction false} ChainsAgree(env: Env, a: Database, b: Database, k: nat)
    requires Chained(env, a.releases) && Chained(env, b.releases)
    requires NoCollision(env, Messages(a) + Messages(b))
    requires k < |a.releases| && k < |b.releases| && a.releases[k].authority == b.releases[k].authority
    ensures a.releases[..k + 1] == b.releases[..k + 1]
  {
    var ra, rb := a.releases[k], b.releases[k];
    SameRelease(env, a, b, k);
    if k > 0 {
      ChainsAgree(env, a, b, k - 1);
      assert a.releases[..k + 1] == a.releases[..k] + [ra];
      assert b.releases[..k + 1] == b.releases[..k] + [rb];
    } else {
      assert a.releases[..1] == [ra] && b.releases[..1] == [rb];
    }
  }

  /** The head authority is the digest of the latest release, or of the genesis message. */
  lemma HeadMessage(env: Env, db: Database) returns (m: Message)
    requires Chained(env, db.releases) && HeadMatches(env, db)
    ensures m in Messages(db) && db.head.authority == env.hash(m)
    ensures |db.releases| == 0 ==> m == GenesisMessage && db == Genesis(env)
    ensures |db.releases| > 0 ==> m == MessageOf(db.releases[|db.releases| - 1]) && m.generation == |db.releases|
  {
    var n := |db.releases|;
    if n == 0 {
      m := GenesisMessage;
    } else {
      m := MessageOf(db.releases[n - 1]);
      assert Linked(env, db.releases, n - 1);
    }
  }

  /** Two accepted registries with the same head authority are the same registry, unless two of
      the messages they hash collide: same generation, same releases in every field, same rows. */
  lemma HeadDeterminesHistory(env: Env, a: Database, b: Database)
    requires Accepted(env, a) && Accepted(env, b) && a.head.authority == b.head.authority
    requires NoCollision(env, Messages(a) + Messages(b))
    ensures a == b
  {
    LinkedHistoriesAgree(env, a, b);
  }

  lemma LinkedHistoriesAgree(env: Env, a: Database, b: Database)
    requires Chained(env, a.releases) && HeadMatches(env, a) && Chained(env, b.releases) && HeadMatches(env, b)
    requires a.head.authority == b.head.authority && NoCollision(env, Messages(a) + Messages(b))
    ensures a == b
  {
    SameLength(env, a, b);
    var n := |a.releases|;
    if n > 0 {
      ChainsAgree(env, a, b, n - 1);
      assert a.releases == a.releases[..n] == b.releases[..n] == b.releases;
      SameProjection(env, a, b);
    }
  }

  /** Equal heads have histories of one length, with one last authority, or none at all. */
  lemma SameLength(env: Env, a: Database, b: Database)
    requires Chained(env, a.releases) && HeadMatches(env, a) && Chained(env, b.releases) && HeadMatches(env, b)
    requires a.head.authority == b.head.authority && NoCollision(env, Messages(a) + Messages(b))
    ensures |a.releases| == |b.releases| && (a.releases == [] ==> a == b)
    ensures a.releases != [] ==>
              && a.releases[|a.releases| - 1].authority == b.releases[|a.releases| - 1].authority
              && a.head.generation == b.head.generation == |a.releases|
  {
    var ma := HeadMessage(env, a);
    var mb := HeadMessage(env, b);
    assert ma == mb;
    HeadGeneration(env, a);
    HeadGeneration(env, b);
  }

  lemma HeadGeneration(env: Env, db: Database)
    requires HeadMatches(env, db)
    ensures db.releases != [] && db.head.generation != 0 ==>
              && db.head.generation == |db.releases| && db.head.authority == db.releases[|db.releases| - 1].authority
    ensures db.head.generation == 0 <==> db.releases == []
  {
  }

  /** Equal histories bind equal rows. */
  lemma SameProjection(env: Env, a: Database, b: Database)
    requires HeadMatches(env, a) && HeadMatches(env, b) && NoCollision(env, Messages(a) + Messages(b))
    requires a.releases == b.releases != []
    requires a.head.generation == |a.releases| && b.head.generation == |b.releases|
    ensures a == b
  {
    assert ProjectionMessage(Listing(a.rows)) in Messages(a) && ProjectionMessage(Listing(b.rows)) in Messages(b);
    ListingInjective(a.rows, b.rows);
  }
}
