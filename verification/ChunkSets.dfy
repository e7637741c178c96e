/** Building and revalidating chunk sets (src/corpus/chunking.py). */
module ChunkSets {
  import opened ChunkGroups
  import opened ChunkTexts
  import opened Strings
  import opened Wrappers

  datatype Chunk = Chunk(chunkId: string, caseId: string, role: Role, sequence: nat, text: string,
                         embeddingText: string,
                         indexes: seq<nat>, tokenCount: nat, qualityFlags: seq<string>, piiClass: string,
                         searchEligible: bool, answerEligible: bool)

  /** Everything that the binding digest covers. */
  datatype Payload = Payload(chunks: seq<Chunk>, caseContent: string, roleAuthority: string,
                             tables: map<nat, string>, contract: string)

  datatype VerifiedChunkSet = VerifiedChunkSet(payload: Payload, binding: string)

  /** What the caller pins from outside: case digest, tokenizer contract, authorities. */
  datatype Pins = Pins(caseContent: string, contract: string, roleAuthority: string, tables: map<nat, string>)

  const ZERO_SEQUENCES: map<Role, nat> := map[Question := 0, Answer := 0, Basis := 0, Facts := 0, Table := 0]

  // ----- chunk ids -----

  /** `{sequence:02d}` */
  function TwoDigits(n: nat): string { if n < 10 then "0" + Decimal(n) else Decimal(n) }

  function ChunkId(caseId: string, r: Role, sequence: nat): string {
    caseId + "-" + (RoleName(r) + "-" + TwoDigits(sequence))
  }

  /** Only the padded numbers start with a zero. */
  lemma {:induction false} TwoDigitsShape(n: nat)
    ensures TwoDigits(n) != "" && (TwoDigits(n)[0] == '0' <==> n < 10)
    ensures n < 10 ==> TwoDigits(n)[1..] == Decimal(n)
  {
    DecimalShape(n);
  }

  lemma TwoDigitsInjective(m: nat, n: nat)
    requires TwoDigits(m) == TwoDigits(n)
    ensures m == n
  {
    TwoDigitsShape(m);
    TwoDigitsShape(n);
    ValueOfDecimal(m);
    ValueOfDecimal(n);
  }

  lemma RoleNamesDiffer(a: Role, b: Role, x: string, y: string)
    requires RoleName(a) + "-" + x == RoleName(b) + "-" + y
    ensures a == b
  {
    var s, t := RoleName(a) + "-" + x, RoleName(b) + "-" + y;
    assert s[0] == RoleName(a)[0] && t[0] == RoleName(b)[0];
  }

  /** Within a case, the id names its role and its sequence number. */
  lemma ChunkIdInjective(caseId: string, a: Role, m: nat, b: Role, n: nat)
    requires ChunkId(caseId, a, m) == ChunkId(caseId, b, n)
    ensures a == b && m == n
  {
    DropPrefix(caseId + "-", RoleName(a) + "-" + TwoDigits(m), ChunkId(caseId, a, m));
    DropPrefix(caseId + "-", RoleName(b) + "-" + TwoDigits(n), ChunkId(caseId, b, n));
    RoleNamesDiffer(a, b, TwoDigits(m), TwoDigits(n));
    DropPrefix(RoleName(a) + "-", TwoDigits(m), RoleName(a) + "-" + TwoDigits(m));
    DropPrefix(RoleName(b) + "-", TwoDigits(n), RoleName(b) + "-" + TwoDigits(n));
    TwoDigitsInjective(m, n);
  }

  lemma DropPrefix(prefix: string, rest: string, whole: string)
    requires whole == prefix + rest
    ensures whole[|prefix|..] == rest
  {
  }

  // ----- per-role numbering -----

  function RoleCount(chunks: seq<Chunk>, r: Role): nat {
    if chunks == [] then 0
    else RoleCount(chunks[..|chunks| - 1], r) + if chunks[|chunks| - 1].role == r then 1 else 0
  }

  lemma {:induction false} RoleCountGrows(chunks: seq<Chunk>, r: Role, i: nat, j: nat)
    requires i <= j <= |chunks|
    ensures RoleCount(chunks[..i], r) <= RoleCount(chunks[..j], r)
    ensures i < j && chunks[i].role == r ==> RoleCount(chunks[..i], r) < RoleCount(chunks[..j], r)
  {
    if i < j {
      assert chunks[..j][..j - 1] == chunks[..j - 1];
      RoleCountGrows(chunks, r, i, j - 1);
    }
  }

  lemma ZeroSequences()
    ensures forall r: Role :: r in ZERO_SEQUENCES && ZERO_SEQUENCES[r] == 0
  {
    forall r: Role ensures r in ZERO_SEQUENCES && ZERO_SEQUENCES[r] == 0 {
      match r
      case Question =>
      case Answer =>
      case Basis =>
      case Facts =>
      case Table =>
    }
  }

  predicate Numbered(chunks: seq<Chunk>, i: nat)
    requires i < |chunks|
  {
    chunks[i].sequence == RoleCount(chunks[..i], chunks[i].role) + 1
  }

  /** The chunks of each role are numbered 1, 2, 3, ... without a gap. */
  lemma {:induction false} RolesNumberedFromOne(chunks: seq<Chunk>, r: Role, n: nat)
    requires (forall i :: 0 <= i < |chunks| ==> Numbered(chunks, i)) && 1 <= n <= RoleCount(chunks, r)
    ensures exists i :: 0 <= i < |chunks| && chunks[i].role == r && chunks[i].sequence == n
  {
    var last := |chunks| - 1;
    if chunks[last].role == r && n == RoleCount(chunks, r) {
      assert Numbered(chunks, last);
    } else {
      var front := chunks[..last];
      forall i | 0 <= i < |front| ensures Numbered(front, i) {
        assert Numbered(chunks, i) && front[..i] == chunks[..i];
      }
      RolesNumberedFromOne(front, r, n);
      var i :| 0 <= i < |front| && front[i].role == r && front[i].sequence == n;
      assert chunks[i] == front[i];
    }
  }

  // ----- the checker's view of one chunk -----

  function Flags(r: Role, tokenCount: nat): seq<string> {
    if tokenCount < MinTokens(r) then ["below-target-token-range"] else []
  }

  predicate OnePage(c: ChunkCase, indexes: seq<nat>) {
    && indexes != [] && (forall i :: 0 <= i < |indexes| ==> indexes[i] < |c.pages|)
    && forall i :: 0 <= i < |indexes| ==> c.pages[indexes[i]] == c.pages[indexes[0]]
  }

  predicate Distinct(indexes: seq<nat>) {
    forall i, j :: 0 <= i < j < |indexes| ==> indexes[i] != indexes[j]
  }

  predicate FlagsAllowed(piiClass: string, searchEligible: bool, answerEligible: bool) {
    && (piiClass == "public_credit" || piiClass == "restricted" ==> !searchEligible && !answerEligible)
    && (answerEligible ==> searchEligible)
  }

  /** `Chunk`'s own validator. */
  predicate ChunkValid(k: Chunk) {
    && k.text != "" && k.indexes != [] && Distinct(k.indexes) && k.sequence >= 1
    && FlagsAllowed(k.piiClass, k.searchEligible, k.answerEligible)
  }

  predicate ChunkMatches(c: ChunkCase, k: Chunk) {
    && k.caseId == c.caseId && k.piiClass == c.piiClass
    && k.searchEligible == c.searchEligible && k.answerEligible == c.answerEligible
    && k.chunkId == ChunkId(c.caseId, k.role, k.sequence)
    && k.embeddingText == EmbeddingPrefix(c, k.role) + k.text
    && k.tokenCount <= MaxTokens(k.role) && k.qualityFlags == Flags(k.role, k.tokenCount)
    && OnePage(c, k.indexes)
  }

  predicate HasRole(chunks: seq<Chunk>, r: Role) { exists i :: 0 <= i < |chunks| && chunks[i].role == r }

  predicate HasRequiredRoles(c: ChunkCase, chunks: seq<Chunk>) {
    HasRole(chunks, Answer) && HasRole(chunks, if c.audit then Facts else Question)
  }

  predicate ChunkAccepted(c: ChunkCase, chunks: seq<Chunk>, i: nat)
    requires i < |chunks|
  {
    && ChunkValid(chunks[i]) && ChunkMatches(c, chunks[i]) && Numbered(chunks, i)
    && forall j :: 0 <= j < i ==> chunks[j].chunkId != chunks[i].chunkId
  }

  /** What `revalidate_verified_chunk_set` takes. */
  predicate SetAccepted(c: ChunkCase, pins: Pins, bind: Payload -> string, expected: string, v: VerifiedChunkSet) {
    && v.payload.chunks != []
    && (forall i :: 0 <= i < |v.payload.chunks| ==> ChunkAccepted(c, v.payload.chunks, i))
    && HasRequiredRoles(c, v.payload.chunks)
    && v.payload.caseContent == pins.caseContent && v.payload.roleAuthority == pins.roleAuthority
    && v.payload.tables == pins.tables && v.payload.contract == pins.contract
    && v.binding == bind(v.payload) == expected
  }

  function IdsOf(chunks: seq<Chunk>): set<string> { set k | k in chunks :: k.chunkId }

  lemma IdsGrow(chunks: seq<Chunk>, i: nat)
    requires i < |chunks|
    ensures IdsOf(chunks[..i + 1]) == IdsOf(chunks[..i]) + {chunks[i].chunkId}
    ensures chunks[i].chunkId in IdsOf(chunks[..i])
            <==> exists j :: 0 <= j < i && chunks[j].chunkId == chunks[i].chunkId
  {
    assert chunks[..i + 1] == chunks[..i] + [chunks[i]];
    if j :| 0 <= j < i && chunks[j].chunkId == chunks[i].chunkId {
      assert chunks[j] in chunks[..i];
    }
  }

  /** The loop of `revalidate_verified_chunk_set`. */
  method CheckChunks(c: ChunkCase, chunks: seq<Chunk>) returns (ok: bool)
    ensures ok <==> forall i :: 0 <= i < |chunks| ==> ChunkAccepted(c, chunks, i)
  {
    var seen: set<string> := {};
    var sequences := ZERO_SEQUENCES;
    ZeroSequences();
    for i := 0 to |chunks|
      invariant seen == IdsOf(chunks[..i])
      invariant forall r: Role :: r in sequences && sequences[r] == RoleCount(chunks[..i], r)
      invariant forall j :: 0 <= j < i ==> ChunkAccepted(c, chunks, j)
    {
      var k := chunks[i];
      assert chunks[..i + 1][..i] == chunks[..i];
      IdsGrow(chunks, i);
      if !ChunkValid(k) || k.chunkId in seen || !ChunkMatches(c, k) || k.sequence != sequences[k.role] + 1 {
        assert !ChunkAccepted(c, chunks, i);
        return false;
      }
      seen := seen + {k.chunkId};
      sequences := sequences[k.role := k.sequence];
    }
    return true;
  }

  /** `revalidate_verified_chunk_set`. */
  method RevalidateChunkSet(v: VerifiedChunkSet, c: ChunkCase, pins: Pins, bind: Payload -> string, expected: string)
      returns (r: Result<VerifiedChunkSet>)
    ensures r.Ok? <==> SetAccepted(c, pins, bind, expected, v)
    ensures r.Ok? ==> r.value == v
  {
    var chunks := v.payload.chunks;
    if chunks == [] { return Err("verified chunk set is invalid"); }
    if v.payload.caseContent != pins.caseContent || v.payload.roleAuthority != pins.roleAuthority
       || v.payload.tables != pins.tables || v.payload.contract != pins.contract
    {
      return Err("verified chunk set authority does not match");
    }
    var matching := CheckChunks(c, chunks);
    if !matching { return Err("verified chunk set does not match the canonical case"); }
    if !HasRequiredRoles(c, chunks) { return Err("verified chunk set is missing required roles"); }
    var binding := bind(Payload(chunks, pins.caseContent, pins.roleAuthority, pins.tables, pins.contract));
    if v.binding != binding || binding != expected { return Err("verified chunk set binding is invalid"); }
    return Ok(VerifiedChunkSet(Payload(chunks, pins.caseContent, pins.roleAuthority, pins.tables, pins.contract),
                               binding));
  }

  // ----- what grouping guarantees for every unit -----

  predicate UnitSound(c: ChunkCase, u: Unit) { OnePage(c, u.indexes) && Distinct(u.indexes) }

  predicate AllOnPage(c: ChunkCase, indexes: seq<nat>, page: int) {
    forall i :: 0 <= i < |indexes| ==> indexes[i] < |c.pages| && c.pages[indexes[i]] == page
  }

  /** The spans of a group are distinct and lie on one page. */
  lemma {:induction false} GroupIndexesSound(c: ChunkCase, group: seq<RoleSource>, page: int)
    requires AllBound(c, group) && forall i :: 0 <= i < |group| ==> c.pages[group[i].spanIndex] == page
    ensures AllOnPage(c, GroupSpanIndexes(group), page) && Distinct(GroupSpanIndexes(group))
    ensures group != [] ==> GroupSpanIndexes(group) != []
  {
    if group != [] {
      GroupIndexesSound(c, group[..|group| - 1], page);
    }
  }

  lemma {:induction false} GroupUnitSound(c: ChunkCase, tk: Tokenizer, group: seq<RoleSource>, u: Unit)
    requires WellGrouped(c, tk, group) && u.indexes == GroupSpanIndexes(group)
    ensures UnitSound(c, u)
  {
    var page := c.pages[group[0].spanIndex];
    forall i | 0 <= i < |group| ensures c.pages[group[i].spanIndex] == page {
      if i > 0 { assert SourcesCanGroup(c, group[0], group[i]); }
    }
    GroupIndexesSound(c, group, page);
  }

  lemma {:induction false} UnitsSound(c: ChunkCase, tk: Tokenizer, groups: seq<seq<RoleSource>>,
                                      perGroup: seq<seq<Unit>>, units: seq<Unit>)
    requires AllWellGrouped(c, tk, groups) && UnitsOf(c, tk, groups, perGroup, units)
    ensures forall i :: 0 <= i < |units| ==> UnitSound(c, units[i])
  {
    if groups != [] {
      var n := |groups| - 1;
      UnitsSound(c, tk, groups[..n], perGroup[..n], FlattenUnits(perGroup[..n]));
      forall i | 0 <= i < |perGroup[n]| ensures UnitSound(c, perGroup[n][i]) {
        GroupUnitSound(c, tk, groups[n], perGroup[n][i]);
      }
    }
  }

  // ----- the builder -----

  function OfRole(sources: seq<RoleSource>, r: Role): seq<RoleSource> {
    if sources == [] then []
    else OfRole(sources[..|sources| - 1], r) + if sources[|sources| - 1].role == r then [sources[|sources| - 1]] else []
  }

  /** The sources by role, in their own order within a role. */
  function OrderedByRole(sources: seq<RoleSource>): seq<RoleSource> {
    OfRole(sources, Question) + OfRole(sources, Answer) + OfRole(sources, Basis) + OfRole(sources, Facts)
      + OfRole(sources, Table)
  }

  function Rank(r: Role): nat {
    match r
    case Question => 0
    case Answer => 1
    case Basis => 2
    case Facts => 3
    case Table => 4
  }

  /** Place `p` of the sources comes before place `q` once they are ordered. */
  predicate Precedes(sources: seq<RoleSource>, p: nat, q: nat)
    requires p < |sources| && q < |sources|
  {
    Rank(sources[p].role) < Rank(sources[q].role) || (Rank(sources[p].role) == Rank(sources[q].role) && p < q)
  }

  /** `ordered` are the sources at these places, in the order of the places. */
  predicate AtPlaces(sources: seq<RoleSource>, ordered: seq<RoleSource>, places: seq<nat>) {
    && |ordered| == |places|
    && (forall k :: 0 <= k < |places| ==> places[k] < |sources| && ordered[k] == sources[places[k]])
    && forall k, l :: 0 <= k < l < |places| ==> Precedes(sources, places[k], places[l])
  }

  lemma {:induction false} OfRolePlaces(sources: seq<RoleSource>, r: Role) returns (places: seq<nat>)
    ensures AtPlaces(sources, OfRole(sources, r), places)
    ensures forall p :: p in places <==> 0 <= p < |sources| && sources[p].role == r
  {
    places := [];
    if sources != [] {
      var n := |sources| - 1;
      places := OfRolePlaces(sources[..n], r);
      forall k, l | 0 <= k < l < |places| ensures Precedes(sources, places[k], places[l]) {
        assert Precedes(sources[..n], places[k], places[l]);
      }
      if sources[n].role == r { places := places + [n]; }
    }
  }

  lemma PlacesJoin(sources: seq<RoleSource>, a: seq<RoleSource>, p: seq<nat>, b: seq<RoleSource>, q: seq<nat>)
    requires AtPlaces(sources, a, p) && AtPlaces(sources, b, q)
    requires forall k, l :: 0 <= k < |p| && 0 <= l < |q| ==> Rank(sources[p[k]].role) < Rank(sources[q[l]].role)
    ensures AtPlaces(sources, a + b, p + q)
  {
  }

  /** The builder takes every source once: by role, and in its own order within a role. */
  lemma OrderedPlaces(sources: seq<RoleSource>) returns (places: seq<nat>)
    ensures AtPlaces(sources, OrderedByRole(sources), places)
    ensures forall p :: 0 <= p < |sources| ==> p in places
  {
    var a := OfRolePlaces(sources, Question);
    var b := OfRolePlaces(sources, Answer);
    var d := OfRolePlaces(sources, Basis);
    var e := OfRolePlaces(sources, Facts);
    var f := OfRolePlaces(sources, Table);
    PlacesJoin(sources, OfRole(sources, Question), a, OfRole(sources, Answer), b);
    PlacesJoin(sources, OfRole(sources, Question) + OfRole(sources, Answer), a + b, OfRole(sources, Basis), d);
    PlacesJoin(sources, OfRole(sources, Question) + OfRole(sources, Answer) + OfRole(sources, Basis), a + b + d,
               OfRole(sources, Facts), e);
    PlacesJoin(sources, OfRole(sources, Question) + OfRole(sources, Answer) + OfRole(sources, Basis)
                        + OfRole(sources, Facts), a + b + d + e, OfRole(sources, Table), f);
    places := a + b + d + e + f;
    forall p | 0 <= p < |sources| ensures p in places {
      match sources[p].role
      case Question => assert p in a;
      case Answer => assert p in b;
      case Basis => assert p in d;
      case Facts => assert p in e;
      case Table => assert p in f;
    }
  }

  lemma {:induction false} OfRoleBound(c: ChunkCase, sources: seq<RoleSource>, r: Role)
    requires AllBound(c, sources)
    ensures AllBound(c, OfRole(sources, r))
  {
    if sources != [] {
      OfRoleBound(c, sources[..|sources| - 1], r);
    }
  }

  /** The table sources and exactly they are pinned, each to its own evidence. */
  predicate TablesPinned(sources: seq<RoleSource>, tables: map<nat, string>) {
    && (forall i :: 0 <= i < |sources| && sources[i].header.Some? ==>
          sources[i].spanIndex in tables && tables[sources[i].spanIndex] == sources[i].header.value.evidence)
    && forall index :: index in tables ==>
      exists i :: 0 <= i < |sources| && sources[i].header.Some? && sources[i].spanIndex == index
  }

  function MakeChunk(c: ChunkCase, tk: Tokenizer, u: Unit, sequence: nat): Chunk {
    var embedding := EmbeddingPrefix(c, u.role) + u.text;
    Chunk(ChunkId(c.caseId, u.role, sequence), c.caseId, u.role, sequence, u.text, embedding, u.indexes,
          tk.count(embedding), Flags(u.role, tk.count(embedding)), c.piiClass, c.searchEligible, c.answerEligible)
  }

  /** A unit whose chunk the builder takes. */
  predicate UnitBuildable(c: ChunkCase, tk: Tokenizer, u: Unit) {
    && tk.count(EmbeddingPrefix(c, u.role) + u.text) <= MaxTokens(u.role) && u.text != ""
    && FlagsAllowed(c.piiClass, c.searchEligible, c.answerEligible)
  }

  lemma BuildableChunk(c: ChunkCase, tk: Tokenizer, u: Unit, n: nat)
    requires n >= 1 && UnitSound(c, u)
    ensures var k := MakeChunk(c, tk, u, n);
            && (UnitBuildable(c, tk, u) <==> k.tokenCount <= MaxTokens(u.role) && ChunkValid(k))
            && (UnitBuildable(c, tk, u) ==> ChunkMatches(c, k)) && FromUnit(tk, u, k) && k.sequence == n
  {
  }

  /** The chunk carries the unit's role, text and spans, and the token count of what is embedded. */
  predicate FromUnit(tk: Tokenizer, u: Unit, k: Chunk) {
    k.role == u.role && k.text == u.text && k.indexes == u.indexes && k.tokenCount == tk.count(k.embeddingText)
  }

  predicate AllBuildable(c: ChunkCase, tk: Tokenizer, units: seq<Unit>) {
    forall i :: 0 <= i < |units| ==> UnitBuildable(c, tk, units[i])
  }

  predicate AllAccepted(c: ChunkCase, chunks: seq<Chunk>) {
    forall j :: 0 <= j < |chunks| ==> ChunkAccepted(c, chunks, j)
  }

  /** One chunk per unit, in order. */
  predicate FromUnits(tk: Tokenizer, units: seq<Unit>, chunks: seq<Chunk>) {
    |chunks| == |units| && forall j :: 0 <= j < |chunks| ==> FromUnit(tk, units[j], chunks[j])
  }

  lemma AppendFromUnits(tk: Tokenizer, units: seq<Unit>, chunks: seq<Chunk>, u: Unit, k: Chunk)
    requires FromUnits(tk, units, chunks) && FromUnit(tk, u, k)
    ensures FromUnits(tk, units + [u], chunks + [k])
  {
  }

  lemma AppendBuildable(c: ChunkCase, tk: Tokenizer, units: seq<Unit>, u: Unit)
    requires AllBuildable(c, tk, units) && UnitBuildable(c, tk, u)
    ensures AllBuildable(c, tk, units + [u])
  {
  }

  lemma UnitsGrow(units: seq<Unit>, i: nat)
    requires i < |units|
    ensures units[..i + 1] == units[..i] + [units[i]]
  {
  }

  lemma UnbuildableUnit(c: ChunkCase, tk: Tokenizer, units: seq<Unit>, i: nat)
    requires i < |units| && !UnitBuildable(c, tk, units[i])
    ensures !AllBuildable(c, tk, units)
  {
  }

  /** The loop of `build_chunks`: one chunk per unit, numbered per role. */
  method ChunksOf(c: ChunkCase, tk: Tokenizer, units: seq<Unit>) returns (r: Result<seq<Chunk>>)
    requires forall i :: 0 <= i < |units| ==> UnitSound(c, units[i])
    ensures r.Ok? <==> AllBuildable(c, tk, units)
    ensures r.Err? ==> r.message == CHUNK_ERROR
    ensures r.Ok? ==> AllAccepted(c, r.value) && FromUnits(tk, units, r.value)
  {
    var chunks: seq<Chunk> := [];
    var sequences := ZERO_SEQUENCES;
    ZeroSequences();
    for i := 0 to |units|
      invariant AllBuildable(c, tk, units[..i]) && FromUnits(tk, units[..i], chunks) && AllAccepted(c, chunks)
      invariant forall r: Role :: r in sequences && sequences[r] == RoleCount(chunks, r)
    {
      var u := units[i];
      sequences := sequences[u.role := sequences[u.role] + 1];
      var k := MakeChunk(c, tk, u, sequences[u.role]);
      BuildableChunk(c, tk, u, k.sequence);
      if k.tokenCount > MaxTokens(u.role) || !ChunkValid(k) {
        UnbuildableUnit(c, tk, units, i);
        return Err(CHUNK_ERROR);
      }
      UnitsGrow(units, i);
      AppendBuildable(c, tk, units[..i], u);
      AppendFromUnits(tk, units[..i], chunks, u, k);
      AppendAccepted(c, chunks, k);
      chunks := chunks + [k];
    }
    assert units[..|units|] == units;
    return Ok(chunks);
  }

  /** A well-formed next chunk keeps the whole prefix acceptable, and its id is new. */
  lemma {:induction false} AppendAccepted(c: ChunkCase, chunks: seq<Chunk>, k: Chunk)
    requires AllAccepted(c, chunks)
    requires ChunkValid(k) && ChunkMatches(c, k) && k.sequence == RoleCount(chunks, k.role) + 1
    ensures AllAccepted(c, chunks + [k])
    ensures forall r: Role :: RoleCount(chunks + [k], r) == RoleCount(chunks, r) + if r == k.role then 1 else 0
  {
    forall j | 0 <= j < |chunks| + 1 ensures ChunkAccepted(c, chunks + [k], j) {
      if j < |chunks| {
        StillAccepted(c, chunks, k, j);
      } else {
        assert (chunks + [k])[..|chunks|] == chunks;
        forall i | 0 <= i < |chunks| ensures chunks[i].chunkId != k.chunkId { NewIdDiffers(c, chunks, k, i); }
      }
    }
    assert (chunks + [k])[..|chunks|] == chunks;
  }

  lemma StillAccepted(c: ChunkCase, chunks: seq<Chunk>, k: Chunk, j: nat)
    requires j < |chunks| && ChunkAccepted(c, chunks, j)
    ensures ChunkAccepted(c, chunks + [k], j)
  {
    assert (chunks + [k])[..j] == chunks[..j];
  }

  lemma {:induction false} NewIdDiffers(c: ChunkCase, chunks: seq<Chunk>, k: Chunk, i: nat)
    requires i < |chunks| && ChunkAccepted(c, chunks, i)
    requires ChunkMatches(c, k) && k.sequence == RoleCount(chunks, k.role) + 1
    ensures chunks[i].chunkId != k.chunkId
  {
    assert chunks[..|chunks|] == chunks;
    if chunks[i].chunkId == k.chunkId {
      ChunkIdInjective(c.caseId, chunks[i].role, chunks[i].sequence, k.role, k.sequence);
      RoleCountGrows(chunks, k.role, i, |chunks|);
    }
  }

  const CHUNK_ERROR := "chunk exceeds the role token limit"
  const ROLES_ERROR := "role sources are missing required canonical roles"

  /** The guards of `build_chunks` before any chunk is made. */
  predicate MayBuild(c: ChunkCase, eligible: bool, sources: seq<RoleSource>, pins: Pins) {
    && c.searchEligible && eligible && c.piiClass != "public_credit" && c.piiClass != "restricted"
    && TablesPinned(sources, pins.tables)
  }

  lemma OrderedBound(c: ChunkCase, sources: seq<RoleSource>)
    requires AllBound(c, sources)
    ensures AllBound(c, OrderedByRole(sources))
  {
    forall role: Role ensures AllBound(c, OfRole(sources, role)) { OfRoleBound(c, sources, role); }
  }

  /** The groups of the sources, taken role by role. */
  function GroupsByRole(c: ChunkCase, tk: Tokenizer, sources: seq<RoleSource>): seq<seq<RoleSource>>
    requires AllBound(c, sources)
  {
    OrderedBound(c, sources);
    GroupsOf(c, tk, OrderedByRole(sources))
  }

  predicate UnitHasRole(units: seq<Unit>, r: Role) { exists i :: 0 <= i < |units| && units[i].role == r }

  predicate SourceHasRole(sources: seq<RoleSource>, r: Role) { exists i :: 0 <= i < |sources| && sources[i].role == r }

  predicate SourcesHaveRoles(c: ChunkCase, sources: seq<RoleSource>) {
    SourceHasRole(sources, Answer) && SourceHasRole(sources, if c.audit then Facts else Question)
  }

  lemma SameRole(c: ChunkCase, tk: Tokenizer, group: seq<RoleSource>, units: seq<Unit>, r: Role)
    requires WellGrouped(c, tk, group) && GroupUnits(c, tk, group, units)
    ensures UnitHasRole(units, r) <==> group[0].role == r
    ensures SourceHasRole(group, r) <==> group[0].role == r
  {
    GroupUnitCount(c, tk, group, units);
    UnitCountPositive(c, tk, group);
    assert units[0].role == group[0].role;
    forall i | 0 <= i < |group| ensures group[i].role == group[0].role {
      if i > 0 { assert SourcesCanGroup(c, group[0], group[i]); }
    }
  }

  lemma UnitRoleGrows(units: seq<Unit>, more: seq<Unit>, r: Role)
    ensures UnitHasRole(units + more, r) <==> UnitHasRole(units, r) || UnitHasRole(more, r)
  {
    var both := units + more;
    forall i | 0 <= i < |units| ensures both[i] == units[i] {}
    forall i | 0 <= i < |more| ensures both[|units| + i] == more[i] {}
  }

  lemma SourceRoleGrows(sources: seq<RoleSource>, more: seq<RoleSource>, r: Role)
    ensures SourceHasRole(sources + more, r) <==> SourceHasRole(sources, r) || SourceHasRole(more, r)
  {
    var both := sources + more;
    forall i | 0 <= i < |sources| ensures both[i] == sources[i] {}
    forall i | 0 <= i < |more| ensures both[|sources| + i] == more[i] {}
  }

  /** The units have exactly the roles of the grouped fragments. */
  lemma {:induction false} UnitRoles(c: ChunkCase, tk: Tokenizer, groups: seq<seq<RoleSource>>,
                                     perGroup: seq<seq<Unit>>,
                                     units: seq<Unit>, r: Role)
    requires AllWellGrouped(c, tk, groups) && UnitsOf(c, tk, groups, perGroup, units)
    ensures UnitHasRole(units, r) <==> SourceHasRole(Flatten(groups), r)
  {
    if groups != [] {
      var n := |groups| - 1;
      UnitRoles(c, tk, groups[..n], perGroup[..n], FlattenUnits(perGroup[..n]), r);
      SameRole(c, tk, groups[n], perGroup[n], r);
      UnitRoleGrows(FlattenUnits(perGroup[..n]), perGroup[n], r);
      SourceRoleGrows(Flatten(groups[..n]), groups[n], r);
    }
  }

  lemma {:induction false} OfRoleHas(sources: seq<RoleSource>, r: Role, q: Role)
    ensures SourceHasRole(OfRole(sources, r), q) <==> q == r && SourceHasRole(sources, r)
  {
    if sources != [] {
      var front, last := sources[..|sources| - 1], sources[|sources| - 1];
      OfRoleHas(front, r, q);
      assert front + [last] == sources;
      SourceRoleGrows(front, [last], r);
      SourceRoleGrows(OfRole(front, r), if last.role == r then [last] else [], q);
      assert [last][0] == last;
    }
  }

  lemma OrderedHas(sources: seq<RoleSource>, q: Role)
    ensures SourceHasRole(OrderedByRole(sources), q) <==> SourceHasRole(sources, q)
  {
    forall r: Role
      ensures SourceHasRole(OfRole(sources, r), q)
              <==> q == r && SourceHasRole(sources, r) { OfRoleHas(sources, r, q); }
    var a, b, d, e, f := OfRole(sources, Question), OfRole(sources, Answer), OfRole(sources, Basis),
      OfRole(sources, Facts), OfRole(sources, Table);
    SourceRoleGrows(a, b, q);
    SourceRoleGrows(a + b, d, q);
    SourceRoleGrows(a + b + d, e, q);
    SourceRoleGrows(a + b + d + e, f, q);
  }

  /** The chunks of every unit have the required roles exactly when the sources have them. */
  lemma RequiredRolesExactly(c: ChunkCase, tk: Tokenizer, sources: seq<RoleSource>, perGroup: seq<seq<Unit>>,
                             units: seq<Unit>,
                             chunks: seq<Chunk>)
    requires AllBound(c, sources) && UnitsOf(c, tk, GroupsByRole(c, tk, sources), perGroup, units)
             && FromUnits(tk, units, chunks)
    ensures HasRequiredRoles(c, chunks) <==> SourcesHaveRoles(c, sources)
  {
    OrderedBound(c, sources);
    GroupsAreGreedy(c, tk, OrderedByRole(sources));
    forall r: Role ensures HasRole(chunks, r) <==> SourceHasRole(sources, r) {
      UnitRoles(c, tk, GroupsByRole(c, tk, sources), perGroup, units, r);
      OrderedHas(sources, r);
      ChunkRole(tk, units, chunks, r);
    }
  }

  lemma ChunkRole(tk: Tokenizer, units: seq<Unit>, chunks: seq<Chunk>, r: Role)
    requires FromUnits(tk, units, chunks)
    ensures HasRole(chunks, r) <==> UnitHasRole(units, r)
  {
    forall i | 0 <= i < |units| ensures chunks[i].role == units[i].role { assert FromUnit(tk, units[i], chunks[i]); }
  }

  /** The groups can be cut into no more units than a case may have. */
  predicate Divisible(c: ChunkCase, tk: Tokenizer, groups: seq<seq<RoleSource>>) {
    GroupsPossible(c, tk, groups) && UnitTotal(c, tk, groups) <= MAX_CHUNKS_PER_CASE
  }

  // ----- what the chunks keep -----

  /** A chunk of the case as a reader sees it: its id and embedded text, its token limit, and the flag for too
      little text. */
  predicate Readable(c: ChunkCase, tk: Tokenizer, k: Chunk) {
    var name := match k.role
                case Question => "question"
                case Answer => "answer"
                case Basis => "basis"
                case Facts => "facts"
                case Table => "table";
    && k.caseId == c.caseId
    && k.chunkId == c.caseId + "-" + name + "-" + (if k.sequence < 10 then "0" else "") + Decimal(k.sequence)
    && k.embeddingText == c.caseId + "\n" + c.heading + "\n" + name + "\n" + k.text
    && k.tokenCount == tk.count(k.embeddingText) <= (if k.role.Question? then 250 else 450)
    && k.qualityFlags
       == (if k.tokenCount < (if k.role.Question? then 80 else 250) then ["below-target-token-range"] else [])
  }

  predicate AllReadable(c: ChunkCase, tk: Tokenizer, chunks: seq<Chunk>) {
    forall i :: 0 <= i < |chunks| ==> Readable(c, tk, chunks[i])
  }

  lemma AllBuiltReadable(c: ChunkCase, tk: Tokenizer, units: seq<Unit>, chunks: seq<Chunk>)
    requires AllAccepted(c, chunks) && FromUnits(tk, units, chunks)
    ensures AllReadable(c, tk, chunks)
  {
    forall i | 0 <= i < |chunks| ensures Readable(c, tk, chunks[i]) { BuiltReadable(c, tk, units, chunks, i); }
  }

  lemma BuiltReadable(c: ChunkCase, tk: Tokenizer, units: seq<Unit>, chunks: seq<Chunk>, i: nat)
    requires AllAccepted(c, chunks) && FromUnits(tk, units, chunks) && i < |chunks|
    ensures Readable(c, tk, chunks[i])
  {
    var k := chunks[i];
    assert ChunkAccepted(c, chunks, i) && FromUnit(tk, units[i], k);
    assert ChunkId(c.caseId, k.role, k.sequence)
           == c.caseId + "-" + RoleName(k.role) + "-" + TwoDigits(k.sequence);
    assert TwoDigits(k.sequence) == (if k.sequence < 10 then "0" else "") + Decimal(k.sequence);
  }

  /** Role, text and spans of the chunks. */
  function UnitsIn(chunks: seq<Chunk>): seq<Unit> {
    seq(|chunks|, i requires 0 <= i < |chunks| => Unit(chunks[i].role, chunks[i].text, chunks[i].indexes))
  }

  lemma UnitsInChunks(tk: Tokenizer, units: seq<Unit>, chunks: seq<Chunk>)
    requires FromUnits(tk, units, chunks)
    ensures UnitsIn(chunks) == units
  {
    forall i | 0 <= i < |units| ensures UnitsIn(chunks)[i] == units[i] { assert FromUnit(tk, units[i], chunks[i]); }
  }

  /** The chunks lose no source: one of them holds it whole, or they hold every character from its first
      token to its last one. */
  lemma ChunksKeepSource(c: ChunkCase, tk: Tokenizer, sources: seq<RoleSource>, perGroup: seq<seq<Unit>>,
                         units: seq<Unit>, chunks: seq<Chunk>, i: nat)
    requires AllBound(c, sources) && Divisible(c, tk, GroupsByRole(c, tk, sources)) && i < |sources|
    requires UnitsOf(c, tk, GroupsByRole(c, tk, sources), perGroup, units) && FromUnits(tk, units, chunks)
    ensures Keeps(tk, sources[i], UnitsIn(chunks))
  {
    var k := OrderedPlace(sources, i);
    GroupedByRole(c, tk, sources);
    UnitsKeep(c, tk, GroupsByRole(c, tk, sources), perGroup, units, k);
    UnitsInChunks(tk, units, chunks);
  }

  lemma OrderedPlace(sources: seq<RoleSource>, i: nat) returns (k: nat)
    requires i < |sources|
    ensures k < |OrderedByRole(sources)| && OrderedByRole(sources)[k] == sources[i]
  {
    var places := OrderedPlaces(sources);
    assert i in places;
    k :| 0 <= k < |places| && places[k] == i;
  }

  lemma GroupedByRole(c: ChunkCase, tk: Tokenizer, sources: seq<RoleSource>)
    requires AllBound(c, sources)
    ensures AllWellGrouped(c, tk, GroupsByRole(c, tk, sources))
    ensures Flatten(GroupsByRole(c, tk, sources)) == OrderedByRole(sources)
  {
    OrderedBound(c, sources);
    GroupsAreGreedy(c, tk, OrderedByRole(sources));
  }

  lemma ChunksKeepSources(c: ChunkCase, tk: Tokenizer, sources: seq<RoleSource>, perGroup: seq<seq<Unit>>,
                          units: seq<Unit>, chunks: seq<Chunk>)
    requires AllBound(c, sources) && Divisible(c, tk, GroupsByRole(c, tk, sources))
    requires UnitsOf(c, tk, GroupsByRole(c, tk, sources), perGroup, units) && FromUnits(tk, units, chunks)
    ensures forall i :: 0 <= i < |sources| ==> Keeps(tk, sources[i], UnitsIn(chunks))
  {
    forall i | 0 <= i < |sources| ensures Keeps(tk, sources[i], UnitsIn(chunks)) {
      ChunksKeepSource(c, tk, sources, perGroup, units, chunks, i);
    }
  }

  /** `build_chunks`, from the approved and pinned sources on. Chunk `i` carries unit `i` of the
      greedy groups, and every set it returns is accepted unchanged by the revalidation under the
      same case, pins and binding digest. */
  method BuildChunks(c: ChunkCase, eligible: bool, sources: seq<RoleSource>, tk: Tokenizer, pins: Pins,
                     bind: Payload -> string)
      returns (r: Result<VerifiedChunkSet>, ghost perGroup: seq<seq<Unit>>, ghost units: seq<Unit>)
    requires AllBound(c, sources)
    ensures MayBuild(c, eligible, sources, pins) && Divisible(c, tk, GroupsByRole(c, tk, sources)) ==>
              UnitsOf(c, tk, GroupsByRole(c, tk, sources), perGroup, units)
    ensures r.Ok? <==> MayBuild(c, eligible, sources, pins) && Divisible(c, tk, GroupsByRole(c, tk, sources))
                       && AllBuildable(c, tk, units) && SourcesHaveRoles(c, sources)
    ensures r.Ok? ==>
              SetAccepted(c, pins, bind, r.value.binding, r.value) && FromUnits(tk, units, r.value.payload.chunks)
    ensures r.Ok? ==>
              forall i :: 0 <= i < |sources| ==> Keeps(tk, sources[i], UnitsIn(r.value.payload.chunks))
    ensures r.Ok? ==> AllReadable(c, tk, r.value.payload.chunks)
    ensures Grouping(c, tk, OrderedByRole(sources), GroupsByRole(c, tk, sources))
            && Greedy(c, tk, GroupsByRole(c, tk, sources))
    ensures r.Err? && MayBuild(c, eligible, sources, pins) && GroupsPossible(c, tk, GroupsByRole(c, tk, sources)) ==>
              r.message == UNIT_BOUND_ERROR || r.message == CHUNK_ERROR || r.message == ROLES_ERROR
  {
    OrderedBound(c, sources);
    GroupsAreGreedy(c, tk, OrderedByRole(sources));
    perGroup, units := [], [];
    if !c.searchEligible || !eligible || c.piiClass == "public_credit" || c.piiClass == "restricted" {
      return Err("canonical case is not eligible for chunking"), perGroup, units;
    }
    if !TablesPinned(sources, pins.tables) { return Err("table role authority is invalid"), perGroup, units; }
    var grouped;
    grouped, perGroup := GroupedChunkUnits(c, OrderedByRole(sources), tk);
    if grouped.Err? { return Err(grouped.message), perGroup, units; }
    units := grouped.value;
    UnitsSound(c, tk, GroupsByRole(c, tk, sources), perGroup, units);
    var chunks := ChunksOf(c, tk, grouped.value);
    if chunks.Err? { return Err(chunks.message), perGroup, units; }
    RequiredRolesExactly(c, tk, sources, perGroup, units, chunks.value);
    if !HasRequiredRoles(c, chunks.value) { return Err(ROLES_ERROR), perGroup, units; }
    ChunksKeepSources(c, tk, sources, perGroup, units, chunks.value);
    AllBuiltReadable(c, tk, units, chunks.value);
    var payload := Payload(chunks.value, pins.caseContent, pins.roleAuthority, pins.tables, pins.contract);
    return Ok(VerifiedChunkSet(payload, bind(payload))), perGroup, units;
  }
}
