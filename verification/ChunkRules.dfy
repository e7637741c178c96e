/** Which cases are chunked, and which chunk sets are taken (src/corpus/chunking.py). */
module ChunkRules {
  import opened ChunkGroups
  import opened ChunkSets
  import opened Strings
  import opened Wrappers

  // ----- what may be built -----

  /** Where the tables are, and the evidence for each. */
  function TableItems(sources: seq<RoleSource>): set<(nat, string)> {
    set s | s in sources && s.header.Some? :: (s.spanIndex, s.header.value.evidence)
  }

  lemma TablesPinnedExactly(sources: seq<RoleSource>, tables: map<nat, string>)
    ensures TablesPinned(sources, tables) <==> TableItems(sources) == tables.Items
  {
    if TablesPinned(sources, tables) {
      forall item | item in tables.Items ensures item in TableItems(sources) {
        assert item.0 in tables;
        var i :| 0 <= i < |sources| && sources[i].header.Some? && sources[i].spanIndex == item.0;
        assert sources[i] in sources;
      }
    }
    if TableItems(sources) == tables.Items {
      forall i | 0 <= i < |sources| && sources[i].header.Some?
        ensures sources[i].spanIndex in tables && tables[sources[i].spanIndex] == sources[i].header.value.evidence
      {
        assert (sources[i].spanIndex, sources[i].header.value.evidence) in TableItems(sources);
      }
      forall index | index in tables
        ensures exists i :: 0 <= i < |sources| && sources[i].header.Some? && sources[i].spanIndex == index
      {
        assert (index, tables[index]) in TableItems(sources);
      }
    }
  }

  /** Only search-eligible cases that are neither public credit nor restricted are chunked, and only with exactly
      their tables pinned. */
  lemma MayBuildExactly(c: ChunkCase, eligible: bool, sources: seq<RoleSource>, pins: Pins)
    ensures MayBuild(c, eligible, sources, pins) <==>
            && eligible && c.searchEligible && c.piiClass !in {"public_credit", "restricted"}
            && TableItems(sources) == pins.tables.Items
  {
    TablesPinnedExactly(sources, pins.tables);
  }

  // ----- what is taken -----

  function NameOf(r: Role): string {
    match r
    case Question => "question"
    case Answer => "answer"
    case Basis => "basis"
    case Facts => "facts"
    case Table => "table"
  }

  /** A chunk of the case: its name, its texts, its flags, and its spans, which are different and on one page. */
  predicate GoodChunk(c: ChunkCase, k: Chunk) {
    var name, limit, target :=
      NameOf(k.role), if k.role.Question? then 250 else 450, if k.role.Question? then 80 else 250;
    && k.caseId == c.caseId && k.piiClass == c.piiClass
    && k.searchEligible == c.searchEligible && k.answerEligible == c.answerEligible
    && k.chunkId == c.caseId + "-" + name + "-" + (if k.sequence < 10 then "0" else "") + Decimal(k.sequence)
    && k.embeddingText == c.caseId + "\n" + c.heading + "\n" + name + "\n" + k.text
    && k.tokenCount <= limit
    && k.qualityFlags == (if k.tokenCount < target then ["below-target-token-range"] else [])
    && k.text != "" && k.indexes != []
    && (forall i, j :: 0 <= i < j < |k.indexes| ==> k.indexes[i] != k.indexes[j])
    && (forall i :: 0 <= i < |k.indexes| ==> k.indexes[i] < |c.pages|)
    && (forall i :: 0 <= i < |k.indexes| ==> c.pages[k.indexes[i]] == c.pages[k.indexes[0]])
    && (k.answerEligible ==> k.searchEligible)
    && (k.searchEligible ==> k.piiClass !in {"public_credit", "restricted"})
  }

  lemma GoodTexts(c: ChunkCase, k: Chunk)
    ensures ChunkId(c.caseId, k.role, k.sequence)
            == c.caseId + "-" + NameOf(k.role) + "-" + (if k.sequence < 10 then "0" else "") + Decimal(k.sequence)
    ensures EmbeddingPrefix(c, k.role) + k.text
            == c.caseId + "\n" + c.heading + "\n" + NameOf(k.role) + "\n" + k.text
  {
    assert RoleName(k.role) == NameOf(k.role);
    assert "" + Decimal(k.sequence) == Decimal(k.sequence);
    IdJoins(c.caseId, NameOf(k.role), if k.sequence < 10 then "0" else "", Decimal(k.sequence));
  }

  lemma IdJoins(caseId: string, name: string, pad: string, digits: string)
    ensures caseId + "-" + (name + "-" + (pad + digits)) == caseId + "-" + name + "-" + pad + digits
  {
  }

  lemma GoodChunkExactly(c: ChunkCase, k: Chunk)
    ensures ChunkValid(k) && ChunkMatches(c, k) <==> GoodChunk(c, k) && k.sequence >= 1
  {
    GoodTexts(c, k);
  }

  /** The chunks of this chunk's role up to it. */
  function SameRole(chunks: seq<Chunk>, n: nat, r: Role): set<nat>
    requires n <= |chunks|
  {
    set j: nat | j < n && chunks[j].role == r
  }

  lemma {:induction false} RoleCountIsSize(chunks: seq<Chunk>, n: nat, r: Role)
    requires n <= |chunks|
    ensures RoleCount(chunks[..n], r) == |SameRole(chunks, n, r)|
  {
    if n == 0 {
      assert SameRole(chunks, 0, r) == {};
    } else {
      RoleCountIsSize(chunks, n - 1, r);
      assert chunks[..n][..n - 1] == chunks[..n - 1];
      SameRoleMore(chunks, n - 1, r);
    }
  }

  lemma SameRoleMore(chunks: seq<Chunk>, n: nat, r: Role)
    requires n < |chunks|
    ensures |SameRole(chunks, n + 1, r)| == |SameRole(chunks, n, r)| + if chunks[n].role == r then 1 else 0
  {
    if chunks[n].role == r { OneOfRole(chunks, n, r); } else { NoneOfRole(chunks, n, r); }
  }

  lemma OneOfRole(chunks: seq<Chunk>, n: nat, r: Role)
    requires n < |chunks| && chunks[n].role == r
    ensures |SameRole(chunks, n + 1, r)| == |SameRole(chunks, n, r)| + 1
  {
    var before := SameRole(chunks, n, r);
    assert n !in before;
    assert SameRole(chunks, n + 1, r) == before + {n};
  }

  lemma NoneOfRole(chunks: seq<Chunk>, n: nat, r: Role)
    requires n < |chunks| && chunks[n].role != r
    ensures SameRole(chunks, n + 1, r) == SameRole(chunks, n, r)
  {
  }

  lemma NumberedExactly(chunks: seq<Chunk>, i: nat)
    requires i < |chunks|
    ensures Numbered(chunks, i) <==> chunks[i].sequence == |SameRole(chunks, i + 1, chunks[i].role)|
  {
    RoleCountIsSize(chunks, i, chunks[i].role);
    SameRoleMore(chunks, i, chunks[i].role);
  }

  /** Good chunks of the case, each numbered within its role. */
  predicate GoodChunks(c: ChunkCase, chunks: seq<Chunk>) {
    forall i :: 0 <= i < |chunks| ==>
      GoodChunk(c, chunks[i]) && chunks[i].sequence == |SameRole(chunks, i + 1, chunks[i].role)|
  }

  lemma GoodAreAccepted(c: ChunkCase, chunks: seq<Chunk>, i: nat)
    requires GoodChunks(c, chunks) && i < |chunks|
    ensures ChunkAccepted(c, chunks, i)
  {
    GoodNumbered(c, chunks, i);
    forall j | 0 <= j < i ensures chunks[j].chunkId != chunks[i].chunkId {
      GoodNumbered(c, chunks, j);
      if chunks[j].chunkId == chunks[i].chunkId { SameNumber(c, chunks, j, i); }
    }
  }

  lemma GoodNumbered(c: ChunkCase, chunks: seq<Chunk>, i: nat)
    requires GoodChunks(c, chunks) && i < |chunks|
    ensures ChunkValid(chunks[i]) && ChunkMatches(c, chunks[i]) && Numbered(chunks, i)
  {
    NumberedExactly(chunks, i);
    assert i in SameRole(chunks, i + 1, chunks[i].role);
    assert |SameRole(chunks, i + 1, chunks[i].role)| >= 1;
    GoodChunkExactly(c, chunks[i]);
  }

  lemma SameNumber(c: ChunkCase, chunks: seq<Chunk>, j: nat, i: nat)
    requires j < i < |chunks| && Numbered(chunks, j) && Numbered(chunks, i)
    requires ChunkMatches(c, chunks[j]) && ChunkMatches(c, chunks[i])
    ensures chunks[j].chunkId != chunks[i].chunkId
  {
    if chunks[j].chunkId == chunks[i].chunkId {
      ChunkIdInjective(c.caseId, chunks[j].role, chunks[j].sequence, chunks[i].role, chunks[i].sequence);
      RoleCountGrows(chunks, chunks[j].role, j, i);
    }
  }

  /** The revalidator takes a set exactly when its chunks are good and numbered, the answer and the question or the
      facts are among them, and it carries the pins and the expected binding digest of its payload. */
  lemma AcceptedSetExactly(c: ChunkCase, pins: Pins, bind: Payload -> string, expected: string, v: VerifiedChunkSet)
    ensures SetAccepted(c, pins, bind, expected, v) <==>
            var chunks := v.payload.chunks;
            && GoodChunks(c, chunks)
            && {Answer, if c.audit then Facts else Question} <= RolesOf(chunks)
            && v.payload == Payload(chunks, pins.caseContent, pins.roleAuthority, pins.tables, pins.contract)
            && v.binding == expected && expected == bind(v.payload)
  {
    AcceptedChunksExactly(c, v.payload.chunks);
    RolesExactly(c, v.payload.chunks);
  }

  function RolesOf(chunks: seq<Chunk>): set<Role> { set k | k in chunks :: k.role }

  lemma RolesExactly(c: ChunkCase, chunks: seq<Chunk>)
    ensures HasRequiredRoles(c, chunks) <==> {Answer, if c.audit then Facts else Question} <= RolesOf(chunks)
    ensures HasRequiredRoles(c, chunks) ==> chunks != []
  {
    HasRoleExactly(chunks, Answer);
    HasRoleExactly(chunks, if c.audit then Facts else Question);
  }

  lemma HasRoleExactly(chunks: seq<Chunk>, r: Role)
    ensures HasRole(chunks, r) <==> r in RolesOf(chunks)
  {
    if i :| 0 <= i < |chunks| && chunks[i].role == r { assert chunks[i] in chunks; }
  }

  lemma AcceptedChunksExactly(c: ChunkCase, chunks: seq<Chunk>)
    ensures (forall i :: 0 <= i < |chunks| ==> ChunkAccepted(c, chunks, i)) <==> GoodChunks(c, chunks)
  {
    if GoodChunks(c, chunks) {
      forall i | 0 <= i < |chunks| ensures ChunkAccepted(c, chunks, i) { GoodAreAccepted(c, chunks, i); }
    }
    if forall i :: 0 <= i < |chunks| ==> ChunkAccepted(c, chunks, i) {
      forall i | 0 <= i < |chunks|
        ensures GoodChunk(c, chunks[i]) && chunks[i].sequence == |SameRole(chunks, i + 1, chunks[i].role)|
      {
        assert ChunkAccepted(c, chunks, i);
        GoodChunkExactly(c, chunks[i]);
        NumberedExactly(chunks, i);
      }
    }
  }
}
