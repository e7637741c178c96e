/** Ranking metrics and the latency percentile (src/evaluation/retrieval_metrics.py). */
module RankingMetrics {
  import opened Strings
  import opened Sorting
  import opened Wrappers

  const CUTOFF := 10

  datatype Observation = Observation(accepted: seq<string>, ranked: seq<string>, evidence: seq<string>, noAnswer: bool)

  predicate Unique(ids: seq<string>) { forall i, j :: 0 <= i < j < |ids| ==> ids[i] != ids[j] }

  /** The validator of `RetrievalObservation`. */
  predicate ValidObservation(o: Observation) {
    && Unique(o.accepted) && Unique(o.ranked) && Unique(o.evidence)
    && Elements(o.evidence) <= Elements(o.ranked) && (o.noAnswer <==> o.accepted == [])
    && |o.accepted| <= 16 && |o.ranked| <= 100 && |o.evidence| <= 100
  }

  /** `1 / log2(rank + 1)`, known only to be positive and strictly decreasing. */
  ghost predicate Discounting(d: nat -> real) { forall i: nat, j: nat :: 1 <= i < j ==> d(i) > d(j) > 0.0 }

  // ----- one item -----

  function Top(o: Observation): seq<string> { if |o.ranked| > CUTOFF then o.ranked[..CUTOFF] else o.ranked }

  /** The ranks, counted from 1, whose id is accepted. */
  function RelevantRanks(accepted: set<string>, ranked: seq<string>): seq<nat> {
    if ranked == [] then []
    else RelevantRanks(accepted, ranked[..|ranked| - 1]) + if ranked[|ranked| - 1] in accepted then [|ranked|] else []
  }

  function Hits(o: Observation): seq<nat> { RelevantRanks(Elements(o.accepted), Top(o)) }

  function Gain(d: nat -> real, ranks: seq<nat>): real {
    if ranks == [] then 0.0 else Gain(d, ranks[..|ranks| - 1]) + d(ranks[|ranks| - 1])
  }

  function Leading(n: nat): seq<nat> { seq(n, i => i + 1) }

  function IdealCount(o: Observation): nat {
    var n := |Elements(o.accepted)|; if n < CUTOFF then n else CUTOFF
  }

  predicate EvidencedHit(o: Observation) { Elements(o.accepted) * Elements(Top(o)) * Elements(o.evidence) != {} }

  datatype Scores = Scores(recalled: nat, reciprocal: real, ndcg: real, evidenced: nat)

  ghost predicate AscendingFromOne(ranks: seq<nat>, top: nat) {
    (forall i :: 0 <= i < |ranks| ==> i + 1 <= ranks[i] <= top) && forall i, j :: 0 <= i < j < |ranks| ==>
      ranks[i] < ranks[j]
  }

  lemma AscendSnoc(ranks: seq<nat>, top: nat)
    requires AscendingFromOne(ranks, top)
    ensures AscendingFromOne(ranks, top + 1) && AscendingFromOne(ranks + [top + 1], top + 1)
  {
    assert ranks != [] ==> |ranks| <= ranks[|ranks| - 1] <= top;
  }

  lemma {:induction false} RelevantSnoc(accepted: set<string>, front: seq<string>, last: string)
    ensures RelevantRanks(accepted, front + [last])
            == RelevantRanks(accepted, front) + if last in accepted then [|front| + 1] else []
  {
    assert (front + [last])[..|front|] == front;
  }

  lemma {:induction false} RanksAscend(accepted: set<string>, ranked: seq<string>)
    ensures AscendingFromOne(RelevantRanks(accepted, ranked), |ranked|)
    ensures forall i :: 0 <= i < |ranked| ==> (i + 1 in RelevantRanks(accepted, ranked) <==> ranked[i] in accepted)
  {
    if ranked != [] {
      var front, last := ranked[..|ranked| - 1], ranked[|ranked| - 1];
      RanksAscend(accepted, front);
      RelevantSnoc(accepted, front, last);
      assert ranked == front + [last];
      var before := RelevantRanks(accepted, front);
      AscendSnoc(before, |front|);
      assert |ranked| !in before;
      assert forall i :: 0 <= i < |front| ==> ranked[i] == front[i];
    }
  }

  lemma HitSnoc(accepted: set<string>, front: seq<string>, last: string)
    requires last !in front
    ensures |accepted * Elements(front + [last])| == |accepted * Elements(front)| + if last in accepted then 1 else 0
  {
    var before := accepted * Elements(front);
    assert last !in before && accepted * Elements(front + [last]) == before + if last in accepted then {last} else {};
  }

  /** Distinct results hit distinct accepted ids. */
  lemma {:induction false} HitsBounded(accepted: set<string>, ranked: seq<string>)
    requires Unique(ranked)
    ensures |RelevantRanks(accepted, ranked)| == |accepted * Elements(ranked)| <= |accepted|
  {
    if ranked == [] {
      assert accepted * Elements(ranked) == {};
    } else {
      var front, last := ranked[..|ranked| - 1], ranked[|ranked| - 1];
      HitsBounded(accepted, front);
      assert ranked == front + [last];
      RelevantSnoc(accepted, front, last);
      HitSnoc(accepted, front, last);
    }
    Subset(accepted * Elements(ranked), accepted);
  }

  lemma {:induction false} Subset<T>(a: set<T>, b: set<T>)
    requires a <= b
    ensures |a| <= |b|
  {
    if x :| x in a {
      Subset(a - {x}, b - {x});
    }
  }

  lemma {:induction false} GainSnoc(d: nat -> real, ranks: seq<nat>, r: nat)
    ensures Gain(d, ranks + [r]) == Gain(d, ranks) + d(r)
  {
    assert (ranks + [r])[..|ranks|] == ranks;
  }

  lemma LeadingSnoc(d: nat -> real, n: nat)
    ensures Leading(n + 1) == Leading(n) + [n + 1] && Gain(d, Leading(n + 1)) == Gain(d, Leading(n)) + d(n + 1)
  {
    assert Leading(n + 1) == Leading(n) + [n + 1];
    GainSnoc(d, Leading(n), n + 1);
  }

  lemma LaterRank(d: nat -> real, n: nat, r: nat)
    requires Discounting(d) && 1 <= n <= r
    ensures RankGain(d, r, n)
  {
    assert d(r) > d(r + 1) > 0.0;
    assert r > n ==> d(n) > d(r);
  }

  lemma AscendFront(ranks: seq<nat>, top: nat)
    requires ranks != [] && AscendingFromOne(ranks, top)
    ensures AscendingFromOne(ranks[..|ranks| - 1], top) && ranks[|ranks| - 1] >= |ranks|
  {
  }

  lemma SameLast(a: seq<nat>, b: seq<nat>, x: nat, y: nat)
    ensures a + [x] == b + [y] <==> a == b && x == y
  {
    if a + [x] == b + [y] {
      assert |a + [x]| == |b + [y]| && (a + [x])[|a|] == x && (b + [y])[|b|] == y;
      assert (a + [x])[..|a|] == a && (b + [y])[..|b|] == b;
    }
  }

  /** The ranks gain at most what the leading ones gain, and less unless they are the leading ones. */
  predicate GainsAtMost(d: nat -> real, ranks: seq<nat>, leading: seq<nat>) {
    0.0 <= Gain(d, ranks) <= Gain(d, leading) && (Gain(d, ranks) == Gain(d, leading) <==> ranks == leading)
  }

  /** Among `n` ranks at most, the leading ones gain most, and only they do. */
  lemma {:induction false} GainBound(d: nat -> real, ranks: seq<nat>, top: nat, n: nat)
    requires Discounting(d) && AscendingFromOne(ranks, top) && |ranks| <= n
    ensures GainsAtMost(d, ranks, Leading(n))
    decreases n
  {
    if |ranks| < n {
      GainBound(d, ranks, top, n - 1);
      LaterRank(d, n, n);
      ShorterStep(d, ranks, n);
    } else if n > 0 {
      AscendFront(ranks, top);
      GainBound(d, ranks[..n - 1], top, n - 1);
      LaterRank(d, n, ranks[n - 1]);
      FullStep(d, ranks, n);
    } else {
      NoGain(d, ranks);
    }
  }

  lemma NoGain(d: nat -> real, ranks: seq<nat>)
    requires ranks == []
    ensures GainsAtMost(d, ranks, Leading(0))
  {
  }

  /** Rank `r` gains at most what rank `n` gains, and less unless it is that rank. */
  predicate RankGain(d: nat -> real, r: nat, n: nat) { 0.0 < d(r) <= d(n) && (d(r) == d(n) <==> r == n) }

  lemma ShorterStep(d: nat -> real, ranks: seq<nat>, n: nat)
    requires |ranks| < n && GainsAtMost(d, ranks, Leading(n - 1)) && RankGain(d, n, n)
    ensures GainsAtMost(d, ranks, Leading(n))
  {
    LeadingSnoc(d, n - 1);
    ShortGain(d, ranks, n, Leading(n - 1), Leading(n));
  }

  lemma FullStep(d: nat -> real, ranks: seq<nat>, n: nat)
    requires |ranks| == n > 0 && GainsAtMost(d, ranks[..n - 1], Leading(n - 1)) && RankGain(d, ranks[n - 1], n)
    ensures GainsAtMost(d, ranks, Leading(n))
  {
    var front, r := ranks[..n - 1], ranks[n - 1];
    assert ranks == front + [r];
    assert Leading(n) == Leading(n - 1) + [n];
    FullGain(d, front, r, Leading(n - 1), n);
  }

  /** The last rank of as many as the leading ones. */
  lemma FullGain(d: nat -> real, front: seq<nat>, r: nat, before: seq<nat>, n: nat)
    requires GainsAtMost(d, front, before) && RankGain(d, r, n)
    ensures GainsAtMost(d, front + [r], before + [n])
  {
    GainSnoc(d, front, r);
    GainSnoc(d, before, n);
    SameLast(front, before, r, n);
  }

  /** Fewer ranks than the leading ones. */
  lemma ShortGain(d: nat -> real, ranks: seq<nat>, n: nat, before: seq<nat>, leading: seq<nat>)
    requires |ranks| < n == |leading| && GainsAtMost(d, ranks, before) && RankGain(d, n, n)
    requires leading == before + [n]
    ensures GainsAtMost(d, ranks, leading)
  {
    GainSnoc(d, before, n);
  }

  lemma LeadingPositive(d: nat -> real, n: nat)
    requires Discounting(d) && n > 0
    ensures Gain(d, Leading(n)) > 0.0
  {
    LeadingSnoc(d, n - 1);
    LaterRank(d, n, n);
    LeadingNatural(d, n - 1);
  }

  lemma {:induction false} LeadingNatural(d: nat -> real, n: nat)
    requires Discounting(d)
    ensures Gain(d, Leading(n)) >= 0.0
  {
    if n > 0 {
      LeadingNatural(d, n - 1);
      LeadingSnoc(d, n - 1);
      LaterRank(d, n, n);
    }
  }

  lemma Quotient(x: real, y: real)
    requires 0.0 <= x <= y && y > 0.0
    ensures 0.0 <= x / y <= 1.0 && x / y * y == x && (x / y == 1.0 <==> x == y)
  {
    var q := x / y;
    assert q * y == x && (q < 0.0 ==> q * y < 0.0) && (q > 1.0 ==> q * y > y);
  }

  function Ndcg(d: nat -> real, o: Observation): real {
    var ideal := Gain(d, Leading(IdealCount(o)));
    if ideal == 0.0 then 0.0 else Gain(d, Hits(o)) / ideal
  }

  function Reciprocal(rank: nat): real { if rank == 0 then 0.0 else 1.0 / rank as real }

  function ScoresOf(d: nat -> real, o: Observation): Scores {
    if Hits(o) == [] then Scores(0, 0.0, Ndcg(d, o), 0)
    else Scores(1, Reciprocal(Hits(o)[0]), Ndcg(d, o), if EvidencedHit(o) then 1 else 0)
  }

  /** Either nothing was hit, or exactly the leading ranks, as many as the accepted ids allow. */
  predicate Perfect(o: Observation) { Hits(o) == [] || Hits(o) == Leading(IdealCount(o)) }

  /** Either nothing was hit, or the first result. */
  predicate FirstIsHit(o: Observation) { Hits(o) == [] || (o.ranked != [] && o.ranked[0] in o.accepted) }

  lemma HitsShape(o: Observation)
    requires ValidObservation(o)
    ensures AscendingFromOne(Hits(o), |Top(o)|) && |Hits(o)| <= IdealCount(o)
    ensures FirstIsHit(o) <==> Hits(o) == [] || Hits(o)[0] == 1
  {
    var accepted, top := Elements(o.accepted), Top(o);
    RanksAscend(accepted, top);
    HitsBounded(accepted, top);
    RanksFit(accepted, top);
  }

  lemma {:induction false} RanksFit(accepted: set<string>, ranked: seq<string>)
    ensures |RelevantRanks(accepted, ranked)| <= |ranked|
    ensures RelevantRanks(accepted, ranked) != [] ==>
              (RelevantRanks(accepted, ranked)[0] == 1 <==> ranked[0] in accepted)
  {
    RanksAscend(accepted, ranked);
    var ranks := RelevantRanks(accepted, ranked);
    if ranks != [] {
      FirstRank(ranks, |ranked|);
      assert |ranks| <= ranks[|ranks| - 1] <= |ranked|;
      assert 0 + 1 in ranks <==> ranked[0] in accepted;
    }
  }

  lemma FirstRank(ranks: seq<nat>, top: nat)
    requires ranks != [] && AscendingFromOne(ranks, top)
    ensures 1 in ranks <==> ranks[0] == 1
  {
    forall i | 1 <= i < |ranks| ensures ranks[i] != 1 { assert ranks[0] < ranks[i]; }
  }

  /** The gain of an item is at most the ideal gain, which only the leading ranks reach. */
  lemma NdcgBound(d: nat -> real, o: Observation)
    requires Discounting(d) && ValidObservation(o)
    ensures Gain(d, Hits(o)) <= Gain(d, Leading(IdealCount(o)))
    ensures Hits(o) == [] ==> Ndcg(d, o) == 0.0
    ensures Hits(o) != [] ==> 0.0 <= Ndcg(d, o) <= 1.0 && (Ndcg(d, o) == 1.0 <==> Perfect(o))
  {
    HitsShape(o);
    IdealShare(d, Hits(o), |Top(o)|, IdealCount(o));
  }

  lemma {:induction false} IdealShare(d: nat -> real, hits: seq<nat>, top: nat, n: nat)
    requires Discounting(d) && AscendingFromOne(hits, top) && |hits| <= n
    ensures Gain(d, hits) <= Gain(d, Leading(n)) && (hits == [] ==> Gain(d, hits) == 0.0)
    ensures hits != [] ==>
              && Gain(d, Leading(n)) > 0.0 && 0.0 <= Gain(d, hits) / Gain(d, Leading(n)) <= 1.0
              && (Gain(d, hits) / Gain(d, Leading(n)) == 1.0 <==> hits == Leading(n))
  {
    GainBound(d, hits, top, n);
    if hits != [] {
      LeadingPositive(d, n);
      ShareOfIdeal(d, hits, Leading(n));
    }
  }

  lemma {:induction false} ShareOfIdeal(d: nat -> real, hits: seq<nat>, leading: seq<nat>)
    requires GainsAtMost(d, hits, leading) && Gain(d, leading) > 0.0
    ensures 0.0 <= Gain(d, hits) / Gain(d, leading) <= 1.0
    ensures Gain(d, hits) / Gain(d, leading) == 1.0 <==> hits == leading
  {
    Quotient(Gain(d, hits), Gain(d, leading));
  }

  // ----- what the scores of one item say -----

  /** Rank `r` is within the cutoff and names an accepted id. */
  predicate HitAt(o: Observation, r: nat) { 1 <= r <= 10 && r <= |o.ranked| && o.ranked[r - 1] in o.accepted }

  ghost predicate FirstHit(o: Observation, r: nat) { HitAt(o, r) && forall q :: HitAt(o, q) ==> r <= q }

  /** The discounts of the ranks up to `n` that are hits. */
  function Earned(d: nat -> real, o: Observation, n: nat): real {
    if n == 0 then 0.0 else Earned(d, o, n - 1) + if HitAt(o, n) then d(n) else 0.0
  }

  /** The discounts of the first `n` ranks. */
  function Discounts(d: nat -> real, n: nat): real { if n == 0 then 0.0 else Discounts(d, n - 1) + d(n) }

  /** The earned share of the discounts of as many ranks as there are accepted ids, or of ten. */
  function IdealPart(d: nat -> real, o: Observation): real {
    var ideal := Discounts(d, if |o.accepted| < 10 then |o.accepted| else 10);
    if ideal == 0.0 then 0.0 else Earned(d, o, 10) / ideal
  }

  lemma {:induction false} HitsExactly(o: Observation, r: nat)
    ensures r in Hits(o) <==> HitAt(o, r)
  {
    var accepted, top := Elements(o.accepted), Top(o);
    RanksAscend(accepted, top);
    if HitAt(o, r) { assert top[r - 1] in accepted && (r - 1) + 1 in RelevantRanks(accepted, top); }
    if r in Hits(o) {
      RanksWithin(accepted, top, r);
      assert (r - 1) + 1 in RelevantRanks(accepted, top) && top[r - 1] in accepted;
    }
  }

  lemma {:induction false} RanksWithin(accepted: set<string>, ranked: seq<string>, r: nat)
    requires r in RelevantRanks(accepted, ranked)
    ensures 1 <= r <= |ranked|
  {
    RanksAscend(accepted, ranked);
    var i :| 0 <= i < |RelevantRanks(accepted, ranked)| && RelevantRanks(accepted, ranked)[i] == r;
  }

  lemma {:induction false} EarnedIsGain(d: nat -> real, o: Observation, n: nat)
    requires n <= |Top(o)|
    ensures Earned(d, o, n) == Gain(d, RelevantRanks(Elements(o.accepted), Top(o)[..n]))
  {
    if n > 0 {
      var accepted, front, last := Elements(o.accepted), Top(o)[..n - 1], Top(o)[n - 1];
      EarnedIsGain(d, o, n - 1);
      assert Top(o)[..n] == front + [last];
      assert HitAt(o, n) <==> last in accepted;
      GainMore(d, accepted, front, last);
    }
  }

  lemma {:induction false} GainMore(d: nat -> real, accepted: set<string>, front: seq<string>, last: string)
    ensures Gain(d, RelevantRanks(accepted, front + [last]))
            == Gain(d, RelevantRanks(accepted, front)) + if last in accepted then d(|front| + 1) else 0.0
  {
    RelevantSnoc(accepted, front, last);
    GainStep(d, RelevantRanks(accepted, front), |front| + 1, last in accepted);
  }

  lemma {:induction false} GainStep(d: nat -> real, ranks: seq<nat>, r: nat, hit: bool)
    ensures Gain(d, ranks + if hit then [r] else []) == Gain(d, ranks) + if hit then d(r) else 0.0
  {
    if hit { GainSnoc(d, ranks, r); } else { assert ranks + [] == ranks; }
  }

  lemma {:induction false} EarnedNoMore(d: nat -> real, o: Observation, n: nat)
    requires |Top(o)| <= n <= CUTOFF
    ensures Earned(d, o, n) == Earned(d, o, |Top(o)|)
  {
    if n > |Top(o)| { EarnedNoMore(d, o, n - 1); }
  }

  lemma {:induction false} DiscountsAreGain(d: nat -> real, n: nat)
    ensures Discounts(d, n) == Gain(d, Leading(n))
  {
    if n > 0 {
      DiscountsAreGain(d, n - 1);
      LeadingSnoc(d, n - 1);
    }
  }

  lemma {:induction false} UniqueCount(ids: seq<string>)
    requires Unique(ids)
    ensures |Elements(ids)| == |ids|
  {
    if ids != [] {
      var front, last := ids[..|ids| - 1], ids[|ids| - 1];
      UniqueCount(front);
      assert ids == front + [last];
      assert last !in front && Elements(ids) == Elements(front) + {last};
    }
  }

  /** An item is found when one of its first ten ranks is a hit, scores the reciprocal of the first such rank and the
      earned share of the ideal discounts, and counts as evidenced when the id of a hit has evidence. */
  lemma {:induction false} ItemScoresExactly(d: nat -> real, o: Observation)
    requires Discounting(d) && ValidObservation(o)
    ensures ScoresOf(d, o).recalled == if exists r :: HitAt(o, r) then 1 else 0
    ensures (forall r :: !HitAt(o, r)) ==> ScoresOf(d, o).reciprocal == 0.0 == ScoresOf(d, o).ndcg
    ensures forall r :: FirstHit(o, r) ==> ScoresOf(d, o).reciprocal == 1.0 / r as real
    ensures ScoresOf(d, o).ndcg == IdealPart(d, o)
    ensures ScoresOf(d, o).evidenced == if exists r :: HitAt(o, r) && o.ranked[r - 1] in o.evidence then 1 else 0
  {
    FoundScore(d, o);
    FirstScore(d, o);
    ShareScore(d, o);
    EvidenceScore(d, o);
  }

  lemma FoundScore(d: nat -> real, o: Observation)
    ensures ScoresOf(d, o).recalled == if exists r :: HitAt(o, r) then 1 else 0
    ensures (forall r :: !HitAt(o, r)) ==> ScoresOf(d, o).reciprocal == 0.0
  {
    ScoresSpelled(d, o, Hits(o), Ndcg(d, o));
    FoundExactly(o);
  }

  lemma {:induction false} ShareScore(d: nat -> real, o: Observation)
    requires Discounting(d) && ValidObservation(o)
    ensures ScoresOf(d, o).ndcg == IdealPart(d, o)
    ensures (forall r :: !HitAt(o, r)) ==> ScoresOf(d, o).ndcg == 0.0
  {
    ScoresSpelled(d, o, Hits(o), Ndcg(d, o));
    ScoreShare(d, o);
    FoundExactly(o);
  }

  lemma EvidenceScore(d: nat -> real, o: Observation)
    ensures ScoresOf(d, o).evidenced == if exists r :: HitAt(o, r) && o.ranked[r - 1] in o.evidence then 1 else 0
  {
    ScoresSpelled(d, o, Hits(o), Ndcg(d, o));
    EvidenceFound(o);
  }

  lemma FirstScore(d: nat -> real, o: Observation)
    requires ValidObservation(o)
    ensures forall r :: FirstHit(o, r) ==> ScoresOf(d, o).reciprocal == 1.0 / r as real
  {
    FirstHitExactly(o);
    ScoresSpelled(d, o, Hits(o), Ndcg(d, o));
    forall r | FirstHit(o, r) ensures ScoresOf(d, o).reciprocal == 1.0 / r as real { assert r > 0; }
  }

  lemma EvidenceFound(o: Observation)
    ensures Hits(o) != [] && EvidencedHit(o) <==> exists r :: HitAt(o, r) && o.ranked[r - 1] in o.evidence
  {
    EvidencedExactly(o);
    if r :| HitAt(o, r) && o.ranked[r - 1] in o.evidence { FoundExactly(o); }
  }

  lemma ScoresSpelled(d: nat -> real, o: Observation, hits: seq<nat>, ndcg: real)
    requires hits == Hits(o) && ndcg == Ndcg(d, o)
    ensures ScoresOf(d, o).ndcg == ndcg && ScoresOf(d, o).recalled == (if hits == [] then 0 else 1)
    ensures hits == [] ==> ScoresOf(d, o).reciprocal == 0.0
    ensures hits != [] && hits[0] > 0 ==> ScoresOf(d, o).reciprocal == 1.0 / hits[0] as real
    ensures ScoresOf(d, o).evidenced == if hits != [] && EvidencedHit(o) then 1 else 0
  {
  }

  lemma FoundExactly(o: Observation)
    ensures Hits(o) != [] <==> exists r :: HitAt(o, r)
  {
    if Hits(o) != [] {
      assert Hits(o)[0] in Hits(o);
      HitsExactly(o, Hits(o)[0]);
    }
    if r :| HitAt(o, r) { HitsExactly(o, r); }
  }

  lemma FirstHitExactly(o: Observation)
    requires ValidObservation(o)
    ensures forall r :: FirstHit(o, r) ==> Hits(o) != [] && r == Hits(o)[0]
  {
    HitsShape(o);
    forall r | FirstHit(o, r) ensures Hits(o) != [] && r == Hits(o)[0] {
      HitsExactly(o, r);
      FirstIsLeast(Hits(o), |Top(o)|, r);
      HitsExactly(o, Hits(o)[0]);
      assert HitAt(o, Hits(o)[0]);
    }
  }

  lemma FirstIsLeast(ranks: seq<nat>, top: nat, q: nat)
    requires AscendingFromOne(ranks, top) && q in ranks
    ensures ranks[0] <= q
  {
  }

  lemma {:induction false} ScoreShare(d: nat -> real, o: Observation)
    requires Discounting(d) && ValidObservation(o)
    ensures Ndcg(d, o) == IdealPart(d, o)
    ensures Hits(o) == [] ==> Ndcg(d, o) == 0.0
  {
    UniqueCount(o.accepted);
    EarnedIsHits(d, o);
    DiscountsAreGain(d, IdealCount(o));
    NdcgBound(d, o);
  }

  lemma {:induction false} EarnedIsHits(d: nat -> real, o: Observation)
    ensures Earned(d, o, 10) == Gain(d, Hits(o))
  {
    EarnedIsGain(d, o, |Top(o)|);
    assert Top(o)[..|Top(o)|] == Top(o);
    EarnedNoMore(d, o, 10);
  }

  lemma EvidencedExactly(o: Observation)
    ensures EvidencedHit(o) <==> exists r :: HitAt(o, r) && o.ranked[r - 1] in o.evidence
  {
    if EvidencedHit(o) {
      var id :| id in Elements(o.accepted) * Elements(Top(o)) * Elements(o.evidence);
      var i :| 0 <= i < |Top(o)| && Top(o)[i] == id;
      assert HitAt(o, i + 1);
    }
    if r :| HitAt(o, r) && o.ranked[r - 1] in o.evidence {
      assert Top(o)[r - 1] == o.ranked[r - 1];
      assert o.ranked[r - 1] in Elements(o.accepted) * Elements(Top(o)) * Elements(o.evidence);
    }
  }

  lemma ReciprocalBound(rank: nat)
    requires rank >= 1
    ensures 0.0 <= Reciprocal(rank) <= 1.0 && (Reciprocal(rank) == 1.0 <==> rank == 1)
  {
    Quotient(1.0, rank as real);
  }

  // ----- all items -----

  function Plus(s: Scores, t: Scores): Scores {
    Scores(s.recalled + t.recalled, s.reciprocal + t.reciprocal, s.ndcg + t.ndcg, s.evidenced + t.evidenced)
  }

  function Total(d: nat -> real, items: seq<Observation>): Scores {
    if items == [] then Scores(0, 0.0, 0.0, 0)
    else Plus(Total(d, items[..|items| - 1]), ScoresOf(d, items[|items| - 1]))
  }

  predicate AllHit(items: seq<Observation>) { forall o :: o in items ==> Hits(o) != [] }

  predicate AllPerfect(items: seq<Observation>) { forall o :: o in items ==> Perfect(o) }

  predicate AllFirst(items: seq<Observation>) { forall o :: o in items ==> FirstIsHit(o) }

  ghost predicate AllValid(items: seq<Observation>) { forall o :: o in items ==> ValidObservation(o) }

  /** Recall bounds the other scores, and when each of them reaches it. */
  ghost predicate WellBounded(t: Scores, n: nat, allHit: bool, allPerfect: bool, allFirst: bool) {
    && 0.0 <= t.ndcg <= t.recalled as real && 0.0 <= t.reciprocal <= t.recalled as real
    && t.recalled <= n && t.evidenced <= t.recalled && (t.recalled == n <==> allHit)
    && (t.ndcg == t.recalled as real <==> allPerfect) && (t.reciprocal == t.recalled as real <==> allFirst)
  }

  lemma ItemBounds(d: nat -> real, o: Observation)
    requires Discounting(d) && ValidObservation(o)
    ensures WellBounded(ScoresOf(d, o), 1, Hits(o) != [], Perfect(o), FirstIsHit(o))
  {
    HitsShape(o);
    NdcgBound(d, o);
    if Hits(o) != [] { ReciprocalBound(Hits(o)[0]); }
  }

  lemma PlusBounds(s: Scores, t: Scores, m: nat, n: nat, a: bool, b: bool, c: bool, p: bool, q: bool, r: bool)
    requires WellBounded(s, m, a, b, c) && WellBounded(t, n, p, q, r)
    ensures WellBounded(Plus(s, t), m + n, a && p, b && q, c && r)
  {
  }

  lemma SplitLast(items: seq<Observation>)
    requires items != []
    ensures var front, last := items[..|items| - 1], items[|items| - 1];
            && (AllHit(items) <==> AllHit(front) && Hits(last) != [])
              && (AllPerfect(items) <==> AllPerfect(front) && Perfect(last))
            && (AllFirst(items) <==> AllFirst(front) && FirstIsHit(last))
              && (AllValid(items) <==> AllValid(front) && ValidObservation(last))
  {
    assert items == items[..|items| - 1] + [items[|items| - 1]];
  }

  lemma {:induction false} TotalBounds(d: nat -> real, items: seq<Observation>)
    requires Discounting(d) && AllValid(items)
    ensures WellBounded(Total(d, items), |items|, AllHit(items), AllPerfect(items), AllFirst(items))
  {
    if items != [] {
      var front, last := items[..|items| - 1], items[|items| - 1];
      SplitLast(items);
      TotalBounds(d, front);
      ItemBounds(d, last);
      PlusBounds(Total(d, front), ScoresOf(d, last), |front|, 1, AllHit(front), AllPerfect(front), AllFirst(front),
                 Hits(last) != [], Perfect(last), FirstIsHit(last));
    }
  }

  lemma AverageOrder(x: real, y: real, n: real)
    requires 0.0 <= x <= y && n > 0.0
    ensures 0.0 <= x / n <= y / n && x / n * n == x && (x / n == y / n <==> x == y)
  {
    var p, q := x / n, y / n;
    assert p * n == x && q * n == y && (p < 0.0 ==> p * n < 0.0) && (p > q ==> p * n > q * n);
  }

  lemma TotalGrows(d: nat -> real, items: seq<Observation>, i: nat)
    requires i < |items|
    ensures Total(d, items[..i + 1]) == Plus(Total(d, items[..i]), ScoresOf(d, items[i]))
  {
    assert items[..i + 1][..i] == items[..i];
  }

  function Share(x: real, n: nat): real
    requires n > 0
  {
    x / n as real
  }

  /** What the final divisions keep. */
  lemma AveragesBounded(t: Scores, n: nat, allHit: bool, allPerfect: bool, allFirst: bool)
    requires WellBounded(t, n, allHit, allPerfect, allFirst) && n > 0
    ensures var recall, mrr, ndcg := Share(t.recalled as real, n), Share(t.reciprocal, n), Share(t.ndcg, n);
            && 0.0 <= ndcg <= recall <= 1.0 && 0.0 <= mrr <= recall
            && (recall == 1.0 <==> allHit) && (ndcg == recall <==> allPerfect) && (mrr == recall <==> allFirst)
    ensures t.recalled > 0 ==> 0.0 <= Share(t.evidenced as real, t.recalled) <= 1.0
  {
    Quotient(t.recalled as real, n as real);
    AverageOrder(t.reciprocal, t.recalled as real, n as real);
    AverageOrder(t.ndcg, t.recalled as real, n as real);
    if t.recalled > 0 { Quotient(t.evidenced as real, t.recalled as real); }
  }

  /** One observation of the loop. */
  method AddScores(d: nat -> real, o: Observation, recalled: nat, reciprocal: real, ndcg: real, evidenced: nat)
      returns (recalled': nat, reciprocal': real, ndcg': real, evidenced': nat)
    ensures Scores(recalled', reciprocal', ndcg', evidenced')
            == Plus(Scores(recalled, reciprocal, ndcg, evidenced), ScoresOf(d, o))
  {
    recalled', reciprocal', evidenced' := recalled, reciprocal, evidenced;
    var ranks := Hits(o);
    if ranks != [] {
      recalled' := recalled + 1;
      reciprocal' := reciprocal + Reciprocal(ranks[0]);
      if EvidencedHit(o) { evidenced' := evidenced + 1; }
    }
    ndcg' := ndcg + Ndcg(d, o);
  }

  /** The loop of `_positive_metrics`. */
  method Accumulate(d: nat -> real, items: seq<Observation>)
      returns (recalled: nat, reciprocal: real, ndcg: real, evidenced: nat)
    ensures Total(d, items) == Scores(recalled, reciprocal, ndcg, evidenced)
  {
    recalled, reciprocal, ndcg, evidenced := 0, 0.0, 0.0, 0;
    for i := 0 to |items|
      invariant Total(d, items[..i]) == Scores(recalled, reciprocal, ndcg, evidenced)
    {
      TotalGrows(d, items, i);
      recalled, reciprocal, ndcg, evidenced := AddScores(d, items[i], recalled, reciprocal, ndcg, evidenced);
    }
    assert items[..|items|] == items;
  }

  /** `_positive_metrics`. */
  method PositiveMetrics(d: nat -> real, items: seq<Observation>)
      returns (recall: real, mrr: real, ndcg: real, evidence: real)
    requires Discounting(d) && AllValid(items)
    ensures 0.0 <= ndcg <= recall <= 1.0 && 0.0 <= mrr <= recall && 0.0 <= evidence <= 1.0
    ensures items != [] ==> (recall == 1.0 <==> AllHit(items))
    ensures ndcg == recall <==> AllPerfect(items)
    ensures mrr == recall <==> AllFirst(items)
    ensures items != [] ==> var n, t := |items|, Total(d, items);
              && recall == Share(t.recalled as real, n) && mrr == Share(t.reciprocal, n) && ndcg == Share(t.ndcg, n)
              && evidence == if t.recalled == 0 then 1.0 else Share(t.evidenced as real, t.recalled)
  {
    if items == [] { return 0.0, 0.0, 0.0, 0.0; }
    var recalled, reciprocal, total, evidenced := Accumulate(d, items);
    TotalBounds(d, items);
    AveragesBounded(Total(d, items), |items|, AllHit(items), AllPerfect(items), AllFirst(items));
    recall, mrr, ndcg := Share(recalled as real, |items|), Share(reciprocal, |items|), Share(total, |items|);
    evidence := if recalled == 0 then 1.0 else Share(evidenced as real, recalled);
  }

  // ----- latency percentile -----

  /** `max(0, ceil(0.95 * n) - 1)` */
  function P95Index(n: nat): nat { if n == 0 then 0 else (19 * n + 19) / 20 - 1 }

  predicate AtMost(x: real, y: real) { x <= y }

  function P95(values: seq<real>): Option<real> {
    if values == [] then None else Some(SortBy(AtMost, values)[P95Index(|values|)])
  }

  function UpTo(v: real): real -> bool { x => x <= v }

  function Below(v: real): real -> bool { x => x < v }

  /** At least 95% of the values are at most `v`, and fewer than 95% are below it. */
  predicate IsP95(values: seq<real>, v: real) {
    20 * Count(UpTo(v), values) >= 19 * |values| && 20 * Count(Below(v), values) < 19 * |values|
  }

  lemma RealOrder()
    ensures KeyOrder(AtMost)
  {
  }

  /** The percentile of a nonempty sample is one of its values, and the only number in that position. */
  lemma P95Exact(values: seq<real>, v: real)
    requires values != []
    ensures P95(values).Some? && P95(values).value in values
    ensures P95(values) == Some(v) <==> IsP95(values, v)
  {
    RealOrder();
    SortBySorts(AtMost, values);
    var ordered, k := SortBy(AtMost, values), P95Index(|values|);
    CountReordered(UpTo(v), ordered, values);
    var w := ordered[k];
    assert w in multiset(values);
    CountReordered(UpTo(w), ordered, values);
    CountReordered(Below(w), ordered, values);
    SortedCounts(ordered, k, w);
    if IsP95(values, v) { P95Unique(values, v, w); }
  }

  lemma {:induction false} SortedCounts(ordered: seq<real>, k: nat, w: real)
    requires SortedBy(AtMost, ordered) && k < |ordered| && w == ordered[k]
    ensures Count(UpTo(w), ordered) > k && Count(Below(w), ordered) <= k
  {
    forall j | 0 <= j < k + 1 ensures UpTo(w)(ordered[j]) { assert j < k ==> AtMost(ordered[j], w); }
    CountAtLeast(UpTo(w), ordered, k + 1);
    forall j | k <= j < |ordered| ensures !Below(w)(ordered[j]) { assert j > k ==> AtMost(w, ordered[j]); }
    CountAtMost(Below(w), ordered, k);
  }

  lemma P95Unique(values: seq<real>, v: real, w: real)
    requires IsP95(values, v) && IsP95(values, w)
    ensures v == w
  {
    if v < w { CountImplied(UpTo(v), Below(w), values); }
    if w < v { CountImplied(UpTo(w), Below(v), values); }
  }
}
