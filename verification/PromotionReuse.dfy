/** When candidate names come back (src/release.py). */
module PromotionReuse {
  // The code does not refuse a candidate name that was in service before. Exactly which callers can
  // then put two promoters into the window.

  import opened Promotion
  import opened Wrappers

  ghost predicate Shared(w: World) { exists i, j :: 0 <= i < j < |w.pcs| && InWindow(w, i) && InWindow(w, j) }

  /** A promoter that passes its gates and whose pending name is free. */
  predicate Usable(callers: seq<Caller>, w0: World, i: nat) {
    i < |callers| && callers[i].Promoter? && callers[i].cleared && callers[i].releaseId !in w0.pending
  }

  /** The collection in service after the first `n` promotions of a path. */
  function Place(callers: seq<Caller>, first: string, path: seq<nat>, n: nat): string
    requires n <= |path| && forall k :: 0 <= k < |path| ==> path[k] < |callers| && callers[path[k]].Promoter?
  {
    if n == 0 then first else callers[path[n - 1]].candidate
  }

  /** Different promoters, each starting from where the one before it arrives. */
  predicate Walk(callers: seq<Caller>, w0: World, first: string, path: seq<nat>) {
    && (forall k :: 0 <= k < |path| ==> Usable(callers, w0, path[k]))
    && (forall k, l :: 0 <= k < l < |path| ==> path[k] != path[l])
    && (forall k {:trigger Place(callers, first, path, k)} :: 0 <= k < |path| ==>
      callers[path[k]].expected == Place(callers, first, path, k))
  }

  /** `q` takes the service from the end of the path back to a place where it has been, and `r` starts from there. */
  predicate Returns(callers: seq<Caller>, w0: World, first: string, path: seq<nat>, q: nat, r: nat) {
    && Walk(callers, w0, first, path) && Usable(callers, w0, q) && Usable(callers, w0, r)
    && q != r && q !in path && r !in path && callers[q].releaseId != callers[r].releaseId
    && callers[q].expected == Place(callers, first, path, |path|) && callers[q].candidate == callers[r].expected
    && exists v :: 0 <= v <= |path| && Place(callers, first, path, v) == callers[r].expected
  }

  /** Some walk through the candidates returns to a name that another promoter starts from. */
  ghost predicate ReuseCycle(callers: seq<Caller>, w0: World)
    requires w0.current.Some?
  {
    exists path: seq<nat>, q: nat, r: nat :: Returns(callers, w0, w0.current.value.collection, path, q, r)
  }

  // ----- a cycle opens the window twice -----

  predicate AtPlace(w: World, place: string) {
    w.current.Some? && w.current.value.collection == place && w.alias == Some(place)
  }

  /** The promoters of the path can go one after the other, from the place where the world is. */
  predicate CanWalk(callers: seq<Caller>, w: World, path: seq<nat>)
    requires |callers| == |w.pcs|
  {
    && w.current.Some? && AtPlace(w, w.current.value.collection) && Walk(callers, w, w.current.value.collection, path)
    && forall k :: 0 <= k < |path| ==> w.pcs[path[k]].Idle?
  }

  lemma FrontWalks(callers: seq<Caller>, w: World, front: seq<nat>, last: nat)
    requires |callers| == |w.pcs| && CanWalk(callers, w, front + [last])
    ensures CanWalk(callers, w, front) && last !in front && Usable(callers, w, last) && w.pcs[last].Idle?
    ensures callers[last].expected == Place(callers, w.current.value.collection, front, |front|)
  {
    var path, first := front + [last], w.current.value.collection;
    forall k | 0 <= k < |front|
      ensures Usable(callers, w, front[k]) && front[k] == path[k] { assert Usable(callers, w, path[k]); }
    forall k | 0 <= k <= |front| ensures Place(callers, first, front, k) == Place(callers, first, path, k) {}
    assert path[|front|] == last && Usable(callers, w, last);
  }

  /** The promoters of the path have gone: the service is at `place`, and everything else is as before. */
  predicate Walked(callers: seq<Caller>, w: World, w': World, path: seq<nat>, place: string)
    requires |callers| == |w.pcs|
  {
    && AtPlace(w', place) && w'.pending == w.pending && |w'.pcs| == |callers|
    && w'.served == w.served + ServedBy(callers, path)
    && forall k :: 0 <= k < |callers| && k !in path ==> w'.pcs[k] == w.pcs[k]
  }

  /** The manifests that the promoters of a path put into service. */
  function ServedBy(callers: seq<Caller>, path: seq<nat>): (s: seq<Current>)
    ensures |s| == |path|
  {
    seq(|path|, k requires 0 <= k < |path| => OwnManifest(callers, path[k]))
  }

  function OwnManifest(callers: seq<Caller>, i: nat): Current {
    if i < |callers| && callers[i].Promoter? then Current(callers[i].releaseId, callers[i].candidate)
    else Current("", "")
  }

  lemma OneWalks(callers: seq<Caller>, w: World, i: nat) returns (events: seq<Event>)
    requires |callers| == |w.pcs| && Usable(callers, w, i) && w.pcs[i].Idle? && AtPlace(w, callers[i].expected)
    ensures Walked(callers, w, Run(callers, w, events), [i], callers[i].candidate)
  {
    PromotesAlone(callers, w, i);
    events := Repeat(i, 5);
    assert ServedBy(callers, [i]) == [OwnManifest(callers, i)];
  }

  lemma {:induction false} WalksAlone(callers: seq<Caller>, w: World, path: seq<nat>) returns (events: seq<Event>)
    requires |callers| == |w.pcs| && CanWalk(callers, w, path)
    ensures Walked(callers, w, Run(callers, w, events), path, Place(callers, w.current.value.collection, path, |path|))
  {
    events := [];
    if path != [] {
      var front, last := path[..|path| - 1], path[|path| - 1];
      assert path == front + [last];
      FrontWalks(callers, w, front, last);
      events := WalksAlone(callers, w, front);
      events := LastWalks(callers, w, front, last, events);
    }
  }

  lemma LastWalks(callers: seq<Caller>, w: World, front: seq<nat>, last: nat, before: seq<Event>)
      returns (events: seq<Event>)
    requires |callers| == |w.pcs| && Usable(callers, w, last) && w.pcs[last].Idle? && last !in front
    requires Walked(callers, w, Run(callers, w, before), front, callers[last].expected)
    ensures Walked(callers, w, Run(callers, w, events), front + [last], callers[last].candidate)
  {
    var more := OneWalks(callers, Run(callers, w, before), last);
    RunJoins(callers, w, before, more);
    events := before + more;
    assert ServedBy(callers, front + [last]) == ServedBy(callers, front) + ServedBy(callers, [last]);
  }

  // ----- the other callers of the cycle -----

  lemma {:induction false} Compares(callers: seq<Caller>, w: World, r: nat, events: seq<Event>)
    requires |callers| == |w.pcs| && Usable(callers, w, r) && w.pcs[r].Idle? && AtPlace(w, callers[r].expected)
    requires events == Repeat(r, 2)
    ensures Run(callers, w, events) == w.(pcs := w.pcs[r := AliasMatched])
  {
    ComparesAlone(callers, w, r);
  }

  lemma {:induction false} Swaps(callers: seq<Caller>, w: World, q: nat, events: seq<Event>)
    requires |callers| == |w.pcs| && Usable(callers, w, q) && w.pcs[q].Idle? && AtPlace(w, callers[q].expected)
    requires events == Repeat(q, 4)
    ensures Run(callers, w, events) == SwappedBy(callers, w, q)
  {
    SwapsAlone(callers, w, q);
  }

  lemma {:induction false} SwapsLate(callers: seq<Caller>, w: World, r: nat, events: seq<Event>)
    requires |callers| == |w.pcs| && Usable(callers, w, r) && w.pcs[r].AliasMatched?
             && w.alias == Some(callers[r].expected)
    requires events == Repeat(r, 2)
    ensures Run(callers, w, events).pcs == w.pcs[r := Swapped]
  {
    SwapsCompared(callers, w, r);
  }

  lemma PrefixWalks(callers: seq<Caller>, w: World, first: string, path: seq<nat>, v: nat)
    requires |callers| == |w.pcs| && Walk(callers, w, first, path) && v <= |path| && AtPlace(w, first)
    requires forall k :: 0 <= k < |path| ==> w.pcs[path[k]].Idle?
    ensures CanWalk(callers, w, path[..v]) && Place(callers, first, path[..v], v) == Place(callers, first, path, v)
  {
    forall k | 0 <= k < v ensures Usable(callers, w, path[..v][k]) { assert path[..v][k] == path[k]; }
    forall k | 0 <= k <= v ensures Place(callers, first, path[..v], k) == Place(callers, first, path, k) {}
  }

  lemma SuffixWalks(callers: seq<Caller>, w0: World, w: World, first: string, path: seq<nat>, v: nat)
    requires |callers| == |w.pcs| && Walk(callers, w0, first, path) && v <= |path| && w.pending == w0.pending
    requires AtPlace(w, Place(callers, first, path, v)) && forall k :: v <= k < |path| ==> w.pcs[path[k]].Idle?
    ensures CanWalk(callers, w, path[v..])
    ensures Place(callers, Place(callers, first, path, v), path[v..], |path| - v) == Place(callers, first, path, |path|)
  {
    var rest := path[v..];
    forall k | 0 <= k < |rest| ensures rest[k] < |callers| && callers[rest[k]].Promoter? {
      SuffixUsable(callers, w0, w, first, path, v, k);
    }
    forall k | 0 <= k < |rest|
      ensures Usable(callers, w, rest[k]) && w.pcs[rest[k]].Idle?
              && callers[rest[k]].expected == Place(callers, Place(callers, first, path, v), rest, k)
    {
      SuffixUsable(callers, w0, w, first, path, v, k);
      SuffixPlace(callers, w0, first, path, v, k);
    }
    SuffixPlace(callers, w0, first, path, v, |rest|);
    forall k, l | 0 <= k < l < |rest| ensures rest[k] != rest[l] { assert path[v + k] != path[v + l]; }
  }

  lemma SuffixUsable(callers: seq<Caller>, w0: World, w: World, first: string, path: seq<nat>, v: nat, k: nat)
    requires Walk(callers, w0, first, path) && v + k < |path| && w.pending == w0.pending
    ensures path[v..][k] == path[v + k] && Usable(callers, w, path[v..][k])
  {
    assert Usable(callers, w0, path[v + k]);
  }

  lemma SuffixPlace(callers: seq<Caller>, w0: World, first: string, path: seq<nat>, v: nat, k: nat)
    requires v + k <= |path| && Walk(callers, w0, first, path)
    requires forall l :: 0 <= l < |path[v..]| ==> path[v..][l] < |callers| && callers[path[v..][l]].Promoter?
    ensures Place(callers, Place(callers, first, path, v), path[v..], k) == Place(callers, first, path, v + k)
  {
    if k > 0 { assert path[v..][k - 1] == path[v + k - 1]; }
  }

  /** `r` compares where the walk comes by. */
  lemma ComparesOnTheWay(callers: seq<Caller>, w0: World, path: seq<nat>, r: nat, v: nat) returns (events: seq<Event>)
    requires Start(callers, w0) && Usable(callers, w0, r) && r !in path && v <= |path|
    requires Walk(callers, w0, w0.current.value.collection, path)
    requires Place(callers, w0.current.value.collection, path, v) == callers[r].expected
    ensures var w := Run(callers, w0, events);
            && AtPlace(w, callers[r].expected) && w.pending == w0.pending && w.pcs[r].AliasMatched?
            && forall k :: 0 <= k < |callers| && k !in path[..v] && k != r ==> w.pcs[k].Idle?
  {
    PrefixWalks(callers, w0, w0.current.value.collection, path, v);
    var a := WalksAlone(callers, w0, path[..v]);
    var b := Repeat(r, 2);
    assert r !in path[..v];
    Compares(callers, Run(callers, w0, a), r, b);
    events := a + b;
    RunJoins(callers, w0, a, b);
  }

  /** ... and the walk goes on to its end. */
  lemma WalkPast(callers: seq<Caller>, w0: World, path: seq<nat>, r: nat, v: nat) returns (events: seq<Event>)
    requires Start(callers, w0) && Usable(callers, w0, r) && r !in path && v <= |path|
    requires Walk(callers, w0, w0.current.value.collection, path)
    requires Place(callers, w0.current.value.collection, path, v) == callers[r].expected
    ensures var w := Run(callers, w0, events);
            && |w.pcs| == |callers| && AtPlace(w, Place(callers, w0.current.value.collection, path, |path|))
              && w.pending == w0.pending
            && w.pcs[r].AliasMatched? && forall k :: 0 <= k < |callers| && k !in path && k != r ==> w.pcs[k].Idle?
  {
    var early := ComparesOnTheWay(callers, w0, path, r, v);
    RestWalks(callers, w0, Run(callers, w0, early), path, r, v);
    var late := WalkOn(callers, Run(callers, w0, early), path, r, v,
                       Place(callers, w0.current.value.collection, path, |path|));
    events := early + late;
    RunJoins(callers, w0, early, late);
  }

  lemma RestWalks(callers: seq<Caller>, w0: World, w: World, path: seq<nat>, r: nat, v: nat)
    requires Start(callers, w0) && r < |callers| && r !in path && v <= |path|
             && Walk(callers, w0, w0.current.value.collection, path)
    requires |w.pcs| == |callers| && w.pending == w0.pending
    requires AtPlace(w, Place(callers, w0.current.value.collection, path, v))
    requires forall k :: 0 <= k < |callers| && k !in path[..v] && k != r ==> w.pcs[k].Idle?
    ensures CanWalk(callers, w, path[v..])
    ensures Place(callers, w.current.value.collection, path[v..], |path[v..]|)
            == Place(callers, w0.current.value.collection, path, |path|)
  {
    AheadIdle(callers, w, path, r, v);
    SuffixWalks(callers, w0, w, w0.current.value.collection, path, v);
  }

  lemma WalkOn(callers: seq<Caller>, w: World, path: seq<nat>, r: nat, v: nat, place: string)
      returns (events: seq<Event>)
    requires r < |callers| && r !in path && v <= |path| && |w.pcs| == |callers| && CanWalk(callers, w, path[v..])
    requires Place(callers, w.current.value.collection, path[v..], |path[v..]|) == place
    requires forall k :: 0 <= k < |callers| && k !in path[..v] && k != r ==> w.pcs[k].Idle?
    ensures var w' := Run(callers, w, events);
            && AtPlace(w', place) && w'.pending == w.pending && |w'.pcs| == |callers| && w'.pcs[r] == w.pcs[r]
            && forall k :: 0 <= k < |callers| && k !in path && k != r ==> w'.pcs[k].Idle?
  {
    events := WalksAlone(callers, w, path[v..]);
    OthersIdle(callers, w, Run(callers, w, events), path, r, v, place);
  }

  lemma AheadIdle(callers: seq<Caller>, w: World, path: seq<nat>, r: nat, v: nat)
    requires |w.pcs| == |callers| && v <= |path| && r !in path
    requires forall k :: 0 <= k < |path| ==> path[k] < |callers|
    requires forall i, j :: 0 <= i < j < |path| ==> path[i] != path[j]
    requires forall k :: 0 <= k < |callers| && k !in path[..v] && k != r ==> w.pcs[k].Idle?
    ensures forall k :: v <= k < |path| ==> w.pcs[path[k]].Idle?
  {
    forall k | v <= k < |path| ensures w.pcs[path[k]].Idle? {
      NotInPrefix(path, v, k);
      assert path[k] in path;
    }
  }

  lemma OthersIdle(callers: seq<Caller>, w: World, w': World, path: seq<nat>, r: nat, v: nat, place: string)
    requires |w.pcs| == |callers| && v <= |path| && r !in path && r < |callers|
             && Walked(callers, w, w', path[v..], place)
    requires forall k :: 0 <= k < |callers| && k !in path[..v] && k != r ==> w.pcs[k].Idle?
    ensures w'.pcs[r] == w.pcs[r] && forall k :: 0 <= k < |callers| && k !in path && k != r ==> w'.pcs[k].Idle?
  {
    forall k | 0 <= k < |callers| && k !in path ensures k !in path[..v] && k !in path[v..] {}
  }

  lemma NotInPrefix(path: seq<nat>, v: nat, k: nat)
    requires v <= k < |path| && forall i, j :: 0 <= i < j < |path| ==> path[i] != path[j]
    ensures path[k] !in path[..v]
  {
  }

  lemma CycleSharesWindow(callers: seq<Caller>, w0: World, path: seq<nat>, q: nat, r: nat) returns (events: seq<Event>)
    requires Start(callers, w0) && Returns(callers, w0, w0.current.value.collection, path, q, r)
    ensures InWindow(Run(callers, w0, events), q) && InWindow(Run(callers, w0, events), r)
  {
    var first := w0.current.value.collection;
    var v :| 0 <= v <= |path| && Place(callers, first, path, v) == callers[r].expected;
    var past := WalkPast(callers, w0, path, r, v);
    var w := Run(callers, w0, past);
    var shared := BothSwap(callers, w, q, r);
    events := past + shared;
    RunJoins(callers, w0, past, shared);
  }

  /** `q` takes the service back to where `r` has compared it, and both are in the window. */
  lemma BothSwap(callers: seq<Caller>, w: World, q: nat, r: nat) returns (events: seq<Event>)
    requires |callers| == |w.pcs| && Usable(callers, w, q) && Usable(callers, w, r) && q != r
    requires w.pcs[q].Idle? && w.pcs[r].AliasMatched? && AtPlace(w, callers[q].expected)
    requires callers[q].candidate == callers[r].expected && callers[q].releaseId != callers[r].releaseId
    ensures InWindow(Run(callers, w, events), q) && InWindow(Run(callers, w, events), r)
  {
    var a, b := Repeat(q, 4), Repeat(r, 2);
    Swaps(callers, w, q, a);
    SwapsLate(callers, Run(callers, w, a), r, b);
    events := a + b;
    RunJoins(callers, w, a, b);
  }

  // ----- and nothing else does -----

  /** The history of `current.json` is the walk of the promoters that have succeeded. */
  ghost predicate Historied(callers: seq<Caller>, w0: World, w: World, path: seq<nat>) {
    && w0.current.Some? && |w.pcs| == |callers| && |w.served| == |path| + 1 && w.served[0] == w0.current.value
    && w.current == Some(w.served[|path|]) && Walk(callers, w0, w0.current.value.collection, path)
    && forall k :: 0 <= k < |path| ==>
         w.pcs[path[k]] == Finished(Promoted) && w.served[k + 1].collection == callers[path[k]].candidate
  }

  /** Who is past the manifest check has passed its gates, and expects a name that was in service. */
  predicate ChecksKnown(callers: seq<Caller>, w: World)
    requires |w.pcs| == |callers|
  {
    forall i :: 0 <= i < |callers| && Checked(w, i) ==>
      callers[i].Promoter? && callers[i].cleared && WasServed(w.served, callers[i].expected)
  }

  predicate Holds(w: World, i: nat)
    requires i < |w.pcs|
  {
    w.pcs[i].PendingWritten? || InWindow(w, i)
  }

  /** Pending names are held by one caller each, and were free at the start. */
  predicate PendingsHeld(callers: seq<Caller>, w0: World, w: World)
    requires |w.pcs| == |callers|
  {
    && w0.pending <= w.pending
    && (forall i :: 0 <= i < |callers| && Holds(w, i) ==>
          callers[i].Promoter? && callers[i].releaseId in w.pending && callers[i].releaseId !in w0.pending)
    && forall i, j :: 0 <= i < j < |callers| && Holds(w, i) && Holds(w, j) ==>
      callers[i].releaseId != callers[j].releaseId
  }

  predicate WindowHeld(callers: seq<Caller>, w: World)
    requires |w.pcs| == |callers|
  {
    && (forall i, j :: 0 <= i < j < |callers| ==> !(InWindow(w, i) && InWindow(w, j)))
    && (forall i :: 0 <= i < |callers| ==> WindowAgrees(callers, w, i))
    && ((forall i :: 0 <= i < |callers| ==> !InWindow(w, i)) ==>
      w.current.Some? && w.alias == Some(w.current.value.collection))
  }

  ghost predicate Safe(callers: seq<Caller>, w0: World, w: World, path: seq<nat>) {
    Historied(callers, w0, w, path) && ChecksKnown(callers, w) && PendingsHeld(callers, w0, w) && WindowHeld(callers, w)
  }

  lemma StartSafe(callers: seq<Caller>, w0: World)
    requires Start(callers, w0)
    ensures Safe(callers, w0, w0, [])
  {
  }

  /** What a step does to the world as a whole. */
  lemma StepShape(callers: seq<Caller>, w: World, e: Event)
    requires |callers| == |w.pcs|
    ensures var w' := Step(callers, w, e);
            && |w'.pcs| == |w.pcs| && w.served <= w'.served
            && (e.caller >= |callers| ==> w' == w)
            && forall k :: 0 <= k < |callers| && k != e.caller ==> w'.pcs[k] == w.pcs[k]
  {
  }

  lemma StillServed(served: seq<Current>, more: seq<Current>, collection: string)
    requires WasServed(served, collection) && served <= more
    ensures WasServed(more, collection)
  {
    var k :| 0 <= k < |served| && served[k].collection == collection;
    assert more[k] == served[k];
  }

  lemma StepChecks(callers: seq<Caller>, w0: World, w: World, path: seq<nat>, e: Event)
    requires Safe(callers, w0, w, path)
    ensures ChecksKnown(callers, Step(callers, w, e))
  {
    var w' := Step(callers, w, e);
    StepShape(callers, w, e);
    forall i | 0 <= i < |callers| && Checked(w', i)
      ensures callers[i].Promoter? && callers[i].cleared && WasServed(w'.served, callers[i].expected)
    {
      if Checked(w, i) {
        StillServed(w.served, w'.served, callers[i].expected);
      } else {
        assert w'.served == w.served && w.served[|path|].collection == callers[i].expected;
      }
    }
  }

  lemma StepPendings(callers: seq<Caller>, w0: World, w: World, path: seq<nat>, e: Event)
    requires Safe(callers, w0, w, path)
    ensures PendingsHeld(callers, w0, Step(callers, w, e))
  {
    StepShape(callers, w, e);
    if e.caller < |callers| {
      StepPending(callers, w, e);
      PendingsKept(callers, w0, w, Step(callers, w, e), e.caller);
    }
  }

  /** What a step does to the pending names: its caller takes a free one, keeps it, lets it go, or leaves it behind. */
  lemma StepPending(callers: seq<Caller>, w: World, e: Event)
    requires |callers| == |w.pcs| && e.caller < |callers|
    requires Holds(w, e.caller) ==> callers[e.caller].Promoter? && callers[e.caller].releaseId in w.pending
    ensures var i, w' := e.caller, Step(callers, w, e);
            if Holds(w', i) then
              if Holds(w, i) then w'.pending == w.pending
              else callers[i].Promoter? && callers[i].releaseId !in w.pending
                   && w'.pending == w.pending + {callers[i].releaseId}
            else w.pending <= w'.pending
                 || (callers[i].Promoter? && Holds(w, i) && w'.pending == w.pending - {callers[i].releaseId})
  {
  }

  lemma PendingsKept(callers: seq<Caller>, w0: World, w: World, w': World, i: nat)
    requires |w.pcs| == |w'.pcs| == |callers| && i < |callers| && PendingsHeld(callers, w0, w)
    requires forall k :: 0 <= k < |callers| && k != i ==> w'.pcs[k] == w.pcs[k]
    requires if Holds(w', i) then
               if Holds(w, i) then w'.pending == w.pending
               else callers[i].Promoter? && callers[i].releaseId !in w.pending
                    && w'.pending == w.pending + {callers[i].releaseId}
             else w.pending <= w'.pending
                  || (callers[i].Promoter? && Holds(w, i) && w'.pending == w.pending - {callers[i].releaseId})
    ensures PendingsHeld(callers, w0, w')
  {
    forall k | 0 <= k < |callers| && k != i ensures Holds(w', k) <==> Holds(w, k) {}
    forall k | 0 <= k < |callers| && k != i && Holds(w, k) && (Holds(w, i) || Holds(w', i))
      ensures callers[k].releaseId != callers[i].releaseId
    {
      assert k < i || i < k;
    }
  }

  /** A success extends the walk; no other step changes the history. */
  lemma StepHistory(callers: seq<Caller>, w0: World, w: World, path: seq<nat>, e: Event) returns (next: seq<nat>)
    requires Safe(callers, w0, w, path)
    ensures Historied(callers, w0, Step(callers, w, e), next)
  {
    var i, w' := e.caller, Step(callers, w, e);
    StepShape(callers, w, e);
    StepServesOwn(callers, w, e);
    next := path;
    if i < |callers| && w'.served != w.served {
      assert Checked(w, i) && Holds(w, i) && WindowAgrees(callers, w, i);
      next := path + [i];
      assert i !in path;
      assert callers[i].expected == Place(callers, w0.current.value.collection, path, |path|);
      WalkGrows(callers, w0, w0.current.value.collection, path, i);
      HistoryGrows(callers, w0, w, w', path, i);
    } else {
      HistoryKept(callers, w0, w, w', path);
    }
  }

  lemma HistoryGrows(callers: seq<Caller>, w0: World, w: World, w': World, path: seq<nat>, i: nat)
    requires Historied(callers, w0, w, path) && i < |callers| && callers[i].Promoter? && i !in path
             && |w'.pcs| == |callers|
    requires Walk(callers, w0, w0.current.value.collection, path + [i]) && w'.pcs[i] == Finished(Promoted)
    requires forall k :: 0 <= k < |callers| && k != i ==> w'.pcs[k] == w.pcs[k]
    requires w'.current.Some? && w'.served == w.served + [w'.current.value]
             && w'.current.value.collection == callers[i].candidate
    ensures Historied(callers, w0, w', path + [i])
  {
    forall k | 0 <= k <= |path|
      ensures w'.pcs[(path + [i])[k]] == Finished(Promoted)
              && w'.served[k + 1].collection == callers[(path + [i])[k]].candidate
    {
      if k < |path| { assert path[k] != i && w'.served[k + 1] == w.served[k + 1]; }
    }
  }

  lemma HistoryKept(callers: seq<Caller>, w0: World, w: World, w': World, path: seq<nat>)
    requires Historied(callers, w0, w, path) && |w'.pcs| == |callers| && w'.served == w.served
             && w'.current == w.current
    requires forall k :: 0 <= k < |path| ==> w'.pcs[path[k]] == w.pcs[path[k]]
    ensures Historied(callers, w0, w', path)
  {
  }

  lemma PlaceKept(callers: seq<Caller>, first: string, path: seq<nat>, i: nat, k: nat)
    requires k <= |path| && i < |callers| && callers[i].Promoter?
    requires forall l :: 0 <= l < |path| ==> path[l] < |callers| && callers[path[l]].Promoter?
    ensures Place(callers, first, path + [i], k) == Place(callers, first, path, k)
  {
  }

  lemma WalkGrows(callers: seq<Caller>, w0: World, first: string, path: seq<nat>, i: nat)
    requires Walk(callers, w0, first, path) && Usable(callers, w0, i) && i !in path
    requires callers[i].expected == Place(callers, first, path, |path|)
    ensures Walk(callers, w0, first, path + [i])
  {
    forall k | 0 <= k <= |path|
      ensures Usable(callers, w0, (path + [i])[k])
              && callers[(path + [i])[k]].expected == Place(callers, first, path + [i], k)
    {
      GrownAt(callers, w0, first, path, i, k);
    }
    StillDistinct(path, i);
  }

  lemma GrownAt(callers: seq<Caller>, w0: World, first: string, path: seq<nat>, i: nat, k: nat)
    requires Walk(callers, w0, first, path) && Usable(callers, w0, i) && k <= |path|
    requires callers[i].expected == Place(callers, first, path, |path|)
    ensures Usable(callers, w0, (path + [i])[k])
            && callers[(path + [i])[k]].expected == Place(callers, first, path + [i], k)
  {
    PlaceKept(callers, first, path, i, k);
    if k < |path| { assert Usable(callers, w0, path[k]); }
  }

  lemma StillDistinct(path: seq<nat>, i: nat)
    requires i !in path && forall k, l :: 0 <= k < l < |path| ==> path[k] != path[l]
    ensures forall k, l :: 0 <= k < l < |path + [i]| ==> (path + [i])[k] != (path + [i])[l]
  {
  }

  lemma AloneInWindow(callers: seq<Caller>, w: World, i: nat)
    requires |w.pcs| == |callers| && WindowHeld(callers, w) && i < |callers| && InWindow(w, i)
    ensures forall j :: 0 <= j < |callers| && j != i ==> !InWindow(w, j)
  {
    forall j | 0 <= j < |callers| && j != i ensures !InWindow(w, j) { assert j < i || i < j; }
  }

  lemma WindowUnmoved(callers: seq<Caller>, w: World, w': World)
    requires |w.pcs| == |w'.pcs| == |callers| && WindowHeld(callers, w) && w'.alias == w.alias
             && w'.current == w.current
    requires forall j :: 0 <= j < |callers| ==> (InWindow(w', j) <==> InWindow(w, j))
    ensures WindowHeld(callers, w')
  {
    forall j | 0 <= j < |callers| ensures WindowAgrees(callers, w', j) {
      assert WindowAgrees(callers, w, j) && (InWindow(w', j) <==> InWindow(w, j));
    }
    if forall j :: 0 <= j < |callers| ==> !InWindow(w', j) {
      forall j | 0 <= j < |callers| ensures !InWindow(w, j) { assert !InWindow(w', j); }
    }
  }

  lemma OnlyOne(w: World, i: nat)
    requires !Shared(w) && i < |w.pcs| && InWindow(w, i)
    ensures forall j :: 0 <= j < |w.pcs| && j != i ==> !InWindow(w, j)
  {
    forall j | 0 <= j < |w.pcs| && j != i ensures !InWindow(w, j) { assert j < i || i < j; }
  }

  /** The step in the window that closes it, or stays in it. */
  lemma WindowStep(callers: seq<Caller>, w: World, e: Event)
    requires |w.pcs| == |callers| && WindowHeld(callers, w) && e.caller < |callers| && InWindow(w, e.caller)
    ensures WindowHeld(callers, Step(callers, w, e))
  {
    var i, w' := e.caller, Step(callers, w, e);
    StepShape(callers, w, e);
    AloneInWindow(callers, w, i);
    assert WindowAgrees(callers, w, i);
    forall j | 0 <= j < |callers| && j != i
      ensures !InWindow(w', j) { assert !InWindow(w, j) && w'.pcs[j] == w.pcs[j]; }
    assert InWindow(w', i) || (w'.current.Some? && w'.alias == Some(w'.current.value.collection));
  }

  /** The step of a caller outside the window. */
  lemma OutsideStep(callers: seq<Caller>, w: World, e: Event)
    requires |w.pcs| == |callers| && WindowHeld(callers, w) && e.caller < |callers| && !InWindow(w, e.caller)
    ensures var w' := Step(callers, w, e); var p := callers[e.caller];
            && w'.current == w.current
            && (if InWindow(w', e.caller) then
                  && p.Promoter? && w.pcs[e.caller].PendingWritten? && w.alias == Some(p.expected)
                  && w'.alias == Some(p.candidate) && w'.pcs == w.pcs[e.caller := Swapped]
                else w'.alias == w.alias)
  {
  }

  /** A step that lets no second promoter into the window keeps the window in order. */
  lemma StepWindow(callers: seq<Caller>, w: World, e: Event)
    requires |w.pcs| == |callers| && WindowHeld(callers, w) && !Shared(Step(callers, w, e))
    ensures WindowHeld(callers, Step(callers, w, e))
  {
    var i, w' := e.caller, Step(callers, w, e);
    StepShape(callers, w, e);
    if i < |callers| {
      if InWindow(w, i) {
        WindowStep(callers, w, e);
      } else {
        OutsideStep(callers, w, e);
        if InWindow(w', i) {
          OnlyOne(w', i);
          forall j | 0 <= j < |callers| && j != i
            ensures !InWindow(w, j) { assert !InWindow(w', j) && w'.pcs[j] == w.pcs[j]; }
        } else {
          forall j | 0 <= j < |callers|
            ensures InWindow(w', j) <==> InWindow(w, j) { assert j != i ==> w'.pcs[j] == w.pcs[j]; }
          WindowUnmoved(callers, w, w');
        }
      }
    }
  }

  /** A second promoter in the window closes a cycle: it starts from the name to which the first one went back. */
  lemma SecondClosesCycle(callers: seq<Caller>, w0: World, w: World, path: seq<nat>, e: Event)
    requires Safe(callers, w0, w, path) && Shared(Step(callers, w, e))
    ensures ReuseCycle(callers, w0)
  {
    var r, w' := e.caller, Step(callers, w, e);
    StepShape(callers, w, e);
    var q := OtherInWindow(callers, w, e);
    OutsideStep(callers, w, e);
    assert WindowAgrees(callers, w, q) && Checked(w, q) && Checked(w, r) && Holds(w, q) && Holds(w, r);
    var first := w0.current.value.collection;
    assert callers[q].expected == Place(callers, first, path, |path|);
    ServedPlace(callers, w0, w, path, callers[r].expected);
    assert callers[q].releaseId != callers[r].releaseId by { assert q < r || r < q; }
    assert Returns(callers, w0, first, path, q, r);
  }

  lemma OtherInWindow(callers: seq<Caller>, w: World, e: Event) returns (q: nat)
    requires |w.pcs| == |callers| && WindowHeld(callers, w) && Shared(Step(callers, w, e))
    ensures q < |callers| && q != e.caller && InWindow(w, q) && e.caller < |callers|
    ensures !InWindow(w, e.caller) && InWindow(Step(callers, w, e), e.caller)
  {
    var w' := Step(callers, w, e);
    StepShape(callers, w, e);
    var i, j :| 0 <= i < j < |w'.pcs| && InWindow(w', i) && InWindow(w', j);
    assert !(InWindow(w, i) && InWindow(w, j));
    if e.caller < |callers| && InWindow(w, e.caller) { AloneInWindow(callers, w, e.caller); }
    q := if i == e.caller then j else i;
  }

  /** A name that was in service is a place of the walk. */
  lemma ServedPlace(callers: seq<Caller>, w0: World, w: World, path: seq<nat>, collection: string)
    requires Historied(callers, w0, w, path) && WasServed(w.served, collection)
    ensures exists v :: 0 <= v <= |path| && Place(callers, w0.current.value.collection, path, v) == collection
  {
    var v :| 0 <= v < |w.served| && w.served[v].collection == collection;
    assert v > 0 ==> w.served[(v - 1) + 1].collection == callers[path[v - 1]].candidate;
    assert Place(callers, w0.current.value.collection, path, v) == collection;
  }

  lemma SafeStep(callers: seq<Caller>, w0: World, w: World, path: seq<nat>, e: Event) returns (next: seq<nat>)
    requires Safe(callers, w0, w, path) && !Shared(Step(callers, w, e))
    ensures Safe(callers, w0, Step(callers, w, e), next)
  {
    StepChecks(callers, w0, w, path, e);
    StepPendings(callers, w0, w, path, e);
    StepWindow(callers, w, e);
    next := StepHistory(callers, w0, w, path, e);
  }

  /** As long as no cycle closes, every run stays safe. */
  lemma {:induction false} SafeUnlessCycle(callers: seq<Caller>, w0: World, events: seq<Event>) returns (path: seq<nat>)
    requires Start(callers, w0) && !ReuseCycle(callers, w0)
    ensures Safe(callers, w0, Run(callers, w0, events), path)
  {
    if events == [] {
      StartSafe(callers, w0);
      path := [];
    } else {
      var front, e := events[..|events| - 1], events[|events| - 1];
      var before := SafeUnlessCycle(callers, w0, front);
      var w := Run(callers, w0, front);
      if Shared(Step(callers, w, e)) { SecondClosesCycle(callers, w0, w, before, e); }
      path := SafeStep(callers, w0, w, before, e);
    }
  }

  lemma BothShare(w: World, q: nat, r: nat)
    requires q < |w.pcs| && r < |w.pcs| && q != r && InWindow(w, q) && InWindow(w, r)
    ensures Shared(w)
  {
    assert q < r ==> InWindow(w, q) && InWindow(w, r);
  }

  lemma {:induction false} CycleShares(callers: seq<Caller>, w0: World)
    requires Start(callers, w0) && ReuseCycle(callers, w0)
    ensures exists events :: Shared(Run(callers, w0, events))
  {
    var path: seq<nat>, q: nat, r: nat :| Returns(callers, w0, w0.current.value.collection, path, q, r);
    var events := CycleSharesWindow(callers, w0, path, q, r);
    BothShare(Run(callers, w0, events), q, r);
  }

  lemma {:induction false} SharedNeedsCycle(callers: seq<Caller>, w0: World, events: seq<Event>)
    requires Start(callers, w0) && Shared(Run(callers, w0, events))
    ensures ReuseCycle(callers, w0)
  {
    if !ReuseCycle(callers, w0) { var path := SafeUnlessCycle(callers, w0, events); }
  }

  /** Two promoters can be in the window at once exactly when candidate names return in a cycle. */
  lemma {:induction false} WindowSharedExactly(callers: seq<Caller>, w0: World)
    requires Start(callers, w0)
    ensures (exists events :: Shared(Run(callers, w0, events))) <==> ReuseCycle(callers, w0)
  {
    if ReuseCycle(callers, w0) { CycleShares(callers, w0); }
    forall events | Shared(Run(callers, w0, events)) ensures ReuseCycle(callers, w0) {
      SharedNeedsCycle(callers, w0, events);
    }
  }

  lemma FreshPlace(callers: seq<Caller>, w0: World, path: seq<nat>, q: nat, v: nat)
    requires Start(callers, w0) && FreshCandidates(callers, w0) && Walk(callers, w0, w0.current.value.collection, path)
    requires Usable(callers, w0, q) && q !in path && v <= |path|
    ensures Place(callers, w0.current.value.collection, path, v) != callers[q].candidate
  {
    assert w0.current.value in w0.served;
    if v > 0 {
      var p := path[v - 1];
      assert callers[p].candidate != callers[q].candidate by { assert p < q || q < p; }
    }
  }

  /** Callers with fresh candidates never close a cycle. */
  lemma FreshNeverReturn(callers: seq<Caller>, w0: World)
    requires Start(callers, w0) && FreshCandidates(callers, w0)
    ensures !ReuseCycle(callers, w0)
  {
    forall path: seq<nat>, q: nat, v: nat
        | Walk(callers, w0, w0.current.value.collection, path) && Usable(callers, w0, q) && q !in path && v <= |path|
      ensures Place(callers, w0.current.value.collection, path, v) != callers[q].candidate
    {
      FreshPlace(callers, w0, path, q, v);
    }
  }

  /** The smallest such case needs three names: A was replaced by B, `q` is bringing A back, and `r` compared
      against A before. */
  lemma ReusedCandidateOpensWindowTwice(a: string, b: string, c: string)
      returns (callers: seq<Caller>, w0: World, events: seq<Event>)
    requires a != b && b != c && a != c
    ensures Start(callers, w0) && |callers| == 3
    ensures forall i, j :: 0 <= i < j < 3 ==>
              callers[i].Promoter? && callers[j].Promoter? && callers[i].candidate != callers[j].candidate
    ensures InWindow(Run(callers, w0, events), 1) && InWindow(Run(callers, w0, events), 2)
  {
    callers := [Promoter(true, "r1", b, a), Promoter(true, "r2", a, b), Promoter(true, "r3", c, a)];
    var first := Current("r0", a);
    w0 := World(Some(a), Some(first), {}, [Idle, Idle, Idle], [first]);
    assert Place(callers, a, [0], 0) == a;
    assert Returns(callers, w0, a, [0], 1, 2);
    events := CycleSharesWindow(callers, w0, [0], 1, 2);
  }
}
