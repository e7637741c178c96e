/** When a ready answer is false (src/release.py). */
module PromotionReadiness {
  // A readiness check reads the manifest first and the alias second. Exactly which callers can make it
  // answer ready although alias and manifest agreed at no instant between its two reads.

  import opened Promotion
  import opened PromotionReuse
  import opened Wrappers

  /** The call has answered ready, and the answer was true at no instant of it. */
  ghost predicate FalseAnswer(callers: seq<Caller>, w0: World, events: seq<Event>, i: nat, seen: Current)
    requires |callers| == |w0.pcs|
  {
    && i < |callers| && Run(callers, w0, events).pcs[i] == Reconciled(Some(seen))
    && forall k :: 0 <= k < |events| ==> !TrueInstant(callers, w0, events, i, seen, k)
  }

  /** `q` takes the service from the end of the path back to the name at `v`, which the path has left for good. */
  predicate ComesBack(callers: seq<Caller>, w0: World, first: string, path: seq<nat>, q: nat, v: nat) {
    && Walk(callers, w0, first, path) && Usable(callers, w0, q) && q !in path && v < |path|
    && callers[q].expected == Place(callers, first, path, |path|)
    && callers[q].candidate == Place(callers, first, path, v)
    && forall u :: v < u <= |path| ==> Place(callers, first, path, u) != Place(callers, first, path, v)
  }

  /** Some walk leaves a name, and a promoter brings it back. */
  ghost predicate NameReturns(callers: seq<Caller>, w0: World)
    requires w0.current.Some?
  {
    exists path: seq<nat>, q: nat, v: nat :: ComesBack(callers, w0, w0.current.value.collection, path, q, v)
  }

  /** Every promoter moves the service to another name. */
  predicate AllMove(callers: seq<Caller>) {
    forall i :: 0 <= i < |callers| && callers[i].Promoter? ==> callers[i].candidate != callers[i].expected
  }

  // ----- a name that is left stays left -----

  /** The history has left a name for good. */
  ghost predicate Left(served: seq<Current>, name: string) {
    exists v :: 0 <= v < |served| - 1 && LeftAt(served, name, v)
  }

  predicate LeftAt(served: seq<Current>, name: string, v: nat)
    requires v < |served|
  {
    served[v].collection == name && forall u :: v < u < |served| ==> served[u].collection != name
  }

  /** The history is the walk. */
  lemma ServedAtPlace(callers: seq<Caller>, w0: World, w: World, path: seq<nat>, k: nat)
    requires Historied(callers, w0, w, path) && k <= |path|
    ensures w.served[k].collection == Place(callers, w0.current.value.collection, path, k)
  {
    if k > 0 { assert w.served[(k - 1) + 1].collection == callers[path[k - 1]].candidate; }
  }

  /** Nobody who could bring a name back that the history has left. */
  lemma NobodyReturns(callers: seq<Caller>, w0: World, w: World, path: seq<nat>, name: string, q: nat)
    requires Historied(callers, w0, w, path) && Left(w.served, name) && !NameReturns(callers, w0)
    requires Usable(callers, w0, q) && q !in path
    requires callers[q].expected == Place(callers, w0.current.value.collection, path, |path|)
    ensures callers[q].candidate != name
  {
    var first := w0.current.value.collection;
    var v :| 0 <= v < |w.served| - 1 && LeftAt(w.served, name, v);
    forall u | v <= u <= |path| ensures w.served[u].collection == Place(callers, first, path, u) {
      ServedAtPlace(callers, w0, w, path, u);
    }
    NotBack(callers, w0, path, q, v);
  }

  lemma NotBack(callers: seq<Caller>, w0: World, path: seq<nat>, q: nat, v: nat)
    requires w0.current.Some? && !NameReturns(callers, w0) && v < |path| && Usable(callers, w0, q) && q !in path
    requires Walk(callers, w0, w0.current.value.collection, path)
    requires callers[q].expected == Place(callers, w0.current.value.collection, path, |path|)
    requires forall u :: v < u <= |path| ==>
               Place(callers, w0.current.value.collection, path, u)
               != Place(callers, w0.current.value.collection, path, v)
    ensures callers[q].candidate != Place(callers, w0.current.value.collection, path, v)
  {
    var first := w0.current.value.collection;
    if callers[q].candidate == Place(callers, first, path, v) { assert ComesBack(callers, w0, first, path, q, v); }
  }

  /** Whoever is in the window is a promoter that has not promoted yet. */
  lemma InWindowUsable(callers: seq<Caller>, w0: World, w: World, path: seq<nat>, j: nat)
    requires Safe(callers, w0, w, path) && j < |callers| && InWindow(w, j)
    ensures Usable(callers, w0, j) && j !in path
    ensures callers[j].expected == Place(callers, w0.current.value.collection, path, |path|)
    ensures w.alias == Some(callers[j].candidate)
  {
    assert Checked(w, j) && Holds(w, j) && WindowAgrees(callers, w, j);
    ServedAtPlace(callers, w0, w, path, |path|);
  }

  /** Then the alias does not name it either. */
  lemma AliasStaysAway(callers: seq<Caller>, w0: World, w: World, path: seq<nat>, name: string)
    requires Safe(callers, w0, w, path) && Left(w.served, name) && !NameReturns(callers, w0)
    ensures w.alias != Some(name)
  {
    if j :| 0 <= j < |callers| && InWindow(w, j) {
      InWindowUsable(callers, w0, w, path, j);
      NobodyReturns(callers, w0, w, path, name, j);
    } else {
      assert w.current == Some(w.served[|path|]);
    }
  }

  /** The alias is not where the manifest that was read says: it has been swapped away, or the name is left for good. */
  ghost predicate Away(w: World, seen: Current) {
    w.alias != Some(seen.collection) && (w.current == Some(seen) || Left(w.served, seen.collection))
  }

  /** One more manifest in the history, put there by the last promoter of the path. */
  lemma LastPromotion(callers: seq<Caller>, w0: World, w: World, path: seq<nat>)
    requires Historied(callers, w0, w, path) && path != []
    ensures var n := |path| - 1; var q := path[n];
            && Usable(callers, w0, q) && q !in path[..n] && Walk(callers, w0, w0.current.value.collection, path[..n])
            && callers[q].expected == Place(callers, w0.current.value.collection, path[..n], n)
            && callers[q].candidate == w.served[n + 1].collection && callers[q].expected == w.served[n].collection
  {
    var n, first := |path| - 1, w0.current.value.collection;
    forall k | 0 <= k < n ensures Usable(callers, w0, path[..n][k]) && path[..n][k] == path[k] {
      assert Usable(callers, w0, path[k]);
    }
    forall k | 0 <= k <= n ensures Place(callers, first, path[..n], k) == Place(callers, first, path, k) {}
    assert Usable(callers, w0, path[n]);
    ServedAtPlace(callers, w0, w, path, n);
  }

  /** A name that was left is not the next manifest's. */
  lemma LeftStays(callers: seq<Caller>, w0: World, w: World, path: seq<nat>, served: seq<Current>, name: string)
    requires Historied(callers, w0, w, path) && path != [] && !NameReturns(callers, w0)
    requires w.served == served + [w.served[|path|]] && Left(served, name)
    ensures Left(w.served, name)
  {
    var n, first := |path| - 1, w0.current.value.collection;
    var v :| 0 <= v < |served| - 1 && LeftAt(served, name, v);
    LastPromotion(callers, w0, w, path);
    forall u | v <= u <= n ensures served[u].collection == Place(callers, first, path[..n], u) {
      ServedAtPlace(callers, w0, w, path, u);
      assert w.served[u] == served[u] && Place(callers, first, path[..n], u) == Place(callers, first, path, u);
    }
    NotBack(callers, w0, path[..n], path[n], v);
    assert LeftAt(w.served, name, v);
  }

  /** A promotion that moves the service leaves the name it starts from. */
  lemma MovedAway(callers: seq<Caller>, w0: World, w: World, path: seq<nat>, served: seq<Current>, seen: Current)
    requires Historied(callers, w0, w, path) && path != [] && AllMove(callers)
    requires w.served == served + [w.served[|path|]] && served[|path| - 1] == seen
    ensures Left(w.served, seen.collection)
  {
    LastPromotion(callers, w0, w, path);
    assert LeftAt(w.served, seen.collection, |path| - 1);
  }

  /** A step keeps the alias away, or takes it back while the manifest is still the one that was read. */
  lemma AwayStep(callers: seq<Caller>, w0: World, w: World, path: seq<nat>, e: Event, next: seq<nat>, seen: Current)
    requires Safe(callers, w0, w, path) && Safe(callers, w0, Step(callers, w, e), next)
    requires AllMove(callers) && !NameReturns(callers, w0) && Away(w, seen)
    ensures var w' := Step(callers, w, e);
            Away(w', seen) || (w'.current == Some(seen) && w'.alias == Some(seen.collection))
  {
    var w' := Step(callers, w, e);
    StepServesOwn(callers, w, e);
    if w'.served != w.served {
      assert w'.served == w.served + [w'.served[|next|]];
      if Left(w.served, seen.collection) {
        LeftStays(callers, w0, w', next, w.served, seen.collection);
      } else {
        MovedAway(callers, w0, w', next, w.served, seen);
      }
    }
    if Left(w'.served, seen.collection) { AliasStaysAway(callers, w0, w', next, seen.collection); }
  }

  // ----- without a return every ready answer was true -----

  /** Between its reads, a check has seen its answer true, or the alias is away. */
  ghost predicate Honest(callers: seq<Caller>, w0: World, events: seq<Event>, i: nat, seen: Current)
    requires |callers| == |w0.pcs| && i < |callers|
  {
    var w := Run(callers, w0, events);
    && (w.pcs[i] == ManifestSeen(seen) ==>
          (exists k :: 0 <= k <= |events| && TrueInstant(callers, w0, events, i, seen, k)) || Away(w, seen))
    && (w.pcs[i] == Reconciled(Some(seen)) ==>
          exists k :: 0 <= k < |events| && TrueInstant(callers, w0, events, i, seen, k))
  }

  /** What a step does to a check that ends up between its reads, or ready. */
  lemma CheckStep(callers: seq<Caller>, w: World, e: Event, i: nat, seen: Current)
    requires |callers| == |w.pcs| && i < |callers|
    ensures var w' := Step(callers, w, e);
            && (w'.pcs[i] == ManifestSeen(seen) != w.pcs[i] ==>
                  w' == w.(pcs := w'.pcs) && w.current == Some(seen))
            && (w'.pcs[i] == Reconciled(Some(seen)) != w.pcs[i] ==>
                  w.pcs[i] == ManifestSeen(seen) && w.alias == Some(seen.collection))
  {
  }

  lemma InstantKept(callers: seq<Caller>, w0: World, front: seq<Event>, last: Event, i: nat, seen: Current, k: nat)
    requires |callers| == |w0.pcs| && i < |callers| && k <= |front|
    ensures TrueInstant(callers, w0, front + [last], i, seen, k) <==> TrueInstant(callers, w0, front, i, seen, k)
  {
    assert (front + [last])[..k] == front[..k];
  }

  lemma {:induction false} InstantNow(callers: seq<Caller>, w0: World, events: seq<Event>, i: nat, seen: Current)
    requires |callers| == |w0.pcs| && i < |callers|
    ensures var w := Run(callers, w0, events);
            TrueInstant(callers, w0, events, i, seen, |events|)
            <==> w.pcs[i] == ManifestSeen(seen) && w.current == Some(seen) && w.alias == Some(seen.collection)
  {
    assert events[..|events|] == events;
  }

  /** A step while the check is between its reads. */
  lemma {:induction false} HonestBetween(callers: seq<Caller>, w0: World, front: seq<Event>, e: Event, i: nat,
                                         seen: Current,
                                         path: seq<nat>, next: seq<nat>)
    requires |callers| == |w0.pcs| && i < |callers| && AllMove(callers) && w0.current.Some? && !NameReturns(callers, w0)
    requires Honest(callers, w0, front, i, seen) && Safe(callers, w0, Run(callers, w0, front), path)
    requires Safe(callers, w0, Run(callers, w0, front + [e]), next)
    requires Run(callers, w0, front + [e]).pcs[i] == ManifestSeen(seen)
    ensures Honest(callers, w0, front + [e], i, seen)
  {
    var w, events := Run(callers, w0, front), front + [e];
    RunThenStep(callers, w0, front, e);
    CheckStep(callers, w, e, i, seen);
    InstantNow(callers, w0, events, i, seen);
    if w.pcs[i] == ManifestSeen(seen) {
      if k :| 0 <= k <= |front| && TrueInstant(callers, w0, front, i, seen, k) {
        InstantKept(callers, w0, front, e, i, seen, k);
      } else {
        AwayStep(callers, w0, w, path, e, next, seen);
      }
    }
  }

  /** The last step of a ready answer. */
  lemma {:induction false} HonestAtLast(callers: seq<Caller>, w0: World, front: seq<Event>, e: Event, i: nat,
                                        seen: Current)
    requires |callers| == |w0.pcs| && i < |callers| && Honest(callers, w0, front, i, seen)
    requires Run(callers, w0, front + [e]).pcs[i] == Reconciled(Some(seen))
    ensures Honest(callers, w0, front + [e], i, seen)
  {
    RunThenStep(callers, w0, front, e);
    CheckStep(callers, Run(callers, w0, front), e, i, seen);
    var k :| 0 <= k <= |front| && TrueInstant(callers, w0, front, i, seen, k);
    InstantKept(callers, w0, front, e, i, seen, k);
  }

  lemma NothingSeen(callers: seq<Caller>, w0: World, i: nat, seen: Current)
    requires Start(callers, w0) && i < |callers|
    ensures Honest(callers, w0, [], i, seen)
  {
  }

  lemma {:induction false} StaysHonest(callers: seq<Caller>, w0: World, events: seq<Event>, i: nat, seen: Current)
    requires Start(callers, w0) && AllMove(callers) && !NameReturns(callers, w0) && i < |callers|
    ensures Honest(callers, w0, events, i, seen)
  {
    if events == [] {
      NothingSeen(callers, w0, i, seen);
    } else {
      var front, e := events[..|events| - 1], events[|events| - 1];
      assert events == front + [e];
      StaysHonest(callers, w0, front, i, seen);
      if ReuseCycle(callers, w0) { CycleReturns(callers, w0); }
      if Run(callers, w0, events).pcs[i] == ManifestSeen(seen) {
        var path := SafeUnlessCycle(callers, w0, front);
        var next := SafeUnlessCycle(callers, w0, events);
        HonestBetween(callers, w0, front, e, i, seen, path, next);
      } else if Run(callers, w0, events).pcs[i] == Reconciled(Some(seen)) {
        HonestAtLast(callers, w0, front, e, i, seen);
      }
    }
  }

  /** Where a path is at a name for the last time. */
  lemma {:induction false} LastVisit(callers: seq<Caller>, first: string, path: seq<nat>, name: string, v: nat, n: nat)
      returns (u: nat)
    requires forall k :: 0 <= k < |path| ==> path[k] < |callers| && callers[path[k]].Promoter?
    requires v <= n <= |path| && Place(callers, first, path, v) == name
    ensures v <= u <= n && Place(callers, first, path, u) == name
    ensures forall k :: u < k <= n ==> Place(callers, first, path, k) != name
  {
    if Place(callers, first, path, n) == name {
      u := n;
    } else {
      u := LastVisit(callers, first, path, name, v, n - 1);
    }
  }

  /** When every promoter moves the service, a cycle takes it back to a name that it has left. */
  lemma CycleReturns(callers: seq<Caller>, w0: World)
    requires w0.current.Some? && AllMove(callers) && ReuseCycle(callers, w0)
    ensures NameReturns(callers, w0)
  {
    var first := w0.current.value.collection;
    var path: seq<nat>, q: nat, r: nat :| Returns(callers, w0, first, path, q, r);
    var v :| 0 <= v <= |path| && Place(callers, first, path, v) == callers[r].expected;
    var u := LastVisit(callers, first, path, callers[q].candidate, v, |path|);
    assert ComesBack(callers, w0, first, path, q, u);
  }

  lemma {:induction false} OnlyChecksAnswer(callers: seq<Caller>, w0: World, events: seq<Event>, i: nat)
    requires Start(callers, w0) && i < |callers| && callers[i].Promoter?
    ensures !Run(callers, w0, events).pcs[i].Reconciled?
  {
    if events != [] {
      OnlyChecksAnswer(callers, w0, events[..|events| - 1], i);
    }
  }

  lemma FalseNeedsReturn(callers: seq<Caller>, w0: World, events: seq<Event>, i: nat, seen: Current)
    requires Start(callers, w0) && AllMove(callers) && FalseAnswer(callers, w0, events, i, seen)
    ensures callers[i].Reconciler? && NameReturns(callers, w0)
  {
    if callers[i].Promoter? { OnlyChecksAnswer(callers, w0, events, i); }
    if !NameReturns(callers, w0) { StaysHonest(callers, w0, events, i, seen); }
  }

  // ----- a return makes an answer false -----

  lemma {:induction false} IdleBefore(callers: seq<Caller>, w: World, events: seq<Event>, i: nat, k: nat)
    requires |callers| == |w.pcs| && i < |callers| && k <= |events| && Run(callers, w, events).pcs[i].Idle?
    ensures Run(callers, w, events[..k]).pcs[i].Idle?
  {
    if k < |events| {
      var front := events[..|events| - 1];
      StaysBegun(callers, Run(callers, w, front), events[|events| - 1], i);
      IdleBefore(callers, w, front, i, k);
      assert front[..k] == events[..k];
    } else {
      assert events[..k] == events;
    }
  }

  lemma StaysBegun(callers: seq<Caller>, w: World, e: Event, i: nat)
    requires |callers| == |w.pcs| && i < |callers| && Step(callers, w, e).pcs[i].Idle?
    ensures w.pcs[i].Idle?
  {
  }

  /** The manifest is the last one of the history, and histories only grow. */
  lemma {:induction false} ServedGrows(callers: seq<Caller>, w: World, events: seq<Event>)
    requires |callers| == |w.pcs| && w.served != [] && w.current == Some(w.served[|w.served| - 1])
    ensures var end := Run(callers, w, events);
            w.served <= end.served && end.current == Some(end.served[|end.served| - 1])
  {
    if events != [] {
      var n := |events| - 1;
      ServedGrows(callers, w, events[..n]);
      CurrentIsLast(callers, Run(callers, w, events[..n]), events[n]);
    }
  }

  lemma CurrentIsLast(callers: seq<Caller>, w: World, e: Event)
    requires |callers| == |w.pcs| && w.served != [] && w.current == Some(w.served[|w.served| - 1])
    ensures var w' := Step(callers, w, e);
            w.served <= w'.served && w'.current == Some(w'.served[|w'.served| - 1])
  {
  }

  /** The check reads while the promoter of `v` is in the window, and that promoter finishes. */
  function AfterRead(callers: seq<Caller>, w: World, p: nat, i: nat): World
    requires |callers| == |w.pcs| && p < |callers| && callers[p].Promoter? && i < |callers| && w.current.Some?
  {
    var swapped := SwappedBy(callers, w, p);
    swapped.(pcs := swapped.pcs[i := ManifestSeen(w.current.value)])
  }

  function AfterReplace(callers: seq<Caller>, w: World, p: nat, i: nat): World
    requires |callers| == |w.pcs| && p < |callers| && callers[p].Promoter? && i < |callers| && w.current.Some?
  {
    var next := OwnManifest(callers, p);
    World(Some(next.collection), Some(next), w.pending,
          w.pcs[p := Finished(Promoted)][i := ManifestSeen(w.current.value)],
          w.served + [next])
  }

  lemma ReadStep(callers: seq<Caller>, w: World, p: nat, i: nat)
    requires |callers| == |w.pcs| && Usable(callers, w, p) && i < |callers| && callers[i].Reconciler?
    requires w.current.Some? && w.pcs[i].Idle?
    ensures Step(callers, SwappedBy(callers, w, p), Event(i, Works)) == AfterRead(callers, w, p, i)
  {
  }

  lemma ReplaceAfterRead(callers: seq<Caller>, w: World, p: nat, i: nat)
    requires |callers| == |w.pcs| && Usable(callers, w, p) && i < |callers| && callers[i].Reconciler? && w.current.Some?
    ensures Step(callers, AfterRead(callers, w, p, i), Event(p, Works)) == AfterReplace(callers, w, p, i)
  {
    assert w.pending + {callers[p].releaseId} - {callers[p].releaseId} == w.pending;
    assert w.pcs[p := Swapped][i := ManifestSeen(w.current.value)][p := Finished(Promoted)]
           == w.pcs[p := Finished(Promoted)][i := ManifestSeen(w.current.value)];
  }

  /** The first half of the run: up to the name, into the window, the read, and out of the window. */
  lemma ReadsInWindow(callers: seq<Caller>, w0: World, path: seq<nat>, v: nat, i: nat)
      returns (before: seq<Event>, w: World)
    requires Start(callers, w0) && Walk(callers, w0, w0.current.value.collection, path) && v < |path|
    requires i < |callers| && callers[i].Reconciler?
    ensures Walked(callers, w0, w, path[..v], Place(callers, w0.current.value.collection, path, v))
    ensures Run(callers, w0, before) == SwappedBy(callers, w, path[v]) && w.pcs[i].Idle?
    ensures Run(callers, w0, before + [Event(i, Works)]) == AfterRead(callers, w, path[v], i)
    ensures Run(callers, w0, before + [Event(i, Works)] + [Event(path[v], Works)])
            == AfterReplace(callers, w, path[v], i)
  {
    var first, p := w0.current.value.collection, path[v];
    PrefixWalks(callers, w0, first, path, v);
    var a := WalksAlone(callers, w0, path[..v]);
    w := Run(callers, w0, a);
    PromoterAhead(callers, w0, first, path, v, i);
    Swaps(callers, w, p, Repeat(p, 4));
    before := a + Repeat(p, 4);
    RunJoins(callers, w0, a, Repeat(p, 4));
    ReadStep(callers, w, p, i);
    RunThenStep(callers, w0, before, Event(i, Works));
    ReplaceAfterRead(callers, w, p, i);
    RunThenStep(callers, w0, before + [Event(i, Works)], Event(p, Works));
  }

  lemma PromoterAhead(callers: seq<Caller>, w0: World, first: string, path: seq<nat>, v: nat, i: nat)
    requires Walk(callers, w0, first, path) && v < |path| && i < |callers| && callers[i].Reconciler?
    ensures Usable(callers, w0, path[v]) && path[v] !in path[..v] && i !in path
    ensures callers[path[v]].expected == Place(callers, first, path, v)
    ensures callers[path[v]].candidate == Place(callers, first, path, v + 1)
  {
    NotAPromoter(callers, w0, first, path, i);
    NotInPrefix(path, v, v);
    assert Place(callers, first, path, v) == callers[path[v]].expected;
  }

  /** The second half: the rest of the walk, and the return. */
  lemma Returning(callers: seq<Caller>, w0: World, w: World, path: seq<nat>, q: nat, v: nat, i: nat, seen: Current)
      returns (after: seq<Event>)
    requires Start(callers, w0) && ComesBack(callers, w0, w0.current.value.collection, path, q, v)
    requires |w.pcs| == |callers| && w.pending == w0.pending && i < |callers| && callers[i].Reconciler?
    requires AtPlace(w, Place(callers, w0.current.value.collection, path, v + 1)) && w.pcs[i] == ManifestSeen(seen)
    requires forall k :: 0 <= k < |callers| && k !in path[..v + 1] && k != i ==> w.pcs[k].Idle?
    requires seen.collection == callers[q].candidate
    ensures Run(callers, w, after).pcs[i] == Reconciled(Some(seen))
    ensures Run(callers, w, after).served == w.served + ServedBy(callers, path[v + 1..])
  {
    var first := w0.current.value.collection;
    NotAPromoter(callers, w0, first, path, i);
    RestWalks(callers, w0, w, path, i, v + 1);
    var c := WalksAlone(callers, w, path[v + 1..]);
    var w5 := Run(callers, w, c);
    BringsBack(callers, w, w5, path, q, v + 1, i, Place(callers, first, path, |path|));
    after := ChecksBack(callers, w5, q, i, seen);
    RunJoins(callers, w, c, after);
    after := c + after;
  }

  lemma NotAPromoter(callers: seq<Caller>, w0: World, first: string, path: seq<nat>, i: nat)
    requires Walk(callers, w0, first, path) && i < |callers| && callers[i].Reconciler?
    ensures i !in path
  {
    forall k | 0 <= k < |path| ensures path[k] != i { assert Usable(callers, w0, path[k]); }
  }

  /** Neither the check nor the promoter of the return has taken part in the rest of the walk. */
  lemma BringsBack(callers: seq<Caller>, w: World, w': World, path: seq<nat>, q: nat, v: nat, i: nat, place: string)
    requires |w.pcs| == |callers| && v <= |path| && i !in path && q !in path && q != i && q < |callers| && i < |callers|
    requires Walked(callers, w, w', path[v..], place)
    requires forall k :: 0 <= k < |callers| && k !in path[..v] && k != i ==> w.pcs[k].Idle?
    ensures w'.pcs[i] == w.pcs[i] && w'.pcs[q].Idle?
  {
    assert q !in path[..v] && q !in path[v..] && i !in path[v..];
  }

  lemma ChecksBack(callers: seq<Caller>, w: World, q: nat, i: nat, seen: Current) returns (events: seq<Event>)
    requires |w.pcs| == |callers| && Usable(callers, w, q) && w.pcs[q].Idle? && AtPlace(w, callers[q].expected)
    requires i < |callers| && callers[i].Reconciler? && w.pcs[i] == ManifestSeen(seen)
    requires seen.collection == callers[q].candidate
    ensures Run(callers, w, events).pcs[i] == Reconciled(Some(seen)) && Run(callers, w, events).served == w.served
  {
    Swaps(callers, w, q, Repeat(q, 4));
    RunThenStep(callers, w, Repeat(q, 4), Event(i, Works));
    events := Repeat(q, 4) + [Event(i, Works)];
  }

  /** When a manifest does not come back into the history, it does not come back into service. */
  lemma {:induction false} NeverAgain(callers: seq<Caller>, w: World, events: seq<Event>, k: nat, seen: Current)
    requires |callers| == |w.pcs| && w.served != [] && w.current == Some(w.served[|w.served| - 1]) && k <= |events|
    requires var end := Run(callers, w, events);
             forall m :: |w.served| - 1 <= m < |end.served| ==> end.served[m] != seen
    ensures Run(callers, w, events[..k]).current != Some(seen)
  {
    var at := Run(callers, w, events[..k]);
    ServedGrows(callers, w, events[..k]);
    ServedGrows(callers, at, events[k..]);
    assert events == events[..k] + events[k..];
    RunJoins(callers, w, events[..k], events[k..]);
    var end := Run(callers, w, events);
    assert end.served[|at.served| - 1] == at.served[|at.served| - 1];
  }

  /** No instant of the run is a true one: before the read the check has not begun, at the read the alias is away,
      and later the manifest is another. */
  lemma {:induction false} NoTrueInstant(callers: seq<Caller>, w0: World, before: seq<Event>, p: nat, i: nat,
                                         after: seq<Event>,
                                         seen: Current, k: nat)
    requires |callers| == |w0.pcs| && i < |callers|
    requires Run(callers, w0, before).pcs[i].Idle?
    requires Run(callers, w0, before + [Event(i, Works)]).alias != Some(seen.collection)
    requires var w := Run(callers, w0, before + [Event(i, Works)] + [Event(p, Works)]);
             var end := Run(callers, w, after);
             && w.served != [] && w.current == Some(w.served[|w.served| - 1])
             && forall m :: |w.served| - 1 <= m < |end.served| ==> end.served[m] != seen
    requires k <= |before| + 2 + |after|
    ensures !TrueInstant(callers, w0, before + [Event(i, Works)] + [Event(p, Works)] + after, i, seen, k)
  {
    var read := before + [Event(i, Works)];
    var left := read + [Event(p, Works)];
    var events := left + after;
    if k <= |before| {
      assert events[..k] == before[..k];
      IdleBefore(callers, w0, before, i, k);
    } else if k == |before| + 1 {
      assert events[..k] == read;
    } else {
      assert events[..k] == left + after[..k - |left|];
      RunJoins(callers, w0, left, after[..k - |left|]);
      NeverAgain(callers, Run(callers, w0, left), after, k - |left|, seen);
    }
  }

  /** The manifests after the promoter of `v`, none of which bears the name at `v`. */
  lemma LaterNames(callers: seq<Caller>, w0: World, path: seq<nat>, q: nat, v: nat, served: seq<Current>)
    requires w0.current.Some? && ComesBack(callers, w0, w0.current.value.collection, path, q, v) && |served| == v + 1
    ensures var all := served + [OwnManifest(callers, path[v])] + ServedBy(callers, path[v + 1..]);
            forall m :: v + 1 <= m < |all| ==> all[m].collection != callers[q].candidate
  {
    var all := served + [OwnManifest(callers, path[v])] + ServedBy(callers, path[v + 1..]);
    var first := w0.current.value.collection;
    forall m | v + 1 <= m < |all| ensures all[m].collection != callers[q].candidate {
      assert Usable(callers, w0, path[m - 1]);
      assert all[m] == OwnManifest(callers, path[m - 1]);
      assert Place(callers, first, path, m) == callers[path[m - 1]].candidate;
    }
  }

  /** A name that comes back makes a ready answer false: it was read while the service was leaving the name, and
      the alias was read when it had come back. */
  lemma ReturnMakesFalse(callers: seq<Caller>, w0: World, path: seq<nat>, q: nat, v: nat, i: nat)
      returns (events: seq<Event>, seen: Current)
    requires Start(callers, w0) && ComesBack(callers, w0, w0.current.value.collection, path, q, v)
    requires i < |callers| && callers[i].Reconciler?
    ensures FalseAnswer(callers, w0, events, i, seen)
  {
    var first, p := w0.current.value.collection, path[v];
    PromoterAhead(callers, w0, first, path, v, i);
    var before, w := ReadsInWindow(callers, w0, path, v, i);
    seen := w.current.value;
    var left := AfterReplace(callers, w, p, i);
    LeftIdle(callers, w0, w, path, v, i, Place(callers, first, path, v));
    var after := Returning(callers, w0, left, path, q, v, i, seen);
    LaterNames(callers, w0, path, q, v, w.served);
    events := before + [Event(i, Works)] + [Event(p, Works)] + after;
    RunJoins(callers, w0, before + [Event(i, Works)] + [Event(p, Works)], after);
    forall k | 0 <= k < |events| ensures !TrueInstant(callers, w0, events, i, seen, k) {
      NoTrueInstant(callers, w0, before, p, i, after, seen, k);
    }
  }

  lemma LeftIdle(callers: seq<Caller>, w0: World, w: World, path: seq<nat>, v: nat, i: nat, place: string)
    requires Start(callers, w0) && v < |path| && path[v] < |callers| && callers[path[v]].Promoter? && i < |callers|
    requires i !in path && Walked(callers, w0, w, path[..v], place)
    ensures var left := AfterReplace(callers, w, path[v], i);
            forall k :: 0 <= k < |callers| && k !in path[..v + 1] && k != i ==> left.pcs[k].Idle?
  {
    forall k | 0 <= k < |callers| && k !in path[..v + 1] ensures k !in path[..v] && k != path[v] {
      assert path[..v + 1] == path[..v] + [path[v]];
    }
  }

  /** When every promoter moves the service, a check can answer ready falsely exactly when a name comes back. */
  lemma FalseReadyExactly(callers: seq<Caller>, w0: World)
    requires Start(callers, w0) && AllMove(callers)
    ensures (exists events, i, seen :: FalseAnswer(callers, w0, events, i, seen))
            <==> NameReturns(callers, w0) && exists i :: 0 <= i < |callers| && callers[i].Reconciler?
  {
    forall events, i: nat, seen | FalseAnswer(callers, w0, events, i, seen)
      ensures NameReturns(callers, w0) && callers[i].Reconciler?
    {
      FalseNeedsReturn(callers, w0, events, i, seen);
    }
    if NameReturns(callers, w0) && exists i :: 0 <= i < |callers| && callers[i].Reconciler? {
      var path: seq<nat>, q: nat, v: nat :| ComesBack(callers, w0, w0.current.value.collection, path, q, v);
      var i :| 0 <= i < |callers| && callers[i].Reconciler?;
      var events, seen := ReturnMakesFalse(callers, w0, path, q, v, i);
    }
  }

  /** Fresh candidates bring no name back. */
  lemma FreshNamesStayAway(callers: seq<Caller>, w0: World)
    requires Start(callers, w0) && FreshCandidates(callers, w0)
    ensures !NameReturns(callers, w0)
  {
    forall path: seq<nat>, q: nat, v: nat | ComesBack(callers, w0, w0.current.value.collection, path, q, v)
      ensures false {
      FreshPlace(callers, w0, path, q, v);
    }
  }

  // ----- promoters that do not move the service -----

  /** A promoter to the name in service, another promoter from it, and a check. */
  function SelfPromoters(a: string, c: string): seq<Caller> {
    [Promoter(true, "1", a, a), Promoter(true, "2", c, a), Reconciler]
  }

  /** Without moving, no name comes back, and still an answer can be false: the check reads while the second promoter
      is in the window, the first one replaces the manifest by its own for the same name, and the second one rolls
      the alias back to that name. */
  lemma SelfPromotionMakesFalse(a: string, c: string) returns (w0: World, events: seq<Event>)
    requires a != c
    ensures Start(SelfPromoters(a, c), w0) && FalseAnswer(SelfPromoters(a, c), w0, events, 2, Current("0", a))
  {
    var callers, seen := SelfPromoters(a, c), Current("0", a);
    w0 := World(Some(a), Some(seen), {}, [Idle, Idle, Idle], [seen]);
    var before := BothSwapped(callers, w0);
    var w2 := SwappedBy(callers, SwappedBy(callers, w0, 0), 1);
    RunThenStep(callers, w0, before, Event(2, Works));
    RunThenStep(callers, w0, before + [Event(2, Works)], Event(0, Works));
    var left := Step(callers, Step(callers, w2, Event(2, Works)), Event(0, Works));
    var after := [Event(1, Fails), Event(1, Works), Event(2, Works)];
    RollsBack(callers, left, a, c, after);
    events := before + [Event(2, Works)] + [Event(0, Works)] + after;
    RunJoins(callers, w0, before + [Event(2, Works)] + [Event(0, Works)], after);
    forall k | 0 <= k < |events| ensures !TrueInstant(callers, w0, events, 2, seen, k) {
      NoTrueInstant(callers, w0, before, 0, 2, after, seen, k);
    }
  }

  lemma BothSwapped(callers: seq<Caller>, w0: World) returns (events: seq<Event>)
    requires |callers| == |w0.pcs| == 3 && callers[0].Promoter? && callers[1].Promoter? && callers[0].cleared
             && callers[1].cleared
    requires w0.pcs[0].Idle? && w0.pcs[1].Idle? && w0.pending == {} && callers[0].releaseId != callers[1].releaseId
    requires w0.current.Some? && w0.alias == Some(w0.current.value.collection)
    requires callers[0].expected == callers[0].candidate == callers[1].expected == w0.current.value.collection
    ensures Run(callers, w0, events) == SwappedBy(callers, SwappedBy(callers, w0, 0), 1)
  {
    var first, second := Repeat(0, 4), Repeat(1, 4);
    SwapsAlone(callers, w0, 0);
    SwapsAlone(callers, SwappedBy(callers, w0, 0), 1);
    events := first + second;
    RunJoins(callers, w0, first, second);
  }

  lemma {:induction false} RollsBack(callers: seq<Caller>, w: World, a: string, c: string, events: seq<Event>)
    requires callers == SelfPromoters(a, c) && |w.pcs| == 3 && w.pcs[1].Swapped? && w.alias == Some(c)
    requires w.pcs[2] == ManifestSeen(Current("0", a)) && events == [Event(1, Fails), Event(1, Works), Event(2, Works)]
    ensures Run(callers, w, events).pcs[2] == Reconciled(Some(Current("0", a)))
    ensures Run(callers, w, events).served == w.served
  {
    var failed := Step(callers, w, Event(1, Fails));
    var rolledBack := Step(callers, failed, Event(1, Works));
    RunThenStep(callers, w, [], Event(1, Fails));
    RunThenStep(callers, w, [Event(1, Fails)], Event(1, Works));
    RunThenStep(callers, w, [Event(1, Fails), Event(1, Works)], Event(2, Works));
    assert [] + [Event(1, Fails)] == [Event(1, Fails)];
    assert [Event(1, Fails)] + [Event(1, Works)] == [Event(1, Fails), Event(1, Works)];
    assert [Event(1, Fails), Event(1, Works)] + [Event(2, Works)] == events;
  }
}
