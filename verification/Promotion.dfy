/** Alias promotion (src/release.py). */
module Promotion {
  // Any number of promoters and readiness checks share one alias and one `current.json`. Each takes
  // one atomic step at a time, may be interrupted by the others anywhere, may see its I/O fail, and
  // may die.

  import opened Wrappers

  /** The payload of `current.json`. */
  datatype Current = Current(releaseId: string, collection: string)

  /** A caller: one `promote_release`, or one `reconcile_release_state`. `cleared` says that the
      inputs, the release gates and the attestations of the promotion are in order. */
  datatype Caller =
    | Promoter(cleared: bool, releaseId: string, candidate: string, expected: string)
    | Reconciler

  datatype Outcome = Promoted | Refused(code: string)

  /** Where a caller stands between two atomic steps. */
  datatype Pc =
    | Idle
    | ManifestMatched | AliasMatched | PendingWritten  // before the swap
    | Swapped | ReplaceFailed                          // alias moved, manifest not yet
    | Stuck                                            // died or gave up in that window
    | Dead                                             // died elsewhere
    | Finished(outcome: Outcome)
    | ManifestSeen(seen: Current)                      // a reconciler between its two reads
    | Reconciled(ready: Option<Current>)

  /** `served` is the history of `current.json`; nothing reads it. */
  datatype World = World(alias: Option<string>, current: Option<Current>, pending: set<string>,
                         pcs: seq<Pc>, served: seq<Current>)

  /** How the I/O of a step goes; `FailsLate` fails after the pending file came into being. */
  datatype Io = Works | Fails | FailsLate | Dies

  datatype Event = Event(caller: nat, io: Io)

  // ----- one atomic step -----

  function Move(w: World, i: nat, pc: Pc): World
    requires i < |w.pcs|
  {
    w.(pcs := w.pcs[i := pc])
  }

  function Refuse(w: World, i: nat, code: string): World
    requires i < |w.pcs|
  {
    Move(w, i, Finished(Refused(code)))
  }

  function PromoterStep(p: Caller, w: World, i: nat, io: Io): World
    requires p.Promoter? && i < |w.pcs|
  {
    match w.pcs[i]
    case Idle =>
      if io == Dies then Move(w, i, Dead)
      else if !p.cleared then Refuse(w, i, "release_gate_failed")
      else if io != Works || w.current.None? || w.current.value.collection != p.expected then
        Refuse(w, i, "current_manifest_invalid")
      else Move(w, i, ManifestMatched)
    case ManifestMatched =>
      if io == Dies then Move(w, i, Dead)
      else if io != Works || w.alias != Some(p.expected) then Refuse(w, i, "alias_compare_failed")
      else Move(w, i, AliasMatched)
    case AliasMatched =>
      if io == Dies then Move(w, i, Dead)
      else if p.releaseId in w.pending || io == Fails then Refuse(w, i, "pending_manifest_failed")
      else if io == FailsLate then Refuse(w.(pending := w.pending + {p.releaseId}), i, "pending_manifest_failed")
      else Move(w.(pending := w.pending + {p.releaseId}), i, PendingWritten)
    case PendingWritten =>
      if io == Dies then Move(w, i, Dead)
      else if io == Works && w.alias == Some(p.expected) then Move(w.(alias := Some(p.candidate)), i, Swapped)
      else if io == FailsLate then Refuse(w, i, "alias_update_failed")
      else Refuse(w.(pending := w.pending - {p.releaseId}), i, "alias_update_failed")
    case Swapped =>
      if io == Dies then Move(w, i, Stuck)
      else if io == Works then
        var next := Current(p.releaseId, p.candidate);
        Move(w.(current := Some(next), pending := w.pending - {p.releaseId}, served := w.served + [next]), i,
             Finished(Promoted))
      else Move(w, i, ReplaceFailed)
    case ReplaceFailed =>
      if io == Works && w.alias == Some(p.candidate) then
        Refuse(w.(alias := Some(p.expected)), i, "manifest_replace_failed")
      else Move(w, i, Stuck)
    case _ => w
  }

  function ReconcilerStep(w: World, i: nat, io: Io): World
    requires i < |w.pcs|
  {
    match w.pcs[i]
    case Idle =>
      if io == Dies then Move(w, i, Dead)
      else if io != Works || w.current.None? then Move(w, i, Reconciled(None))
      else Move(w, i, ManifestSeen(w.current.value))
    case ManifestSeen(seen) =>
      if io == Dies then Move(w, i, Dead)
      else if io != Works || w.alias != Some(seen.collection) then Move(w, i, Reconciled(None))
      else Move(w, i, Reconciled(Some(seen)))
    case _ => w
  }

  function Step(callers: seq<Caller>, w: World, e: Event): World
    requires |callers| == |w.pcs|
  {
    if e.caller >= |callers| then w
    else if callers[e.caller].Promoter? then PromoterStep(callers[e.caller], w, e.caller, e.io)
    else ReconcilerStep(w, e.caller, e.io)
  }

  /** The world after a schedule of steps. */
  function Run(callers: seq<Caller>, w: World, events: seq<Event>): (r: World)
    requires |callers| == |w.pcs|
    ensures |r.pcs| == |callers|
  {
    if events == [] then w
    else Step(callers, Run(callers, w, events[..|events| - 1]), events[|events| - 1])
  }

  // ----- start and freshness -----

  /** Nobody has started, and the alias names what the manifest says. */
  predicate Start(callers: seq<Caller>, w: World) {
    && |w.pcs| == |callers| && (forall i :: 0 <= i < |callers| ==> w.pcs[i] == Idle)
    && w.current.Some? && w.alias == Some(w.current.value.collection) && w.served == [w.current.value]
  }

  /** The naming rule: no candidate is in service already, or is another caller's candidate. */
  predicate FreshCandidates(callers: seq<Caller>, w: World) {
    && (forall i, c :: 0 <= i < |callers| && callers[i].Promoter? && c in w.served ==>
      callers[i].candidate != c.collection)
    && (forall i, j :: 0 <= i < j < |callers| && callers[i].Promoter? && callers[j].Promoter? ==>
          callers[i].candidate != callers[j].candidate)
  }

  // ----- the invariant -----

  predicate InWindow(w: World, i: nat)
    requires i < |w.pcs|
  {
    w.pcs[i].Swapped? || w.pcs[i].ReplaceFailed? || w.pcs[i].Stuck?
  }

  /** Past the manifest check, so that `expected` was in service at some time. */
  predicate Checked(w: World, i: nat)
    requires i < |w.pcs|
  {
    w.pcs[i].ManifestMatched? || w.pcs[i].AliasMatched? || w.pcs[i].PendingWritten? || InWindow(w, i)
  }

  predicate WasServed(served: seq<Current>, collection: string) {
    exists k :: 0 <= k < |served| && served[k].collection == collection
  }

  predicate WindowAgrees(callers: seq<Caller>, w: World, i: nat)
    requires |w.pcs| == |callers| && i < |callers|
  {
    InWindow(w, i) ==>
      callers[i].Promoter? && w.current.Some? && w.alias == Some(callers[i].candidate)
      && w.current.value.collection == callers[i].expected
  }

  predicate Inv(callers: seq<Caller>, w: World) {
    && |w.pcs| == |callers| && w.served != [] && w.current == Some(w.served[|w.served| - 1])
    // the history never repeats a collection
    && (forall j, k :: 0 <= j < k < |w.served| ==> w.served[j].collection != w.served[k].collection)
    // whoever has not promoted yet has a candidate that was never in service
    && (forall i, k ::
          0 <= i < |callers| && callers[i].Promoter? && w.pcs[i] != Finished(Promoted) && 0 <= k < |w.served| ==>
            w.served[k].collection != callers[i].candidate)
    && (forall i, j :: 0 <= i < j < |callers| && callers[i].Promoter? && callers[j].Promoter? ==>
          callers[i].candidate != callers[j].candidate)
    // reads of the manifest were true once
    && (forall i :: 0 <= i < |callers| && Checked(w, i) ==>
      callers[i].Promoter? && WasServed(w.served, callers[i].expected))
    && (forall i :: 0 <= i < |callers| && w.pcs[i].ManifestSeen? ==> w.pcs[i].seen in w.served)
    // the window holds one caller at most, and decides where the alias points
    && (forall i, j :: 0 <= i < j < |callers| ==> !(InWindow(w, i) && InWindow(w, j)))
    && (forall i :: 0 <= i < |callers| ==> WindowAgrees(callers, w, i))
    && ((forall i :: 0 <= i < |callers| ==> !InWindow(w, i)) ==> w.alias == Some(w.served[|w.served| - 1].collection))
  }

  lemma StartInv(callers: seq<Caller>, w: World)
    requires Start(callers, w) && FreshCandidates(callers, w)
    ensures Inv(callers, w)
  {
    assert w.served[0] == w.current.value;
  }

  /** While a caller is in the window, the alias names nothing that was ever in service. */
  lemma WindowAliasUnserved(callers: seq<Caller>, w: World, i: nat, collection: string)
    requires Inv(callers, w) && i < |callers| && InWindow(w, i) && WasServed(w.served, collection)
    ensures w.alias != Some(collection)
  {
    assert WindowAgrees(callers, w, i);
  }

  /** If the alias names something that was in service, nobody is in the window and the manifest
      names it too. */
  lemma ServedAliasAgrees(callers: seq<Caller>, w: World, collection: string)
    requires Inv(callers, w) && WasServed(w.served, collection) && w.alias == Some(collection)
    ensures forall i :: 0 <= i < |callers| ==> !InWindow(w, i)
    ensures w.current.value.collection == collection
  {
    forall i | 0 <= i < |callers| ensures !InWindow(w, i) {
      if InWindow(w, i) { WindowAliasUnserved(callers, w, i, collection); }
    }
  }

  /** A step that moves one caller outside the window, and nothing else. */
  lemma PlainMoveKeepsInv(callers: seq<Caller>, w: World, i: nat, pc: Pc, w': World)
    requires Inv(callers, w) && i < |callers| && !InWindow(w, i)
    requires w' == w.(pcs := w.pcs[i := pc], pending := w'.pending)
    requires pc != Finished(Promoted) && !pc.Swapped? && !pc.ReplaceFailed? && !pc.Stuck?
    requires pc.ManifestMatched? || pc.AliasMatched? || pc.PendingWritten? ==>
              callers[i].Promoter? && WasServed(w.served, callers[i].expected)
    requires pc.ManifestSeen? ==> pc.seen in w.served
    requires callers[i].Promoter? ==> w.pcs[i] != Finished(Promoted)
    ensures Inv(callers, w')
  {
    assert forall j :: 0 <= j < |callers| ==> (InWindow(w', j) <==> InWindow(w, j));
    forall j | 0 <= j < |callers| ensures WindowAgrees(callers, w', j) { assert WindowAgrees(callers, w, j); }
  }

  /** The swap opens the window only when it was empty. */
  lemma SwapKeepsInv(callers: seq<Caller>, w: World, i: nat, w': World)
    requires Inv(callers, w) && i < |callers| && callers[i].Promoter? && w.pcs[i].PendingWritten?
    requires w.alias == Some(callers[i].expected)
    requires w' == w.(alias := Some(callers[i].candidate), pcs := w.pcs[i := Swapped])
    ensures Inv(callers, w')
  {
    assert Checked(w, i);
    ServedAliasAgrees(callers, w, callers[i].expected);
    forall j | 0 <= j < |callers| && j != i ensures !InWindow(w', j) {
      assert !InWindow(w, j) && w'.pcs[j] == w.pcs[j];
    }
    assert InWindow(w', i);
  }

  /** Moves inside the window. */
  lemma WindowMoveKeepsInv(callers: seq<Caller>, w: World, i: nat, pc: Pc, w': World)
    requires Inv(callers, w) && i < |callers| && InWindow(w, i) && (pc.ReplaceFailed? || pc.Stuck?)
    requires w' == w.(pcs := w.pcs[i := pc])
    ensures Inv(callers, w')
  {
    assert forall j :: 0 <= j < |callers| ==> (InWindow(w', j) <==> InWindow(w, j));
    assert Checked(w, i);
    forall j | 0 <= j < |callers| ensures WindowAgrees(callers, w', j) { assert WindowAgrees(callers, w, j); }
  }

  lemma WindowIsOne(callers: seq<Caller>, w: World, i: nat)
    requires Inv(callers, w) && i < |callers| && InWindow(w, i)
    ensures forall j :: 0 <= j < |callers| && j != i ==> !InWindow(w, j)
  {
    assert forall j :: 0 <= j < i ==> !(InWindow(w, j) && InWindow(w, i));
  }

  /** The rollback swap closes the window on the manifest that is still there. */
  lemma RollbackKeepsInv(callers: seq<Caller>, w: World, i: nat, w': World)
    requires Inv(callers, w) && i < |callers| && InWindow(w, i)
    requires w'
             == w.(alias := Some(callers[i].expected), pcs := w.pcs[i := Finished(Refused("manifest_replace_failed"))])
    ensures Inv(callers, w')
  {
    WindowIsOne(callers, w, i);
    assert WindowAgrees(callers, w, i) && Checked(w, i);
    forall j | 0 <= j < |callers| ensures !InWindow(w', j) { assert j != i ==> !InWindow(w, j); }
  }

  /** The manifest replacement closes the window on the new release. */
  lemma ReplaceKeepsInv(callers: seq<Caller>, w: World, i: nat, w': World)
    requires Inv(callers, w) && i < |callers| && InWindow(w, i)
    requires callers[i].Promoter? && w.pcs[i] != Finished(Promoted)
    requires var next := Current(callers[i].releaseId, callers[i].candidate);
             w'
               == w.(current := Some(next), served := w.served + [next], pending := w'.pending,
                     pcs := w.pcs[i := Finished(Promoted)])
    ensures Inv(callers, w')
  {
    WindowIsOne(callers, w, i);
    assert WindowAgrees(callers, w, i);
    forall j | 0 <= j < |callers| ensures !InWindow(w', j) { assert j != i ==> !InWindow(w, j); }
    forall c | WasServed(w.served, c) ensures WasServed(w'.served, c) {
      var k :| 0 <= k < |w.served| && w.served[k].collection == c;
      assert w'.served[k] == w.served[k];
    }
    forall j | 0 <= j < |callers| && Checked(w', j)
      ensures callers[j].Promoter? && WasServed(w'.served, callers[j].expected) {
      assert Checked(w, j);
    }
    forall j, k | 0 <= j < |callers| && callers[j].Promoter? && w'.pcs[j] != Finished(Promoted) && 0 <= k < |w'.served|
      ensures w'.served[k].collection != callers[j].candidate
    {
      if k == |w.served| { assert j < i || i < j; }
    }
  }

  /** A step of a promoter before its swap, the swap included. */
  lemma EarlyStepKeepsInv(callers: seq<Caller>, w: World, i: nat, io: Io)
    requires Inv(callers, w) && i < |callers| && callers[i].Promoter?
    requires w.pcs[i].Idle? || w.pcs[i].ManifestMatched? || w.pcs[i].AliasMatched? || w.pcs[i].PendingWritten?
    ensures Inv(callers, PromoterStep(callers[i], w, i, io))
  {
    var w' := PromoterStep(callers[i], w, i, io);
    assert WasServed(w.served, w.served[|w.served| - 1].collection);
    assert !w.pcs[i].Idle? ==> Checked(w, i);
    if w.pcs[i].PendingWritten? && io == Works && w.alias == Some(callers[i].expected) {
      SwapKeepsInv(callers, w, i, w');
    } else {
      PlainMoveKeepsInv(callers, w, i, w'.pcs[i], w');
    }
  }

  /** A step of a promoter inside the window. */
  lemma WindowStepKeepsInv(callers: seq<Caller>, w: World, i: nat, io: Io)
    requires Inv(callers, w) && i < |callers| && callers[i].Promoter? && (w.pcs[i].Swapped? || w.pcs[i].ReplaceFailed?)
    ensures Inv(callers, PromoterStep(callers[i], w, i, io))
  {
    var w' := PromoterStep(callers[i], w, i, io);
    if w.pcs[i].Swapped? && io == Works {
      ReplaceKeepsInv(callers, w, i, w');
    } else if w.pcs[i].ReplaceFailed? && io == Works && w.alias == Some(callers[i].candidate) {
      RollbackKeepsInv(callers, w, i, w');
    } else {
      WindowMoveKeepsInv(callers, w, i, w'.pcs[i], w');
    }
  }

  lemma ReconcilerKeepsInv(callers: seq<Caller>, w: World, i: nat, io: Io)
    requires Inv(callers, w) && i < |callers| && !callers[i].Promoter?
    ensures Inv(callers, ReconcilerStep(w, i, io))
  {
    var w' := ReconcilerStep(w, i, io);
    if w.pcs[i].Idle? || w.pcs[i].ManifestSeen? {
      PlainMoveKeepsInv(callers, w, i, w'.pcs[i], w');
    }
  }

  /** Every step of every caller keeps the invariant. */
  lemma StepKeepsInv(callers: seq<Caller>, w: World, e: Event)
    requires Inv(callers, w)
    ensures Inv(callers, Step(callers, w, e))
  {
    var i := e.caller;
    if i < |callers| {
      if !callers[i].Promoter? {
        ReconcilerKeepsInv(callers, w, i, e.io);
      } else if w.pcs[i].Swapped? || w.pcs[i].ReplaceFailed? {
        WindowStepKeepsInv(callers, w, i, e.io);
      } else if w.pcs[i].Idle? || w.pcs[i].ManifestMatched? || w.pcs[i].AliasMatched? || w.pcs[i].PendingWritten? {
        EarlyStepKeepsInv(callers, w, i, e.io);
      } else {
        assert Step(callers, w, e) == w;
      }
    }
  }

  lemma {:induction false} RunKeepsInv(callers: seq<Caller>, w: World, events: seq<Event>)
    requires Inv(callers, w)
    ensures Inv(callers, Run(callers, w, events))
  {
    if events != [] {
      RunKeepsInv(callers, w, events[..|events| - 1]);
      StepKeepsInv(callers, Run(callers, w, events[..|events| - 1]), events[|events| - 1]);
    }
  }

  // ----- what every schedule guarantees -----

  /** At most one caller is in the window; outside it alias and manifest agree. */
  lemma {:induction false} OnePromoterInWindow(callers: seq<Caller>, w0: World, events: seq<Event>)
    requires Start(callers, w0) && FreshCandidates(callers, w0)
    ensures var w := Run(callers, w0, events);
            && (forall i, j :: 0 <= i < j < |callers| ==> !(InWindow(w, i) && InWindow(w, j)))
            && w.current.Some?
            && ((forall i :: 0 <= i < |callers| ==> !InWindow(w, i)) ==> w.alias == Some(w.current.value.collection))
            && (forall i :: 0 <= i < |callers| && InWindow(w, i) ==>
                  callers[i].Promoter? && w.alias == Some(callers[i].candidate)
                  && w.current.value.collection == callers[i].expected)
  {
    StartInv(callers, w0);
    RunKeepsInv(callers, w0, events);
    var w := Run(callers, w0, events);
    forall i | 0 <= i < |callers| && InWindow(w, i)
      ensures callers[i].Promoter? && w.alias == Some(callers[i].candidate)
              && w.current.value.collection == callers[i].expected
    {
      assert WindowAgrees(callers, w, i);
    }
  }

  /** A rollback whose swap is carried out finds its own candidate and restores the alias. */
  lemma {:induction false} RollbackSucceeds(callers: seq<Caller>, w0: World, events: seq<Event>, i: nat)
    requires Start(callers, w0) && FreshCandidates(callers, w0) && i < |callers|
    requires Run(callers, w0, events).pcs[i].ReplaceFailed?
    ensures var w := Run(callers, w0, events); var w' := Step(callers, w, Event(i, Works));
            w'.pcs[i] == Finished(Refused("manifest_replace_failed")) && w'.current == w.current
            && w'.current.Some? && w'.alias == Some(w'.current.value.collection)
  {
    OnePromoterInWindow(callers, w0, events);
    assert InWindow(Run(callers, w0, events), i);
  }

  /** A step that reports readiness reports what alias and manifest both say at that instant, and
      the manifest is still the one that was read. */
  lemma ReadyStepIsTrue(callers: seq<Caller>, w: World, e: Event, seen: Current)
    requires Inv(callers, w) && e.caller < |callers| && !w.pcs[e.caller].Reconciled?
    requires Step(callers, w, e).pcs[e.caller] == Reconciled(Some(seen))
    ensures w.pcs[e.caller] == ManifestSeen(seen)
    ensures w.current == Some(seen) && w.alias == Some(seen.collection)
  {
    var k :| 0 <= k < |w.served| && w.served[k] == seen;
    ServedAliasAgrees(callers, w, seen.collection);
  }

  /** Every `ready=True` was true of alias and manifest together at some instant during its call:
      after the manifest was read, and no later than the alias read. */
  lemma {:induction false} ReadinessLinearizable(callers: seq<Caller>, w0: World, events: seq<Event>, i: nat,
                                                 seen: Current)
    requires Start(callers, w0) && FreshCandidates(callers, w0) && i < |callers|
    requires Run(callers, w0, events).pcs[i] == Reconciled(Some(seen))
    ensures exists k :: 0 <= k < |events| && TrueInstant(callers, w0, events, i, seen, k)
  {
    var front, last := events[..|events| - 1], events[|events| - 1];
    assert events == front + [last];
    if Run(callers, w0, front).pcs[i] == Reconciled(Some(seen)) {
      ReadinessLinearizable(callers, w0, front, i, seen);
      var k :| 0 <= k < |front| && TrueInstant(callers, w0, front, i, seen, k);
      InstantEarlier(callers, w0, front, last, i, seen, k);
    } else {
      InstantAtLast(callers, w0, front, last, i, seen);
    }
  }

  lemma InstantEarlier(callers: seq<Caller>, w0: World, front: seq<Event>, last: Event, i: nat, seen: Current, k: nat)
    requires |callers| == |w0.pcs| && i < |callers| && k < |front| && TrueInstant(callers, w0, front, i, seen, k)
    ensures TrueInstant(callers, w0, front + [last], i, seen, k)
  {
    assert (front + [last])[..k] == front[..k];
  }

  lemma {:induction false} InstantAtLast(callers: seq<Caller>, w0: World, front: seq<Event>, last: Event, i: nat,
                                         seen: Current)
    requires Start(callers, w0) && FreshCandidates(callers, w0) && i < |callers|
    requires Run(callers, w0, front + [last]).pcs[i] == Reconciled(Some(seen)) != Run(callers, w0, front).pcs[i]
    ensures TrueInstant(callers, w0, front + [last], i, seen, |front|)
  {
    assert (front + [last])[..|front|] == front;
    StartInv(callers, w0);
    RunKeepsInv(callers, w0, front);
    StepMovesOne(callers, Run(callers, w0, front), last, i);
    ReadyStepIsTrue(callers, Run(callers, w0, front), last, seen);
  }

  /** A step moves its own caller only, and never one that has reconciled. */
  lemma StepMovesOne(callers: seq<Caller>, w: World, e: Event, i: nat)
    requires |callers| == |w.pcs| && i < |callers| && Step(callers, w, e).pcs[i] != w.pcs[i]
    ensures e.caller == i && !w.pcs[i].Reconciled?
  {
  }

  /** Before step `k`, the caller is between its two reads, and both facts hold. */
  predicate TrueInstant(callers: seq<Caller>, w0: World, events: seq<Event>, i: nat, seen: Current, k: nat)
    requires |callers| == |w0.pcs| && i < |callers| && k <= |events|
  {
    var w := Run(callers, w0, events[..k]);
    w.pcs[i] == ManifestSeen(seen) && w.current == Some(seen) && w.alias == Some(seen.collection)
  }

  // ----- after a death in the window -----

  /** Alias, manifest and the stuck caller never change again, and no one else promotes or
      becomes ready. */
  predicate Frozen(callers: seq<Caller>, w: World, w': World)
    requires |callers| == |w.pcs| == |w'.pcs|
  {
    && w'.alias == w.alias && w'.current == w.current && w'.served == w.served
    && forall i :: 0 <= i < |callers| ==>
         && (w.pcs[i].Stuck? ==> w'.pcs[i].Stuck?)
         && (w'.pcs[i] == Finished(Promoted) ==> w.pcs[i] == Finished(Promoted))
         && (w'.pcs[i].Reconciled? && w'.pcs[i].ready.Some? ==> w.pcs[i] == w'.pcs[i])
  }

  /** No promoter that has not swapped can swap now. */
  lemma StuckPromoterFrozen(callers: seq<Caller>, w: World, i: nat, j: nat, io: Io)
    requires Inv(callers, w) && i < |callers| && w.pcs[i].Stuck? && j < |callers| && callers[j].Promoter?
    ensures Frozen(callers, w, PromoterStep(callers[j], w, j, io))
  {
    assert InWindow(w, i);
    WindowIsOne(callers, w, i);
    assert j != i ==> !InWindow(w, j);
    if w.pcs[j].PendingWritten? {
      assert Checked(w, j);
      WindowAliasUnserved(callers, w, i, callers[j].expected);
    }
  }

  /** No readiness check finds the alias where the manifest says. */
  lemma StuckReconcilerFrozen(callers: seq<Caller>, w: World, i: nat, j: nat, io: Io)
    requires Inv(callers, w) && i < |callers| && w.pcs[i].Stuck? && j < |callers| && !callers[j].Promoter?
    ensures Frozen(callers, w, ReconcilerStep(w, j, io))
  {
    assert InWindow(w, i);
    if w.pcs[j].ManifestSeen? {
      var k :| 0 <= k < |w.served| && w.served[k] == w.pcs[j].seen;
      WindowAliasUnserved(callers, w, i, w.pcs[j].seen.collection);
    }
  }

  lemma StuckStepFrozen(callers: seq<Caller>, w: World, i: nat, e: Event)
    requires Inv(callers, w) && i < |callers| && w.pcs[i].Stuck?
    ensures Frozen(callers, w, Step(callers, w, e))
  {
    if e.caller < |callers| {
      if callers[e.caller].Promoter? {
        StuckPromoterFrozen(callers, w, i, e.caller, e.io);
      } else {
        StuckReconcilerFrozen(callers, w, i, e.caller, e.io);
      }
    }
  }

  lemma {:induction false} StuckStays(callers: seq<Caller>, w: World, i: nat, events: seq<Event>)
    requires Inv(callers, w) && i < |callers| && w.pcs[i].Stuck?
    ensures Frozen(callers, w, Run(callers, w, events))
  {
    if events != [] {
      var front := events[..|events| - 1];
      StuckStays(callers, w, i, front);
      RunKeepsInv(callers, w, front);
      StuckStepFrozen(callers, Run(callers, w, front), i, events[|events| - 1]);
    }
  }

  /** After a caller is stuck in the window everything fails closed, for good: no promotion that
      had not already succeeded ever does, and no readiness check ever reports ready. */
  lemma {:induction false} StuckFailsClosed(callers: seq<Caller>, w0: World, before: seq<Event>, after: seq<Event>,
                                            i: nat, j: nat)
    requires Start(callers, w0) && FreshCandidates(callers, w0) && i < |callers| && j < |callers|
    requires Run(callers, w0, before).pcs[i].Stuck?
    ensures var w := Run(callers, w0, before); var w' := Run(callers, w, after);
            && w'.alias == w.alias && w'.current == w.current
            && w'.current.Some? && w'.alias != Some(w'.current.value.collection)
            && (w.pcs[j] != Finished(Promoted) ==> w'.pcs[j] != Finished(Promoted))
            && (!w.pcs[j].Reconciled? && w'.pcs[j].Reconciled? ==> w'.pcs[j].ready.None?)
  {
    StartInv(callers, w0);
    RunKeepsInv(callers, w0, before);
    var w := Run(callers, w0, before);
    StuckStays(callers, w, i, after);
    assert InWindow(w, i) && WasServed(w.served, w.served[|w.served| - 1].collection);
    WindowAliasUnserved(callers, w, i, w.served[|w.served| - 1].collection);
  }

  // ----- what the manifest history says -----

  /** A step serves the candidate of the caller it finishes with success, and nothing else. */
  lemma StepServesOwn(callers: seq<Caller>, w: World, e: Event)
    requires |callers| == |w.pcs|
    ensures var w' := Step(callers, w, e);
            if e.caller < |callers| && w'.pcs[e.caller] == Finished(Promoted) && w.pcs[e.caller] != Finished(Promoted)
            then callers[e.caller].Promoter?
                 && w'.served == w.served + [Current(callers[e.caller].releaseId, callers[e.caller].candidate)]
            else w'.served == w.served
    ensures forall i :: 0 <= i < |callers| && i != e.caller ==> Step(callers, w, e).pcs[i] == w.pcs[i]
    ensures e.caller < |callers| && w.pcs[e.caller] == Finished(Promoted) ==>
              Step(callers, w, e).pcs[e.caller] == Finished(Promoted)
  {
  }

  lemma StepServes(callers: seq<Caller>, w: World, e: Event, i: nat)
    requires Inv(callers, w) && i < |callers| && callers[i].Promoter?
    requires w.pcs[i] == Finished(Promoted) <==> Current(callers[i].releaseId, callers[i].candidate) in w.served
    ensures var w' := Step(callers, w, e);
            && w.served <= w'.served
            && (w'.pcs[i] == Finished(Promoted) <==> Current(callers[i].releaseId, callers[i].candidate) in w'.served)
  {
    StepServesOwn(callers, w, e);
    if e.caller < |callers| && e.caller != i && callers[e.caller].Promoter? {
      assert callers[e.caller].candidate != callers[i].candidate by { assert e.caller < i || i < e.caller; }
    }
  }

  /** `current.json` was only ever replaced by callers that report success, and by each of them. */
  lemma {:induction false} ServedArePromoted(callers: seq<Caller>, w0: World, events: seq<Event>, i: nat)
    requires Start(callers, w0) && FreshCandidates(callers, w0) && i < |callers| && callers[i].Promoter?
    ensures var w := Run(callers, w0, events);
            && w0.served <= w.served
            && (w.pcs[i] == Finished(Promoted) <==> Current(callers[i].releaseId, callers[i].candidate) in w.served)
  {
    StartInv(callers, w0);
    if events != [] {
      var front, e := events[..|events| - 1], events[|events| - 1];
      ServedArePromoted(callers, w0, front, i);
      RunKeepsInv(callers, w0, front);
      StepServes(callers, Run(callers, w0, front), e, i);
    }
  }

  // ----- without the naming rule -----

  lemma {:induction false} RunThenStep(callers: seq<Caller>, w: World, events: seq<Event>, e: Event)
    requires |callers| == |w.pcs|
    ensures Run(callers, w, events + [e]) == Step(callers, Run(callers, w, events), e)
  {
    assert (events + [e])[..|events|] == events;
  }

  lemma {:induction false} RunJoins(callers: seq<Caller>, w: World, a: seq<Event>, b: seq<Event>)
    requires |callers| == |w.pcs|
    ensures Run(callers, w, a + b) == Run(callers, Run(callers, w, a), b)
  {
    if b == [] {
      assert a + b == a;
    } else {
      var front := b[..|b| - 1];
      RunJoins(callers, w, a, front);
      assert (a + b)[..|a + b| - 1] == a + front;
    }
  }

  function Repeat(i: nat, n: nat): seq<Event> {
    if n == 0 then [] else Repeat(i, n - 1) + [Event(i, Works)]
  }

  lemma RepeatStep(callers: seq<Caller>, w: World, i: nat, n: nat)
    requires |callers| == |w.pcs|
    ensures Run(callers, w, Repeat(i, n + 1)) == Step(callers, Run(callers, w, Repeat(i, n)), Event(i, Works))
  {
    RunThenStep(callers, w, Repeat(i, n), Event(i, Works));
  }

  lemma {:induction false} TwoSteps(callers: seq<Caller>, w: World, i: nat)
    requires |callers| == |w.pcs|
    ensures Run(callers, w, Repeat(i, 2)) == Step(callers, Step(callers, w, Event(i, Works)), Event(i, Works))
  {
    assert Run(callers, w, Repeat(i, 0)) == w;
    RepeatStep(callers, w, i, 0);
    RepeatStep(callers, w, i, 1);
  }

  /** The two comparisons of a promoter, each as one step. */
  lemma CompareSteps(callers: seq<Caller>, w: World, i: nat)
    requires |callers| == |w.pcs| && i < |callers| && callers[i].Promoter? && callers[i].cleared && w.pcs[i].Idle?
    requires w.current.Some? && w.current.value.collection == callers[i].expected
             && w.alias == Some(callers[i].expected)
    ensures var matched := Step(callers, w, Event(i, Works));
            && matched == w.(pcs := w.pcs[i := ManifestMatched])
            && Step(callers, matched, Event(i, Works)) == w.(pcs := w.pcs[i := AliasMatched])
  {
    assert w.pcs[i := ManifestMatched][i := AliasMatched] == w.pcs[i := AliasMatched];
  }

  /** The pending manifest and the swap, each as one step. */
  lemma SwapSteps(callers: seq<Caller>, w: World, i: nat)
    requires |callers| == |w.pcs| && i < |callers| && callers[i].Promoter? && w.pcs[i].AliasMatched?
    requires callers[i].releaseId !in w.pending && w.alias == Some(callers[i].expected)
    ensures var written := Step(callers, w, Event(i, Works));
            && written == w.(pending := w.pending + {callers[i].releaseId}, pcs := w.pcs[i := PendingWritten])
            && Step(callers, written, Event(i, Works)) == SwappedBy(callers, w, i)
  {
    assert w.pcs[i := PendingWritten][i := Swapped] == w.pcs[i := Swapped];
  }

  /** The world in which a promoter has swapped, and nothing else has happened. */
  function SwappedBy(callers: seq<Caller>, w: World, i: nat): World
    requires |callers| == |w.pcs| && i < |callers| && callers[i].Promoter?
  {
    w.(alias := Some(callers[i].candidate), pending := w.pending + {callers[i].releaseId}, pcs := w.pcs[i := Swapped])
  }

  /** Two undisturbed steps compare manifest and alias. */
  lemma {:induction false} ComparesAlone(callers: seq<Caller>, w: World, i: nat)
    requires |callers| == |w.pcs| && i < |callers| && callers[i].Promoter? && callers[i].cleared && w.pcs[i].Idle?
    requires w.current.Some? && w.current.value.collection == callers[i].expected
             && w.alias == Some(callers[i].expected)
    ensures Run(callers, w, Repeat(i, 2)) == w.(pcs := w.pcs[i := AliasMatched])
  {
    CompareSteps(callers, w, i);
    TwoSteps(callers, w, i);
  }

  /** Two more write the pending manifest and swap. */
  lemma {:induction false} SwapsCompared(callers: seq<Caller>, w: World, i: nat)
    requires |callers| == |w.pcs| && i < |callers| && callers[i].Promoter? && w.pcs[i].AliasMatched?
    requires callers[i].releaseId !in w.pending && w.alias == Some(callers[i].expected)
    ensures Run(callers, w, Repeat(i, 2)) == SwappedBy(callers, w, i)
  {
    SwapSteps(callers, w, i);
    TwoSteps(callers, w, i);
  }

  /** Four undisturbed steps take a promoter whose comparisons hold through its swap. */
  lemma {:induction false} SwapsAlone(callers: seq<Caller>, w: World, i: nat)
    requires |callers| == |w.pcs| && i < |callers| && callers[i].Promoter? && callers[i].cleared
    requires w.pcs[i].Idle? && callers[i].releaseId !in w.pending
    requires w.current.Some? && w.current.value.collection == callers[i].expected
             && w.alias == Some(callers[i].expected)
    ensures Run(callers, w, Repeat(i, 4)) == SwappedBy(callers, w, i)
  {
    var compared := w.(pcs := w.pcs[i := AliasMatched]);
    ComparesAlone(callers, w, i);
    SwapsCompared(callers, compared, i);
    RunRepeats(callers, w, i, 2, 2);
    SwappedEither(callers, w, i);
  }

  lemma SwappedEither(callers: seq<Caller>, w: World, i: nat)
    requires |callers| == |w.pcs| && i < |callers| && callers[i].Promoter?
    ensures SwappedBy(callers, w.(pcs := w.pcs[i := AliasMatched]), i) == SwappedBy(callers, w, i)
  {
    assert w.pcs[i := AliasMatched][i := Swapped] == w.pcs[i := Swapped];
  }

  lemma RunRepeats(callers: seq<Caller>, w: World, i: nat, m: nat, n: nat)
    requires |callers| == |w.pcs|
    ensures Run(callers, w, Repeat(i, m + n)) == Run(callers, Run(callers, w, Repeat(i, m)), Repeat(i, n))
  {
    RepeatJoins(i, m, n);
    RunJoins(callers, w, Repeat(i, m), Repeat(i, n));
  }

  lemma {:induction false} RepeatJoins(i: nat, m: nat, n: nat)
    ensures Repeat(i, m + n) == Repeat(i, m) + Repeat(i, n)
  {
    if n > 0 { RepeatJoins(i, m, n - 1); }
  }

  /** And a fifth one makes its release current: an undisturbed promotion succeeds. */
  lemma {:induction false} PromotesAlone(callers: seq<Caller>, w: World, i: nat)
    requires |callers| == |w.pcs| && i < |callers| && callers[i].Promoter? && callers[i].cleared
    requires w.pcs[i].Idle? && callers[i].releaseId !in w.pending
    requires w.current.Some? && w.current.value.collection == callers[i].expected
             && w.alias == Some(callers[i].expected)
    ensures var w' := Run(callers, w, Repeat(i, 5)); var next := Current(callers[i].releaseId, callers[i].candidate);
            w' == w.(alias := Some(next.collection), current := Some(next), served := w.served + [next],
                     pcs := w.pcs[i := Finished(Promoted)])
  {
    SwapsAlone(callers, w, i);
    RepeatStep(callers, w, i, 4);
    ReplaceStep(callers, w, i);
  }

  lemma ReplaceStep(callers: seq<Caller>, w: World, i: nat)
    requires |callers| == |w.pcs| && i < |callers| && callers[i].Promoter? && callers[i].releaseId !in w.pending
    ensures var next := Current(callers[i].releaseId, callers[i].candidate);
            Step(callers, SwappedBy(callers, w, i), Event(i, Works))
            == w.(alias := Some(next.collection), current := Some(next), served := w.served + [next],
                  pcs := w.pcs[i := Finished(Promoted)])
  {
    assert w.pending + {callers[i].releaseId} - {callers[i].releaseId} == w.pending;
    assert w.pcs[i := Swapped][i := Finished(Promoted)] == w.pcs[i := Finished(Promoted)];
  }
}
