/** Pending manifests (src/release.py). */
module PromotionPending {
  // A promoter creates its pending file exclusively and removes or renames it later. This says for
  // every schedule which finished promoters leave theirs behind.

  import opened Promotion

  /** No other promoter has the release of promoter `i`. */
  predicate OwnRelease(callers: seq<Caller>, i: nat)
    requires i < |callers|
  {
    callers[i].Promoter? && forall j :: 0 <= j < |callers| && j != i && callers[j].Promoter? ==>
      callers[j].releaseId != callers[i].releaseId
  }

  /** Statement `k` of the schedule is one of promoter `i`, and its I/O leaves the pending file behind: the
      write fails after the file came into being, the removal fails after a refused swap, or the
      replacement of the manifest fails. */
  predicate LeavesPending(callers: seq<Caller>, w0: World, events: seq<Event>, i: nat, k: nat)
    requires |callers| == |w0.pcs| && i < |callers| && k < |events|
  {
    && events[k].caller == i
    && match Run(callers, w0, events[..k]).pcs[i]
       case AliasMatched => events[k].io == FailsLate
       case PendingWritten => events[k].io == FailsLate
       case Swapped => events[k].io == Fails || events[k].io == FailsLate
       case _ => false
  }

  predicate Left(callers: seq<Caller>, w0: World, events: seq<Event>, i: nat)
    requires |callers| == |w0.pcs| && i < |callers|
  {
    exists k :: 0 <= k < |events| && LeavesPending(callers, w0, events, i, k)
  }

  /** What the pending files say about a promoter, wherever it stands. `before` says that the file was there
      at the start, `now` that it is there, and `left` that a statement has left it. */
  predicate Accounted(pc: Pc, before: bool, now: bool, left: bool) {
    match pc
    case Idle => (now <==> before) && !left
    case ManifestMatched => (now <==> before) && !left
    case AliasMatched => (now <==> before) && !left
    case PendingWritten => now && !before && !left
    case Swapped => now && !before && !left
    case ReplaceFailed => now && !before && left
    case Finished(o) => (now <==> before || left) && (o.Promoted? ==> !before && !left)
    case Stuck => now && !before
    case _ => before ==> now
  }

  predicate AccountedFor(callers: seq<Caller>, w0: World, events: seq<Event>, i: nat)
    requires |callers| == |w0.pcs| && i < |callers| && callers[i].Promoter?
  {
    var w := Run(callers, w0, events);
    var r := callers[i].releaseId;
    Accounted(w.pcs[i], r in w0.pending, r in w.pending, Left(callers, w0, events, i))
  }

  lemma LeftSnoc(callers: seq<Caller>, w0: World, front: seq<Event>, last: Event, i: nat)
    requires |callers| == |w0.pcs| && i < |callers|
    ensures Left(callers, w0, front + [last], i)
            <==> Left(callers, w0, front, i) || LeavesPending(callers, w0, front + [last], i, |front|)
  {
    var events := front + [last];
    forall k | 0 <= k < |front|
      ensures LeavesPending(callers, w0, events, i, k) <==> LeavesPending(callers, w0, front, i, k)
    {
      assert events[..k] == front[..k] && events[k] == front[k];
    }
    if Left(callers, w0, front, i) {
      var k :| 0 <= k < |front| && LeavesPending(callers, w0, front, i, k);
      assert LeavesPending(callers, w0, events, i, k);
    }
  }

  /** The step of another caller touches neither the promoter nor its pending file. */
  lemma OtherKeepsPending(callers: seq<Caller>, w: World, e: Event, i: nat)
    requires |callers| == |w.pcs| && i < |callers| && OwnRelease(callers, i) && e.caller != i
    ensures var w' := Step(callers, w, e); var r := callers[i].releaseId;
            w'.pcs[i] == w.pcs[i] && (r in w'.pending <==> r in w.pending)
  {
  }

  /** The own step of a promoter. */
  lemma OwnStepAccounted(p: Caller, w: World, i: nat, io: Io, before: bool, left: bool)
    requires p.Promoter? && i < |w.pcs| && Accounted(w.pcs[i], before, p.releaseId in w.pending, left)
    ensures var w' := PromoterStep(p, w, i, io); var pc := w.pcs[i];
            var leaves := ((pc.AliasMatched? || pc.PendingWritten?) && io == FailsLate)
                          || (pc.Swapped? && (io == Fails || io == FailsLate));
            Accounted(w'.pcs[i], before, p.releaseId in w'.pending, left || leaves)
  {
  }

  lemma StepAccounted(callers: seq<Caller>, w0: World, front: seq<Event>, last: Event, i: nat)
    requires |callers| == |w0.pcs| && i < |callers| && OwnRelease(callers, i)
    requires AccountedFor(callers, w0, front, i)
    ensures AccountedFor(callers, w0, front + [last], i)
  {
    var w, r := Run(callers, w0, front), callers[i].releaseId;
    RunThenStep(callers, w0, front, last);
    LeftSnoc(callers, w0, front, last, i);
    assert (front + [last])[..|front|] == front;
    if last.caller == i {
      OwnStepAccounted(callers[i], w, i, last.io, r in w0.pending, Left(callers, w0, front, i));
    } else {
      OtherKeepsPending(callers, w, last, i);
    }
  }

  lemma {:induction false} RunAccounted(callers: seq<Caller>, w0: World, events: seq<Event>, i: nat)
    requires |callers| == |w0.pcs| && i < |callers| && OwnRelease(callers, i) && w0.pcs[i].Idle?
    ensures AccountedFor(callers, w0, events, i)
  {
    if events != [] {
      RunAccounted(callers, w0, events[..|events| - 1], i);
      StepAccounted(callers, w0, events[..|events| - 1], events[|events| - 1], i);
      assert events == events[..|events| - 1] + [events[|events| - 1]];
    }
  }

  /** Whatever the other callers do, the pending file of a finished promoter is there exactly when it was
      there before, or one of its own statements has left it. */
  lemma {:induction false} PendingExactly(callers: seq<Caller>, w0: World, events: seq<Event>, i: nat)
    requires |callers| == |w0.pcs| && i < |callers| && OwnRelease(callers, i) && w0.pcs[i].Idle?
    requires Run(callers, w0, events).pcs[i].Finished?
    ensures callers[i].releaseId in Run(callers, w0, events).pending
            <==> callers[i].releaseId in w0.pending
                 || exists k :: 0 <= k < |events| && LeavesPending(callers, w0, events, i, k)
    ensures Run(callers, w0, events).pcs[i] == Finished(Promoted) ==>
              callers[i].releaseId !in Run(callers, w0, events).pending
  {
    RunAccounted(callers, w0, events, i);
  }

}
