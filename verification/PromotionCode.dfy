/** The code of promotion and readiness (src/release.py). */
module PromotionCode {
  // Both calls run among any other callers. A schedule says what the others do before each statement
  // of the call and how the I/O of the statement goes; the call takes exactly the protocol's steps for
  // the statements that it reaches, so every law of the protocol holds of it.

  import opened Promotion
  import opened PromotionPending
  import opened Wrappers

  /** What happens just before one statement of a call: steps of other callers, then its own I/O. */
  datatype Moment = Moment(others: seq<Event>, io: Io)

  predicate Foreign(events: seq<Event>, me: nat) {
    forall i :: 0 <= i < |events| ==> events[i].caller != me
  }

  ghost predicate ForeignSchedule(schedule: nat -> Moment, me: nat) {
    forall k: nat :: Foreign(schedule(k).others, me)
  }

  /** What `n` statements of a call and everything between them amount to. */
  function Interleaving(me: nat, schedule: nat -> Moment, n: nat): seq<Event> {
    if n == 0 then []
    else Interleaving(me, schedule, n - 1) + schedule(n - 1).others + [Event(me, schedule(n - 1).io)]
  }

  /** The call has returned, or its process is dead. */
  predicate Ended(pc: Pc) { pc.Finished? || pc.Dead? || pc.Stuck? || pc.Reconciled? }

  /** The world after `n` statements, none of them after the end of the call. */
  ghost predicate Reached(callers: seq<Caller>, begun: World, me: nat, schedule: nat -> Moment, n: nat, w: World)
    requires |callers| == |begun.pcs| && me < |callers|
  {
    && w == Run(callers, begun, Interleaving(me, schedule, n))
    && forall j: nat :: j < n ==> !Ended(Run(callers, begun, Interleaving(me, schedule, j)).pcs[me])
  }

  /** The call has run to its end in `n` statements. */
  ghost predicate Ran(callers: seq<Caller>, begun: World, me: nat, schedule: nat -> Moment, n: nat, w: World)
    requires |callers| == |begun.pcs| && me < |callers|
  {
    Reached(callers, begun, me, schedule, n, w) && Ended(w.pcs[me])
  }

  lemma {:induction false} ForeignKeepsPc(callers: seq<Caller>, w: World, me: nat, events: seq<Event>)
    requires |callers| == |w.pcs| && me < |callers| && Foreign(events, me)
    ensures Run(callers, w, events).pcs[me] == w.pcs[me]
  {
    if events != [] {
      var front, last := events[..|events| - 1], events[|events| - 1];
      ForeignKeepsPc(callers, w, me, front);
      StepServesOwn(callers, Run(callers, w, front), last);
    }
  }

  /** The world just before the own step of statement `n`. */
  function JustBefore(callers: seq<Caller>, begun: World, me: nat, schedule: nat -> Moment, n: nat): World
    requires |callers| == |begun.pcs|
  {
    Run(callers, begun, Interleaving(me, schedule, n) + schedule(n).others)
  }

  lemma StatementRuns(callers: seq<Caller>, begun: World, me: nat, schedule: nat -> Moment, n: nat)
    requires |callers| == |begun.pcs| && me < |callers| && ForeignSchedule(schedule, me)
    ensures var before := Run(callers, begun, Interleaving(me, schedule, n));
            && JustBefore(callers, begun, me, schedule, n) == Run(callers, before, schedule(n).others)
            && JustBefore(callers, begun, me, schedule, n).pcs[me] == before.pcs[me]
    ensures Run(callers, begun, Interleaving(me, schedule, n + 1))
            == Step(callers, JustBefore(callers, begun, me, schedule, n), Event(me, schedule(n).io))
  {
    RunJoins(callers, begun, Interleaving(me, schedule, n), schedule(n).others);
    ForeignKeepsPc(callers, Run(callers, begun, Interleaving(me, schedule, n)), me, schedule(n).others);
    RunThenStep(callers, begun, Interleaving(me, schedule, n) + schedule(n).others, Event(me, schedule(n).io));
  }

  /** The schedule determines how many statements a call takes, and so the whole world at its end. */
  lemma RanOnce(callers: seq<Caller>, begun: World, me: nat, schedule: nat -> Moment, m: nat, v: World, n: nat,
                w: World)
    requires |callers| == |begun.pcs| && me < |callers|
    requires Ran(callers, begun, me, schedule, m, v) && Ran(callers, begun, me, schedule, n, w)
    ensures m == n && v == w
  {
  }

  // ----- what a schedule decides -----

  /** Nobody interferes, and all I/O works. */
  ghost predicate Undisturbed(schedule: nat -> Moment) { forall k: nat :: schedule(k) == Moment([], Works) }

  /** The comparisons of a promotion that has not begun hold, and its pending name is free. */
  predicate ReadyToPromote(callers: seq<Caller>, w: World, i: nat)
    requires |callers| == |w.pcs| && i < |callers|
  {
    && callers[i].Promoter? && callers[i].cleared && w.pcs[i].Idle? && callers[i].releaseId !in w.pending
    && w.current.Some? && w.current.value.collection == callers[i].expected && w.alias == Some(callers[i].expected)
  }

  lemma {:induction false} UndisturbedRepeats(me: nat, schedule: nat -> Moment, n: nat)
    requires Undisturbed(schedule)
    ensures Interleaving(me, schedule, n) == Repeat(me, n)
  {
    if n > 0 {
      UndisturbedRepeats(me, schedule, n - 1);
      assert schedule(n - 1) == Moment([], Works);
    }
  }

  /** An undisturbed promotion whose comparisons hold succeeds. */
  lemma UndisturbedPromotes(callers: seq<Caller>, begun: World, me: nat, schedule: nat -> Moment, n: nat, w: World)
    requires |callers| == |begun.pcs| && me < |callers| && Undisturbed(schedule) && ReadyToPromote(callers, begun, me)
    requires Ran(callers, begun, me, schedule, n, w)
    ensures var next := Current(callers[me].releaseId, callers[me].candidate);
            && w.pcs[me] == Finished(Promoted) && w.current == Some(next) && w.alias == Some(next.collection)
            && w.pending == begun.pending
  {
    PromotesAlone(callers, begun, me);
    UndisturbedRepeats(me, schedule, 5);
    forall j: nat | j < 5 ensures !Ended(Run(callers, begun, Interleaving(me, schedule, j)).pcs[me]) {
      UndisturbedRepeats(me, schedule, j);
      StillPromoting(callers, begun, me, j);
    }
    RanOnce(callers, begun, me, schedule, n, w, 5, Run(callers, begun, Repeat(me, 5)));
  }

  lemma EndedStep(callers: seq<Caller>, w: World, i: nat, io: Io)
    requires |callers| == |w.pcs| && i < |callers| && Ended(w.pcs[i])
    ensures Step(callers, w, Event(i, io)) == w
  {
  }

  /** A call that has ended stays ended. */
  lemma {:induction false} EndedStays(callers: seq<Caller>, w: World, i: nat, k: nat, n: nat)
    requires |callers| == |w.pcs| && i < |callers| && k <= n && Ended(Run(callers, w, Repeat(i, k)).pcs[i])
    ensures Ended(Run(callers, w, Repeat(i, n)).pcs[i])
  {
    if k < n {
      EndedStays(callers, w, i, k, n - 1);
      RepeatStep(callers, w, i, n - 1);
      EndedStep(callers, Run(callers, w, Repeat(i, n - 1)), i, Works);
    }
  }

  lemma SwapsInTime(callers: seq<Caller>, w: World, i: nat) returns (n: nat)
    requires |callers| == |w.pcs| && i < |callers| && ReadyToPromote(callers, w, i)
    ensures n >= 4 && Run(callers, w, Repeat(i, n)).pcs[i] == Swapped
  {
    SwapsAlone(callers, w, i);
    n := 4;
  }

  lemma {:induction false} StillPromoting(callers: seq<Caller>, w: World, i: nat, k: nat)
    requires |callers| == |w.pcs| && i < |callers| && ReadyToPromote(callers, w, i) && k < 5
    ensures !Ended(Run(callers, w, Repeat(i, k)).pcs[i])
  {
    var n := SwapsInTime(callers, w, i);
    if Ended(Run(callers, w, Repeat(i, k)).pcs[i]) { EndedStays(callers, w, i, k, n); }
  }

  /** A ready answer was true of alias and manifest together, and the instant is in the call: after its
      manifest read and just before its last step. */
  lemma ReadyWasTrue(callers: seq<Caller>, begun: World, me: nat, schedule: nat -> Moment, n: nat, w: World,
                     seen: Current)
    requires Inv(callers, begun) && me < |callers| && ForeignSchedule(schedule, me) && begun.pcs[me].Idle?
    requires Ran(callers, begun, me, schedule, n, w) && w.pcs[me] == Reconciled(Some(seen))
    ensures n > 0 && var instant := JustBefore(callers, begun, me, schedule, n - 1);
            instant.pcs[me] == ManifestSeen(seen) && instant.current == Some(seen)
              && instant.alias == Some(seen.collection)
  {
    assert n > 0 by { assert Interleaving(me, schedule, 0) == []; }
    StatementRuns(callers, begun, me, schedule, n - 1);
    assert !Ended(Run(callers, begun, Interleaving(me, schedule, n - 1)).pcs[me]);
    RunKeepsInv(callers, begun, Interleaving(me, schedule, n - 1) + schedule(n - 1).others);
    ReadyStepIsTrue(callers, JustBefore(callers, begun, me, schedule, n - 1), Event(me, schedule(n - 1).io), seen);
  }

  lemma ReadyInstant(callers: seq<Caller>, begun: World, me: nat, schedule: nat -> Moment, n: nat, w: World,
                     ready: Option<Current>)
    requires |callers| == |begun.pcs| == |w.pcs| && me < |callers| && ForeignSchedule(schedule, me)
             && begun.pcs[me].Idle?
    requires Ran(callers, begun, me, schedule, n, w) && (ready.Some? ==> w.pcs[me] == Reconciled(ready))
    ensures ready.Some? && Inv(callers, begun) ==>
              n > 0 && var instant := JustBefore(callers, begun, me, schedule, n - 1);
              instant.pcs[me] == ManifestSeen(ready.value)
              && instant.current == ready && instant.alias == Some(ready.value.collection)
  {
    if ready.Some? && Inv(callers, begun) { ReadyWasTrue(callers, begun, me, schedule, n, w, ready.value); }
  }

  // ----- a call alone -----

  /** The others do nothing, and the call's own I/O may go any way. */
  ghost predicate Lone(schedule: nat -> Moment) { forall k: nat :: schedule(k).others == [] }

  /** How a call ends, and what it leaves. */
  datatype Ending = Ending(pc: Pc, alias: Option<string>, current: Option<Current>, pending: set<string>)

  function EndingOf(w: World, me: nat): Ending
    requires me < |w.pcs|
  {
    Ending(w.pcs[me], w.alias, w.current, w.pending)
  }

  function Kept(w: World, pc: Pc): Ending { Ending(pc, w.alias, w.current, w.pending) }

  /** The comparisons of a promotion. */
  predicate ComparisonsHold(p: Caller, w: World)
    requires p.Promoter?
  {
    p.cleared && w.current.Some? && w.current.value.collection == p.expected && w.alias == Some(p.expected)
  }

  /** How a promotion ends in its comparisons. */
  function ComparisonFailed(p: Caller, w: World, first: Io, second: Io): Ending
    requires p.Promoter?
  {
    if first == Dies then Kept(w, Dead)
    else if !p.cleared then Kept(w, Finished(Refused("release_gate_failed")))
    else if first != Works || w.current.None? || w.current.value.collection != p.expected then
      Kept(w, Finished(Refused("current_manifest_invalid")))
    else if second == Dies then Kept(w, Dead)
    else Kept(w, Finished(Refused("alias_compare_failed")))
  }

  /** How a promotion ends between its comparisons and its swap, when nobody else is there. */
  function WritesFailed(p: Caller, w: World, write: Io, swap: Io): Ending
    requires p.Promoter?
  {
    var written := w.pending + {p.releaseId};
    if write == Dies then Kept(w, Dead)
    else if p.releaseId in w.pending || write == Fails then Kept(w, Finished(Refused("pending_manifest_failed")))
    else if write == FailsLate then Ending(Finished(Refused("pending_manifest_failed")), w.alias, w.current, written)
    else if swap == Dies then Ending(Dead, w.alias, w.current, written)
    else if swap == FailsLate then Ending(Finished(Refused("alias_update_failed")), w.alias, w.current, written)
    else Kept(w, Finished(Refused("alias_update_failed")))
  }

  /** How a promotion ends after its swap, when nobody else is there. */
  function WindowEnding(p: Caller, w: World, replace: Io, back: Io): Ending
    requires p.Promoter?
  {
    var written := w.pending + {p.releaseId};
    if replace == Works then
      Ending(Finished(Promoted), Some(p.candidate), Some(Current(p.releaseId, p.candidate)), w.pending)
    else if replace == Dies || back != Works then Ending(Stuck, Some(p.candidate), w.current, written)
    else Ending(Finished(Refused("manifest_replace_failed")), w.alias, w.current, written)
  }

  /** `promote_release` from top to bottom, when nobody else is there. */
  function PromotionAlone(p: Caller, w: World, schedule: nat -> Moment): Ending
    requires p.Promoter?
  {
    if !(schedule(0).io == schedule(1).io == Works && ComparisonsHold(p, w)) then
      ComparisonFailed(p, w, schedule(0).io, schedule(1).io)
    else if !(schedule(2).io == schedule(3).io == Works && p.releaseId !in w.pending) then
      WritesFailed(p, w, schedule(2).io, schedule(3).io)
    else WindowEnding(p, w, schedule(4).io, schedule(5).io)
  }

  /** `reconcile_release_state` from top to bottom, when nobody else is there. */
  function ReadinessAlone(w: World, first: Io, second: Io): Ending {
    if first == Dies || (first == Works && w.current.Some? && second == Dies) then Kept(w, Dead)
    else if first == second == Works && w.current.Some? && w.alias == Some(w.current.value.collection) then
      Kept(w, Reconciled(w.current))
    else Kept(w, Reconciled(None))
  }

  /** A call, its schedule, and where it has ended after `n` statements. */
  datatype Call = Call(callers: seq<Caller>, begun: World, me: nat, schedule: nat -> Moment, n: nat, w: World)

  ghost predicate LoneCall(c: Call) {
    && |c.callers| == |c.begun.pcs| && c.me < |c.callers| && Lone(c.schedule) && c.begun.pcs[c.me].Idle?
    && Ran(c.callers, c.begun, c.me, c.schedule, c.n, c.w)
  }

  /** The world after `j` statements of a call. */
  function WorldAt(c: Call, j: nat): (w: World)
    requires |c.callers| == |c.begun.pcs|
    ensures |w.pcs| == |c.callers|
  {
    Run(c.callers, c.begun, Interleaving(c.me, c.schedule, j))
  }

  /** A statement of a call that nobody disturbs is one step of the protocol, and the call may end with it. */
  lemma LoneStatement(c: Call, j: nat, p: Caller, v: World, io: Io)
    requires LoneCall(c) && j <= c.n && v == WorldAt(c, j) && !Ended(v.pcs[c.me])
    requires p == c.callers[c.me] && io == c.schedule(j).io
    ensures var next := if p.Promoter? then PromoterStep(p, v, c.me, io) else ReconcilerStep(v, c.me, io);
            j < c.n && WorldAt(c, j + 1) == next && (Ended(next.pcs[c.me]) ==> c.w == next)
  {
    var events := Interleaving(c.me, c.schedule, j);
    assert c.schedule(j).others == [] && events + [] == events;
    RunThenStep(c.callers, c.begun, events, Event(c.me, io));
    assert j + 1 <= c.n;
  }

  function StepOf(p: Caller, w: World, me: nat, io: Io): World
    requires me < |w.pcs|
  {
    if p.Promoter? then PromoterStep(p, w, me, io) else ReconcilerStep(w, me, io)
  }

  /** The first two statements of a lone call, which may end at either. */
  lemma LoneTwo(c: Call, p: Caller, one: World, two: World)
    requires LoneCall(c) && p == c.callers[c.me] && |one.pcs| == |c.callers|
    requires one == StepOf(p, c.begun, c.me, c.schedule(0).io) && two == StepOf(p, one, c.me, c.schedule(1).io)
    ensures Ended(one.pcs[c.me]) ==> c.w == one
    ensures !Ended(one.pcs[c.me]) ==> c.n >= 2 && WorldAt(c, 2) == two
    ensures !Ended(one.pcs[c.me]) && |two.pcs| == |c.callers| && Ended(two.pcs[c.me]) ==> c.w == two
  {
    assert WorldAt(c, 0) == c.begun;
    LoneStatement(c, 0, p, c.begun, c.schedule(0).io);
    if !Ended(one.pcs[c.me]) { LoneStatement(c, 1, p, one, c.schedule(1).io); }
  }

  lemma LoneComparisons(c: Call, p: Caller, first: Io, second: Io)
    requires LoneCall(c) && p == c.callers[c.me] && p.Promoter?
    requires first == c.schedule(0).io && second == c.schedule(1).io
    ensures if first == second == Works && ComparisonsHold(p, c.begun) then
              c.n >= 2 && WorldAt(c, 2) == c.begun.(pcs := c.begun.pcs[c.me := AliasMatched])
            else EndingOf(c.w, c.me) == ComparisonFailed(p, c.begun, first, second)
  {
    var one := StepOf(p, c.begun, c.me, first);
    LoneTwo(c, p, one, StepOf(p, one, c.me, second));
    ComparedAlone(p, c.begun, c.me, first, second);
  }

  /** Both comparisons, one after the other. */
  lemma ComparedAlone(p: Caller, v: World, me: nat, first: Io, second: Io)
    requires p.Promoter? && me < |v.pcs| && v.pcs[me].Idle?
    ensures var one := PromoterStep(p, v, me, first); var two := PromoterStep(p, one, me, second);
            if first == second == Works && ComparisonsHold(p, v) then
              !Ended(one.pcs[me]) && two == v.(pcs := v.pcs[me := AliasMatched])
            else if Ended(one.pcs[me]) then EndingOf(one, me) == ComparisonFailed(p, v, first, second)
            else Ended(two.pcs[me]) && EndingOf(two, me) == ComparisonFailed(p, v, first, second)
  {
    assert v.pcs[me := ManifestMatched][me := AliasMatched] == v.pcs[me := AliasMatched];
  }

  lemma LoneWrites(c: Call, p: Caller, v: World, write: Io, swap: Io)
    requires LoneCall(c) && p == c.callers[c.me] && p.Promoter? && c.n >= 2 && v == WorldAt(c, 2)
    requires v.pcs[c.me].AliasMatched? && v.alias == Some(p.expected)
    requires write == c.schedule(2).io && swap == c.schedule(3).io
    ensures if p.releaseId !in v.pending && write == swap == Works then
              c.n >= 4 && WorldAt(c, 4) == SwappedBy(c.callers, v, c.me)
            else EndingOf(c.w, c.me) == WritesFailed(p, v, write, swap)
  {
    LoneStatement(c, 2, p, v, write);
    if p.releaseId !in v.pending && write == Works {
      var written := v.pending + {p.releaseId};
      LoneStatement(c, 3, p, v.(pending := written, pcs := v.pcs[c.me := PendingWritten]), swap);
      assert written - {p.releaseId} == v.pending;
      assert v.pcs[c.me := PendingWritten][c.me := Swapped] == v.pcs[c.me := Swapped];
    }
  }

  lemma LoneWindow(c: Call, p: Caller, v: World, replace: Io, back: Io)
    requires LoneCall(c) && p == c.callers[c.me] && p.Promoter? && c.n >= 4
    requires p.releaseId !in v.pending && v.alias == Some(p.expected)
    requires |v.pcs| == |c.callers| && WorldAt(c, 4) == SwappedBy(c.callers, v, c.me)
    requires replace == c.schedule(4).io && back == c.schedule(5).io
    ensures EndingOf(c.w, c.me) == WindowEnding(p, v, replace, back)
  {
    var swapped := SwappedBy(c.callers, v, c.me);
    LoneStatement(c, 4, p, swapped, replace);
    assert swapped.pending - {p.releaseId} == v.pending;
    if replace == Fails || replace == FailsLate {
      LoneStatement(c, 5, p, swapped.(pcs := swapped.pcs[c.me := ReplaceFailed]), back);
    }
  }

  /** A promotion that nobody disturbs ends as the code says from top to bottom, however its I/O goes. */
  lemma LonePromotion(c: Call, p: Caller)
    requires LoneCall(c) && p == c.callers[c.me] && p.Promoter?
    ensures EndingOf(c.w, c.me) == PromotionAlone(p, c.begun, c.schedule)
  {
    var v := c.begun.(pcs := c.begun.pcs[c.me := AliasMatched]);
    LoneComparisons(c, p, c.schedule(0).io, c.schedule(1).io);
    if c.schedule(0).io == c.schedule(1).io == Works && ComparisonsHold(p, c.begun) {
      LoneWrites(c, p, v, c.schedule(2).io, c.schedule(3).io);
      if c.schedule(2).io == c.schedule(3).io == Works && p.releaseId !in v.pending {
        LoneWindow(c, p, v, c.schedule(4).io, c.schedule(5).io);
      }
    }
  }

  /** A readiness check that nobody disturbs, however its I/O goes. */
  lemma LoneReadiness(c: Call, first: Io, second: Io)
    requires LoneCall(c) && c.callers[c.me].Reconciler? && first == c.schedule(0).io && second == c.schedule(1).io
    ensures EndingOf(c.w, c.me) == ReadinessAlone(c.begun, first, second)
  {
    var p := c.callers[c.me];
    var one := StepOf(p, c.begun, c.me, first);
    LoneTwo(c, p, one, StepOf(p, one, c.me, second));
    CheckedAlone(c.begun, c.me, first, second);
  }

  /** Both reads, one after the other. */
  lemma CheckedAlone(v: World, me: nat, first: Io, second: Io)
    requires me < |v.pcs| && v.pcs[me].Idle?
    ensures var one := ReconcilerStep(v, me, first); var two := ReconcilerStep(one, me, second);
            if Ended(one.pcs[me]) then EndingOf(one, me) == ReadinessAlone(v, first, second)
            else Ended(two.pcs[me]) && EndingOf(two, me) == ReadinessAlone(v, first, second)
  {
  }

  lemma LoneAnswer(c: Call)
    requires |c.callers| == |c.begun.pcs| && c.me < |c.callers| && c.begun.pcs[c.me].Idle?
    requires Ran(c.callers, c.begun, c.me, c.schedule, c.n, c.w) && c.callers[c.me].Reconciler?
    ensures Lone(c.schedule) ==>
              EndingOf(c.w, c.me) == ReadinessAlone(c.begun, c.schedule(0).io, c.schedule(1).io)
  {
    if Lone(c.schedule) { LoneReadiness(c, c.schedule(0).io, c.schedule(1).io); }
  }

  // ----- the pending manifest of a call -----

  /** How many statements a promotion has made, and what has become of its pending file, among any others. */
  predicate StatementFits(pc: Pc, n: nat, before: bool, now: bool, schedule: nat -> Moment) {
    match pc
    case Idle => n == 0 && (now <==> before)
    case ManifestMatched => n == 1 && (now <==> before)
    case AliasMatched => n == 2 && (now <==> before)
    case PendingWritten => n == 3 && now && !before
    case Swapped => n == 4 && now && !before
    case ReplaceFailed => n == 5 && now && !before
    case Finished(_) => now <==> before || LeftBy(n, schedule)
    case Dead => true
    case Stuck => true
    case _ => false
  }

  /** A promotion that returns after `n` statements has left its pending file: its write failed after the
      file came into being, the removal failed, or the replacement of the manifest did. */
  predicate LeftBy(n: nat, schedule: nat -> Moment) {
    (n == 3 && schedule(2).io == FailsLate) || (n == 4 && schedule(3).io == FailsLate) || n == 6
  }

  lemma {:induction false} ForeignKeepsPending(callers: seq<Caller>, w: World, me: nat, events: seq<Event>)
    requires |callers| == |w.pcs| && me < |callers| && Foreign(events, me) && OwnRelease(callers, me)
    ensures callers[me].releaseId in Run(callers, w, events).pending <==> callers[me].releaseId in w.pending
  {
    if events != [] {
      ForeignKeepsPending(callers, w, me, events[..|events| - 1]);
      OtherKeepsPending(callers, Run(callers, w, events[..|events| - 1]), events[|events| - 1], me);
    }
  }

  lemma OwnStatementFits(p: Caller, w: World, me: nat, n: nat, before: bool, schedule: nat -> Moment)
    requires p.Promoter? && me < |w.pcs| && !Ended(w.pcs[me])
    requires StatementFits(w.pcs[me], n, before, p.releaseId in w.pending, schedule)
    ensures var next := PromoterStep(p, w, me, schedule(n).io);
            StatementFits(next.pcs[me], n + 1, before, p.releaseId in next.pending, schedule)
  {
  }

  predicate CallFits(callers: seq<Caller>, begun: World, me: nat, schedule: nat -> Moment, n: nat, w: World)
    requires |callers| == |begun.pcs| == |w.pcs| && me < |callers| && callers[me].Promoter?
  {
    var r := callers[me].releaseId;
    StatementFits(w.pcs[me], n, r in begun.pending, r in w.pending, schedule)
  }

  /** One statement, with what the others do before it. */
  lemma {:induction false} NextStatementFits(callers: seq<Caller>, begun: World, me: nat, schedule: nat -> Moment,
                                             n: nat, w: World)
    requires |callers| == |begun.pcs| == |w.pcs| && me < |callers| && OwnRelease(callers, me)
    requires !Ended(w.pcs[me]) && CallFits(callers, begun, me, schedule, n, w) && Foreign(schedule(n).others, me)
    ensures CallFits(callers, begun, me, schedule, n + 1,
                     Step(callers, Run(callers, w, schedule(n).others), Event(me, schedule(n).io)))
  {
    ForeignKeepsPc(callers, w, me, schedule(n).others);
    ForeignKeepsPending(callers, w, me, schedule(n).others);
    OwnStatementFits(callers[me], Run(callers, w, schedule(n).others), me, n,
                     callers[me].releaseId in begun.pending, schedule);
  }

  lemma {:induction false} StatementsFit(callers: seq<Caller>, begun: World, me: nat, schedule: nat -> Moment, n: nat)
    requires |callers| == |begun.pcs| && me < |callers| && OwnRelease(callers, me) && begun.pcs[me].Idle?
    requires ForeignSchedule(schedule, me)
    requires forall j: nat :: j < n ==> !Ended(Run(callers, begun, Interleaving(me, schedule, j)).pcs[me])
    ensures CallFits(callers, begun, me, schedule, n, Run(callers, begun, Interleaving(me, schedule, n)))
  {
    if n > 0 {
      StatementsFit(callers, begun, me, schedule, n - 1);
      StatementFitsNext(callers, begun, me, schedule, n - 1);
    }
  }

  lemma StatementFitsNext(callers: seq<Caller>, begun: World, me: nat, schedule: nat -> Moment, n: nat)
    requires |callers| == |begun.pcs| && me < |callers| && OwnRelease(callers, me) && ForeignSchedule(schedule, me)
    requires var w := Run(callers, begun, Interleaving(me, schedule, n));
             !Ended(w.pcs[me]) && CallFits(callers, begun, me, schedule, n, w)
    ensures CallFits(callers, begun, me, schedule, n + 1, Run(callers, begun, Interleaving(me, schedule, n + 1)))
  {
    StatementRuns(callers, begun, me, schedule, n);
    assert Foreign(schedule(n).others, me);
    NextStatementFits(callers, begun, me, schedule, n, Run(callers, begun, Interleaving(me, schedule, n)));
  }

  /** A promotion that returns leaves its pending file exactly when it was there before, or when a
      statement of its own has failed to write, remove or rename it. */
  lemma ReturnedPending(callers: seq<Caller>, begun: World, me: nat, schedule: nat -> Moment, n: nat, w: World)
    requires |callers| == |begun.pcs| && me < |callers| && OwnRelease(callers, me) && begun.pcs[me].Idle?
    requires ForeignSchedule(schedule, me) && Ran(callers, begun, me, schedule, n, w) && w.pcs[me].Finished?
    ensures callers[me].releaseId in w.pending <==> callers[me].releaseId in begun.pending || LeftBy(n, schedule)
  {
    StatementsFit(callers, begun, me, schedule, n);
  }

  /** What is known of a promotion that has ended: undisturbed, alone, and among any others. */
  lemma PromotionEnds(c: Call, p: Caller)
    requires |c.callers| == |c.begun.pcs| == |c.w.pcs| && c.me < |c.callers| && p == c.callers[c.me] && p.Promoter?
    requires c.begun.pcs[c.me].Idle? && ForeignSchedule(c.schedule, c.me)
    requires Ran(c.callers, c.begun, c.me, c.schedule, c.n, c.w)
    ensures Undisturbed(c.schedule) && ReadyToPromote(c.callers, c.begun, c.me) ==>
              EndingOf(c.w, c.me) == Ending(Finished(Promoted), Some(p.candidate),
                                            Some(Current(p.releaseId, p.candidate)), c.begun.pending)
    ensures Lone(c.schedule) ==> EndingOf(c.w, c.me) == PromotionAlone(p, c.begun, c.schedule)
    ensures OwnRelease(c.callers, c.me) && c.w.pcs[c.me].Finished? ==>
              (p.releaseId in c.w.pending <==> p.releaseId in c.begun.pending || LeftBy(c.n, c.schedule))
  {
    if Undisturbed(c.schedule) && ReadyToPromote(c.callers, c.begun, c.me) {
      UndisturbedPromotes(c.callers, c.begun, c.me, c.schedule, c.n, c.w);
    }
    if Lone(c.schedule) { LonePromotion(c, p); }
    if OwnRelease(c.callers, c.me) && c.w.pcs[c.me].Finished? {
      ReturnedPending(c.callers, c.begun, c.me, c.schedule, c.n, c.w);
    }
  }

  // ----- the code -----

  /** The alias backend and the release root. `pcs` and `served` say where every caller stands and
      what `current.json` has held; no call reads them. */
  class ReleaseService {
    const callers: seq<Caller>
    var alias: Option<string>
    var current: Option<Current>
    var pending: set<string>
    var pcs: seq<Pc>
    var served: seq<Current>

    constructor (callers: seq<Caller>, first: Current)
      ensures this.callers == callers && Start(callers, State())
      ensures current == Some(first) && alias == Some(first.collection) && pending == {}
    {
      this.callers := callers;
      alias, current, pending := Some(first.collection), Some(first), {};
      pcs := seq(|callers|, _ => Idle);
      served := [first];
    }

    function State(): World
      reads this
    {
      World(alias, current, pending, pcs, served)
    }

    /** The call has executed `n` statements since `begun`. */
    ghost predicate At(begun: World, me: nat, schedule: nat -> Moment, n: nat)
      reads this
    {
      && |pcs| == |callers| == |begun.pcs| && me < |callers| && ForeignSchedule(schedule, me)
      && Reached(callers, begun, me, schedule, n, State())
    }

    /** Other callers take their steps. */
    method Interleave(me: nat, events: seq<Event>)
      requires |pcs| == |callers| && me < |callers| && Foreign(events, me)
      modifies this
      ensures |pcs| == |callers| && State() == Run(callers, old(State()), events) && pcs[me] == old(pcs[me])
    {
      for i := 0 to |events|
        invariant |pcs| == |callers| && State() == Run(callers, old(State()), events[..i]) && pcs[me] == old(pcs[me])
      {
        assert events[..i + 1] == events[..i] + [events[i]];
        RunThenStep(callers, old(State()), events[..i], events[i]);
        StepServesOwn(callers, State(), events[i]);
        var w := Step(callers, State(), events[i]);
        alias, current, pending, pcs, served := w.alias, w.current, w.pending, w.pcs, w.served;
      }
      assert events[..|events|] == events;
    }

    /** Lets the others run up to statement `n`. When the statement has made its step, the call is at `n + 1`. */
    method Reach(me: nat, schedule: nat -> Moment, n: nat, ghost begun: World) returns (io: Io)
      requires At(begun, me, schedule, n) && !Ended(pcs[me])
      modifies this
      ensures |pcs| == |callers| && pcs[me] == old(pcs[me]) && io == schedule(n).io
      ensures Reached(callers, begun, me, schedule, n + 1, Step(callers, State(), Event(me, io)))
    {
      StatementRuns(callers, begun, me, schedule, n);
      Interleave(me, schedule(n).others);
      io := schedule(n).io;
    }

    method Conclude(me: nat, o: Outcome) returns (outcome: Option<Outcome>)
      requires me < |pcs|
      modifies this`pcs
      ensures outcome == Some(o) && pcs == old(pcs)[me := Finished(o)]
    {
      pcs := pcs[me := Finished(o)];
      return Some(o);
    }

    /** How a promotion has ended with a statement of this I/O: `None` when its process died there. */
    predicate Concluded(me: nat, outcome: Option<Outcome>, io: Io)
      requires me < |pcs|
      reads this
    {
      match outcome
      case None => io == Dies && (pcs[me].Dead? || pcs[me].Stuck?)
      case Some(o) =>
        io != Dies && if o == Refused("alias_rollback_failed") then pcs[me].Stuck? else pcs[me] == Finished(o)
    }

    /** The comparisons of `promote_release`: the manifest, then the alias. */
    method CompareManifestAndAlias(me: nat, schedule: nat -> Moment, ghost begun: World)
        returns (matched: bool, outcome: Option<Outcome>, ghost n: nat)
      requires At(begun, me, schedule, 0) && callers[me].Promoter? && pcs[me].Idle?
      modifies this
      ensures At(begun, me, schedule, n)
      ensures if matched then n == 2 && pcs[me].AliasMatched? else n > 0 && Concluded(me, outcome, schedule(n - 1).io)
    {
      var p := callers[me];
      n := 1;
      var io := Reach(me, schedule, 0, begun);
      if io == Dies { pcs := pcs[me := Dead]; return false, None, n; }
      if !p.cleared { outcome := Conclude(me, Refused("release_gate_failed")); return false, outcome, n; }
      var loaded := if io == Works then current else None;
      if loaded.None? || loaded.value.collection != p.expected {
        outcome := Conclude(me, Refused("current_manifest_invalid"));
        return false, outcome, n;
      }
      pcs := pcs[me := ManifestMatched];
      n := 2;
      io := Reach(me, schedule, 1, begun);
      if io == Dies { pcs := pcs[me := Dead]; return false, None, n; }
      if io != Works || alias != Some(p.expected) {
        outcome := Conclude(me, Refused("alias_compare_failed"));
        return false, outcome, n;
      }
      pcs := pcs[me := AliasMatched];
      return true, None, n;
    }

    /** The pending manifest, created exclusively. */
    method WritePending(me: nat, schedule: nat -> Moment, ghost begun: World)
        returns (written: bool, outcome: Option<Outcome>)
      requires At(begun, me, schedule, 2) && callers[me].Promoter? && pcs[me].AliasMatched?
      modifies this
      ensures At(begun, me, schedule, 3)
      ensures if written then pcs[me].PendingWritten? else Concluded(me, outcome, schedule(2).io)
    {
      var p := callers[me];
      var io := Reach(me, schedule, 2, begun);
      if io == Dies { pcs := pcs[me := Dead]; return false, None; }
      if p.releaseId in pending || io == Fails {
        outcome := Conclude(me, Refused("pending_manifest_failed"));
        return false, outcome;
      }
      pending := pending + {p.releaseId};
      if io == FailsLate {
        outcome := Conclude(me, Refused("pending_manifest_failed"));
        return false, outcome;
      }
      pcs := pcs[me := PendingWritten];
      return true, None;
    }

    /** The swap of the alias, or the removal of the pending manifest. */
    method SwapAlias(me: nat, schedule: nat -> Moment, ghost begun: World)
        returns (swapped: bool, outcome: Option<Outcome>)
      requires At(begun, me, schedule, 3) && callers[me].Promoter? && pcs[me].PendingWritten?
      modifies this
      ensures At(begun, me, schedule, 4)
      ensures if swapped then pcs[me].Swapped? else Concluded(me, outcome, schedule(3).io)
    {
      var p := callers[me];
      var io := Reach(me, schedule, 3, begun);
      if io == Dies { pcs := pcs[me := Dead]; return false, None; }
      swapped := io == Works && alias == Some(p.expected);
      if !swapped {
        if io != FailsLate { pending := pending - {p.releaseId}; }
        outcome := Conclude(me, Refused("alias_update_failed"));
        return false, outcome;
      }
      alias := Some(p.candidate);
      pcs := pcs[me := Swapped];
      outcome := None;
    }

    /** The replacement of `current.json`. */
    method ReplaceManifest(me: nat, schedule: nat -> Moment, ghost begun: World)
        returns (failed: bool, outcome: Option<Outcome>)
      requires At(begun, me, schedule, 4) && callers[me].Promoter? && pcs[me].Swapped?
      modifies this
      ensures At(begun, me, schedule, 5)
      ensures if failed then pcs[me].ReplaceFailed? else Concluded(me, outcome, schedule(4).io)
    {
      var p := callers[me];
      var io := Reach(me, schedule, 4, begun);
      if io == Dies { pcs := pcs[me := Stuck]; return false, None; }
      if io != Works { pcs := pcs[me := ReplaceFailed]; return true, None; }
      current := Some(Current(p.releaseId, p.candidate));
      pending := pending - {p.releaseId};
      served := served + [Current(p.releaseId, p.candidate)];
      outcome := Conclude(me, Promoted);
      failed := false;
    }

    /** The rollback of the alias after a failed replacement. */
    method RollBack(me: nat, schedule: nat -> Moment, ghost begun: World) returns (outcome: Option<Outcome>)
      requires At(begun, me, schedule, 5) && callers[me].Promoter? && pcs[me].ReplaceFailed?
      modifies this
      ensures At(begun, me, schedule, 6) && Concluded(me, outcome, schedule(5).io)
    {
      var p := callers[me];
      var io := Reach(me, schedule, 5, begun);
      if io == Dies { pcs := pcs[me := Stuck]; return None; }
      var rolledBack := io == Works && alias == Some(p.candidate);
      if !rolledBack {
        pcs := pcs[me := Stuck];
        return Some(Refused("alias_rollback_failed"));
      }
      alias := Some(p.expected);
      outcome := Conclude(me, Refused("manifest_replace_failed"));
    }

    /** The swap, the replacement of `current.json`, and the rollback when that fails. */
    method SwapAndReplace(me: nat, schedule: nat -> Moment, ghost begun: World)
        returns (outcome: Option<Outcome>, ghost n: nat)
      requires At(begun, me, schedule, 3) && callers[me].Promoter? && pcs[me].PendingWritten?
      modifies this
      ensures At(begun, me, schedule, n) && n > 0 && Concluded(me, outcome, schedule(n - 1).io)
    {
      var swapped;
      n := 4;
      swapped, outcome := SwapAlias(me, schedule, begun);
      if swapped {
        var failed;
        n := 5;
        failed, outcome := ReplaceManifest(me, schedule, begun);
        if failed {
          n := 6;
          outcome := RollBack(me, schedule, begun);
        }
      }
    }

    /** `promote_release`, statement by statement of its schedule to its end; `None` means that the process died. */
    method PromoteRelease(me: nat, schedule: nat -> Moment) returns (outcome: Option<Outcome>, ghost n: nat)
      requires |pcs| == |callers| && me < |callers| && callers[me].Promoter? && pcs[me].Idle?
               && ForeignSchedule(schedule, me)
      modifies this
      ensures |pcs| == |callers| && Ran(callers, old(State()), me, schedule, n, State())
      ensures n > 0 && Concluded(me, outcome, schedule(n - 1).io)
      ensures Undisturbed(schedule) && old(ReadyToPromote(callers, State(), me)) ==>
                outcome == Some(Promoted) && current == Some(Current(callers[me].releaseId, callers[me].candidate))
                && alias == Some(callers[me].candidate) && pending == old(pending)
      ensures Lone(schedule) ==>
                EndingOf(State(), me) == PromotionAlone(callers[me], old(State()), schedule)
      ensures OwnRelease(callers, me) && pcs[me].Finished? ==>
                (callers[me].releaseId in pending <==> callers[me].releaseId in old(pending) || LeftBy(n, schedule))
    {
      ghost var begun := State();
      var passed;
      passed, outcome, n := CompareManifestAndAlias(me, schedule, begun);
      if passed {
        n := 3;
        passed, outcome := WritePending(me, schedule, begun);
        if passed {
          outcome, n := SwapAndReplace(me, schedule, begun);
        }
      }
      PromotionEnds(Call(callers, begun, me, schedule, n, State()), callers[me]);
    }

    /** `reconcile_release_state`: the manifest first, then the alias. */
    method ReconcileReleaseState(me: nat, schedule: nat -> Moment) returns (ready: Option<Current>, ghost n: nat)
      requires |pcs| == |callers| && me < |callers| && callers[me].Reconciler? && pcs[me].Idle?
               && ForeignSchedule(schedule, me)
      modifies this
      ensures |pcs| == |callers| && Ran(callers, old(State()), me, schedule, n, State())
      ensures pcs[me] == Reconciled(ready) || (ready.None? && pcs[me].Dead?)
      ensures ready.Some? && Inv(callers, old(State())) ==>
                n > 0 && var instant := JustBefore(callers, old(State()), me, schedule, n - 1);
                instant.pcs[me] == ManifestSeen(ready.value)
                && instant.current == ready && instant.alias == Some(ready.value.collection)
      ensures Lone(schedule) ==>
                EndingOf(State(), me) == ReadinessAlone(old(State()), schedule(0).io, schedule(1).io)
    {
      ghost var begun := State();
      n := 1;
      var loaded := LoadManifest(me, schedule, begun);
      if loaded.None? {
        LoneAnswer(Call(callers, begun, me, schedule, n, State()));
        return None, n;
      }
      n := 2;
      ready := CompareAlias(me, schedule, begun, loaded.value);
      LoneAnswer(Call(callers, begun, me, schedule, n, State()));
      ReadyInstant(callers, begun, me, schedule, n, State(), ready);
    }

    /** The manifest read of a readiness check. */
    method LoadManifest(me: nat, schedule: nat -> Moment, ghost begun: World) returns (loaded: Option<Current>)
      requires At(begun, me, schedule, 0) && callers[me].Reconciler? && pcs[me].Idle?
      modifies this
      ensures At(begun, me, schedule, 1)
      ensures if loaded.Some? then pcs[me] == ManifestSeen(loaded.value)
              else pcs[me] == Reconciled(None) || pcs[me].Dead?
    {
      var io := Reach(me, schedule, 0, begun);
      if io == Dies { pcs := pcs[me := Dead]; return None; }
      loaded := if io == Works then current else None;
      pcs := pcs[me := if loaded.None? then Reconciled(None) else ManifestSeen(loaded.value)];
    }

    /** The alias read of a readiness check. */
    method CompareAlias(me: nat, schedule: nat -> Moment, ghost begun: World, loaded: Current)
        returns (ready: Option<Current>)
      requires At(begun, me, schedule, 1) && callers[me].Reconciler? && pcs[me] == ManifestSeen(loaded)
      modifies this
      ensures At(begun, me, schedule, 2)
      ensures pcs[me] == Reconciled(ready) || (ready.None? && pcs[me].Dead?)
      ensures ready.Some? ==> ready.value == loaded
    {
      var io := Reach(me, schedule, 1, begun);
      if io == Dies { pcs := pcs[me := Dead]; return None; }
      var target := if io == Works then alias else None;
      ready := if target == Some(loaded.collection) then Some(loaded) else None;
      pcs := pcs[me := Reconciled(ready)];
    }
  }
}
