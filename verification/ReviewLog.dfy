/** Review logs and eligibility (src/corpus/storage.py). */
module ReviewLog {
  // A replayed event log, the record it must agree with, and the case that carries its eligibility
  // into storage (src/corpus/models.py).

  import opened Strings
  import opened Wrappers

  // ----- reviewers -----

  /** The end of the run of digits that starts at `i`. */
  function DigitsEnd(s: string, i: nat): (k: nat)
    requires i <= |s|
    ensures i <= k <= |s| && AllDigits(s[i..k]) && (k < |s| ==> !IsDigit(s[k]))
    decreases |s| - i
  {
    if i < |s| && IsDigit(s[i]) then
      var k := DigitsEnd(s, i + 1);
      assert s[i..k] == [s[i]] + s[i + 1..k];
      k
    else i
  }

  /** The number in `uid:<digits>:...`. */
  function OsUid(actor: string): Option<nat> {
    if "uid:" <= actor then
      var k := DigitsEnd(actor, 4);
      if k > 4 && k < |actor| && actor[k] == ':' then Some(Value(actor[4..k])) else None
    else None
  }

  predicate SameReviewer(first: Option<string>, second: Option<string>) {
    if first.None? || second.None? then false
    else if first.value == second.value then true
    else OsUid(first.value).Some? && OsUid(first.value) == OsUid(second.value)
  }

  /** On named actors, being the same reviewer is an equivalence; nobody is the same as no one. */
  lemma SameReviewerEquivalence(a: string, b: string, c: string)
    ensures SameReviewer(Some(a), Some(a))
    ensures SameReviewer(Some(a), Some(b)) == SameReviewer(Some(b), Some(a))
    ensures SameReviewer(Some(a), Some(b)) && SameReviewer(Some(b), Some(c)) ==> SameReviewer(Some(a), Some(c))
    ensures !SameReviewer(None, Some(a)) && !SameReviewer(Some(a), None)
  {
  }

  /** Two spellings of one operating-system account are one reviewer. */
  lemma {:induction false} PaddedUidIsSame(n: nat, first: string, second: string)
    ensures SameReviewer(Some("uid:" + Decimal(n) + ":" + first), Some("uid:0" + Decimal(n) + ":" + second))
  {
    DecimalShape(n);
    ValueOfDecimal(n);
    UidReads(Decimal(n), first);
    var padded := "0" + Decimal(n);
    assert AllDigits(padded);
    UidReads(padded, second);
    PaddedValue(Decimal(n));
    assert "uid:0" + Decimal(n) + ":" + second == "uid:" + padded + ":" + second;
  }

  lemma {:induction false} UidReads(digits: string, rest: string)
    requires digits != "" && AllDigits(digits)
    ensures OsUid("uid:" + digits + ":" + rest) == Some(Value(digits))
  {
    var s := "uid:" + digits + ":" + rest;
    var k := DigitsEnd(s, 4);
    assert s[4..4 + |digits|] == digits && s[4 + |digits|] == ':';
    assert forall i :: 4 <= i < 4 + |digits| ==> s[i] == digits[i - 4];
    assert forall i :: 4 <= i < k ==> s[i] == s[4..k][i - 4];
    assert k == 4 + |digits|;
  }

  /** An operating-system actor: `uid:`, a number, a colon, and anything. */
  predicate IsOsActor(actor: string, digits: string, rest: string) {
    digits != "" && AllDigits(digits) && actor == "uid:" + digits + ":" + rest
  }

  /** The number without its leading zeros. */
  function Unpadded(digits: string): string {
    if digits != "" && digits[0] == '0' then Unpadded(digits[1..]) else digits
  }

  /** One person under one name, or one operating-system account under two. */
  ghost predicate OnePerson(a: string, b: string) {
    || a == b
    || exists d, e, x, y :: IsOsActor(a, d, x) && IsOsActor(b, e, y) && Unpadded(d) == Unpadded(e)
  }

  lemma {:induction false} UnpaddedValue(digits: string)
    requires AllDigits(digits)
    ensures AllDigits(Unpadded(digits)) && Value(Unpadded(digits)) == Value(digits)
    ensures Unpadded(digits) != "" ==> Unpadded(digits)[0] != '0'
  {
    if digits != "" && digits[0] == '0' {
      UnpaddedValue(digits[1..]);
      PaddedValue(digits[1..]);
      assert digits == "0" + digits[1..];
    }
  }

  /** Numbers are equal exactly when they differ in leading zeros only. */
  lemma {:induction false} EqualNumbers(d: string, e: string)
    requires AllDigits(d) && AllDigits(e)
    ensures Value(d) == Value(e) <==> Unpadded(d) == Unpadded(e)
  {
    UnpaddedValue(d);
    UnpaddedValue(e);
    if Value(d) == Value(e) {
      if Unpadded(d) != "" { ValuePositive(Unpadded(d)); }
      if Unpadded(e) != "" { ValuePositive(Unpadded(e)); }
      if Unpadded(d) != "" && Unpadded(e) != "" {
        DecimalOfValue(Unpadded(d));
        DecimalOfValue(Unpadded(e));
      }
    }
  }

  lemma UidOf(actor: string) returns (digits: string, rest: string)
    requires OsUid(actor).Some?
    ensures IsOsActor(actor, digits, rest) && OsUid(actor) == Some(Value(digits))
  {
    var k := DigitsEnd(actor, 4);
    digits, rest := actor[4..k], actor[k + 1..];
    assert actor == actor[..4] + digits + [actor[k]] + rest;
  }

  /** Two named actors are the same reviewer exactly when they are one person. */
  lemma SameReviewerExactly(a: string, b: string)
    ensures SameReviewer(Some(a), Some(b)) <==> OnePerson(a, b)
  {
    if a != b && SameReviewer(Some(a), Some(b)) {
      var d, x := UidOf(a);
      var e, y := UidOf(b);
      EqualNumbers(d, e);
    }
    if d, e, x, y :| IsOsActor(a, d, x) && IsOsActor(b, e, y) && Unpadded(d) == Unpadded(e) {
      UidReads(d, x);
      UidReads(e, y);
      EqualNumbers(d, e);
    }
  }

  // ----- log and record -----

  datatype Status = MachineExtracted | NeedsReview | SearchApproved | Approved | Rejected | OtherStatus(name: string)

  datatype Action = Enqueue | VerifyFields | ApproveSearch | ApproveAnswer | Reject | OtherAction(name: string)

  /** `wellFormed` stands for the shape checks of single fields: actor, reason, timestamp, digests. */
  datatype ReviewEvent = ReviewEvent(sequence: int, eventId: string, action: Action, actor: string,
                                     before: Status, after: Status, occurredAt: string,
                                     reviewedContent: string, wellFormed: bool)

  datatype ReviewRecord = ReviewRecord(content: string, status: Status, fieldsVerified: bool,
                                       criticalReviewer: Option<string>, searchReviewer: Option<string>,
                                       answerReviewer: Option<string>, searchEligible: bool, answerEligible: bool,
                                       contentVerified: bool, basisVerified: bool, privacyVerified: bool, version: int)

  predicate Allowed(before: Status, action: Action, after: Status) {
    match action
    case Enqueue => before.MachineExtracted? && after.NeedsReview?
    case VerifyFields => before.NeedsReview? && after.NeedsReview?
    case ApproveSearch => before.NeedsReview? && after.SearchApproved?
    case ApproveAnswer => before.SearchApproved? && after.Approved?
    case Reject => (before.MachineExtracted? || before.NeedsReview? || before.SearchApproved?) && after.Rejected?
    case OtherAction(_) => false
  }

  /** Event `i` is numbered, fresh, about the reviewed content, and no older than the one before. */
  predicate EventInOrder(events: seq<ReviewEvent>, i: nat, promotion: string)
    requires i < |events|
  {
    && events[i].sequence == i + 1 && events[i].wellFormed && events[i].reviewedContent == promotion
    && (forall j :: 0 <= j < i ==> events[j].eventId != events[i].eventId)
    && (i > 0 ==> !Less(events[i].occurredAt, events[i - 1].occurredAt))
  }

  predicate EventsInOrder(events: seq<ReviewEvent>, promotion: string) {
    forall i :: 0 <= i < |events| ==> EventInOrder(events, i, promotion)
  }

  /** The state the log leads to, and who took each action; `None` when a step is not allowed. */
  function Replay(events: seq<ReviewEvent>): (r: Option<(Status, map<Action, string>)>)
    ensures r.Some? ==> forall a :: a in r.value.1 <==> exists i :: 0 <= i < |events| && events[i].action == a
  {
    if events == [] then Some((MachineExtracted, map[]))
    else
      var prior := Replay(events[..|events| - 1]);
      var e := events[|events| - 1];
      if prior.None? || e.before != prior.value.0 || !Allowed(e.before, e.action, e.after) || e.action in prior.value.1
        then None
      else Some((e.after, prior.value.1[e.action := e.actor]))
  }

  function ActorOf(actors: map<Action, string>, action: Action): Option<string> {
    if action in actors then Some(actors[action]) else None
  }

  /** What the record must say about the outcome of the log. */
  predicate RecordMatches(record: ReviewRecord, state: Status, actors: map<Action, string>) {
    var critical, search, answer := ActorOf(actors, VerifyFields), ActorOf(actors, ApproveSearch),
      ActorOf(actors, ApproveAnswer);
    var flags := [record.contentVerified, record.basisVerified, record.privacyVerified];
    && state == record.status && record.fieldsVerified == critical.Some?
    && record.criticalReviewer == critical && record.searchReviewer == search && record.answerReviewer == answer
    && (record.status.SearchApproved? ==>
      record.searchEligible && !record.answerEligible && flags == [false, false, false])
    && (record.status.Approved? ==> record.searchEligible && record.answerEligible && flags == [true, true, true]
                                    && answer.Some? && !SameReviewer(answer, critical) && !SameReviewer(answer, search))
    && (record.status.Rejected? ==> !record.searchEligible && !record.answerEligible && flags == [false, false, false])
  }

  predicate LogAccepted(promotion: string, record: ReviewRecord, events: seq<ReviewEvent>) {
    && 1 <= |events| <= 10000 && record.content == promotion && record.version == |events|
    && (record.status.SearchApproved? || record.status.Approved? || record.status.Rejected?)
    && EventsInOrder(events, promotion)
    && Replay(events).Some?
    && (events[0].action.Enqueue? || events[0].action.Reject?)
    && RecordMatches(record, Replay(events).value.0, Replay(events).value.1)
  }

  // ----- the checker -----

  method CheckEvents(events: seq<ReviewEvent>, promotion: string) returns (ok: bool)
    ensures ok <==> EventsInOrder(events, promotion)
  {
    var seen: set<string> := {};
    var prior: Option<string> := None;
    for i := 0 to |events|
      invariant forall j :: 0 <= j < i ==> EventInOrder(events, j, promotion)
      invariant forall id :: id in seen <==> exists j :: 0 <= j < i && events[j].eventId == id
      invariant prior == if i == 0 then None else Some(events[i - 1].occurredAt)
    {
      var e := events[i];
      if e.sequence != i + 1 || e.eventId in seen || !e.wellFormed
         || (prior.Some? && Less(e.occurredAt, prior.value)) || e.reviewedContent != promotion
      {
        assert !EventInOrder(events, i, promotion);
        return false;
      }
      seen := seen + {e.eventId};
      prior := Some(e.occurredAt);
    }
    return true;
  }

  method ReplayEvents(events: seq<ReviewEvent>) returns (r: Option<(Status, map<Action, string>)>)
    ensures r == Replay(events)
  {
    var state := MachineExtracted;
    var actors: map<Action, string> := map[];
    for i := 0 to |events|
      invariant Replay(events[..i]) == Some((state, actors))
    {
      var e := events[i];
      assert events[..i + 1][..i] == events[..i];
      if e.before != state || !Allowed(state, e.action, e.after) || e.action in actors {
        ReplayStaysRefused(events, i + 1);
        return None;
      }
      actors := actors[e.action := e.actor];
      state := e.after;
    }
    assert events[..|events|] == events;
    return Some((state, actors));
  }

  lemma {:induction false} ReplayStaysRefused(events: seq<ReviewEvent>, k: nat)
    requires k <= |events| && Replay(events[..k]).None?
    ensures Replay(events).None?
  {
    if k < |events| {
      assert events[..|events| - 1][..k] == events[..k];
      ReplayStaysRefused(events[..|events| - 1], k);
    } else {
      assert events[..k] == events;
    }
  }

  /** `_parse_review_case`, without the corrections. */
  method ParseReviewCase(promotion: string, record: ReviewRecord, events: seq<ReviewEvent>) returns (ok: bool)
    ensures ok <==> LogAccepted(promotion, record, events)
    ensures ok <==> AcceptableLog(promotion, record, events)
  {
    AcceptedExactly(promotion, record, events);
    if !(1 <= |events| <= 10000) || record.content != promotion || record.version != |events|
       || !(record.status.SearchApproved? || record.status.Approved? || record.status.Rejected?)
    {
      return false;
    }
    var inOrder := CheckEvents(events, promotion);
    if !inOrder { return false; }
    var outcome := ReplayEvents(events);
    if outcome.None? || outcome.value.0 != record.status || !(events[0].action.Enqueue? || events[0].action.Reject?) {
      return false;
    }
    return RecordMatches(record, outcome.value.0, outcome.value.1);
  }

  // ----- which logs there are -----

  function Actions(events: seq<ReviewEvent>): seq<Action> {
    seq(|events|, i requires 0 <= i < |events| => events[i].action)
  }

  /** The action sequences that end in each state. */
  predicate LeadsTo(actions: seq<Action>, state: Status) {
    match state
    case MachineExtracted => actions == []
    case NeedsReview => actions == [Enqueue] || actions == [Enqueue, VerifyFields]
    case SearchApproved => actions == [Enqueue, ApproveSearch] || actions == [Enqueue, VerifyFields, ApproveSearch]
    case Approved => actions == [Enqueue, ApproveSearch, ApproveAnswer]
      || actions == [Enqueue, VerifyFields, ApproveSearch, ApproveAnswer]
    case Rejected =>
      || actions == [Reject] || actions == [Enqueue, Reject] || actions == [Enqueue, VerifyFields, Reject]
      || actions == [Enqueue, ApproveSearch, Reject] || actions == [Enqueue, VerifyFields, ApproveSearch, Reject]
    case OtherStatus(_) => false
  }

  lemma LeadsToStep(actions: seq<Action>, before: Status, action: Action, after: Status)
    requires LeadsTo(actions, before) && Allowed(before, action, after) && action !in actions
    ensures LeadsTo(actions + [action], after)
  {
  }

  /** A replayable log, of whatever length, is one of twelve, and never longer than four events. */
  lemma {:induction false} ReplayedLogs(events: seq<ReviewEvent>)
    requires Replay(events).Some?
    ensures LeadsTo(Actions(events), Replay(events).value.0) && |events| <= 4
  {
    if events != [] {
      var front := events[..|events| - 1];
      ReplayedLogs(front);
      var e := events[|events| - 1];
      assert Actions(events) == Actions(front) + [e.action];
      assert e.action !in Actions(front);
      LeadsToStep(Actions(front), Replay(front).value.0, e.action, e.after);
      assert |Actions(events)| == |events|;
    }
  }

  predicate StateFollows(events: seq<ReviewEvent>, i: nat)
    requires i < |events|
  {
    && events[i].before == (if i == 0 then MachineExtracted else events[i - 1].after)
    && Allowed(events[i].before, events[i].action, events[i].after)
  }

  predicate TakenBefore(events: seq<ReviewEvent>, i: nat)
    requires i < |events|
  {
    exists j :: 0 <= j < i && events[j].action == events[i].action
  }

  /** A log replays exactly when every event starts where the one before ended, every step is
      allowed, and no action is taken twice; it ends where its last event says. */
  lemma {:induction false} ReplaysExactly(events: seq<ReviewEvent>)
    ensures Replay(events).Some? <==> forall i :: 0 <= i < |events| ==>
              StateFollows(events, i) && !TakenBefore(events, i)
    ensures Replay(events).Some? && events != [] ==> Replay(events).value.0 == events[|events| - 1].after
  {
    if events != [] {
      var n := |events|;
      var front := events[..n - 1];
      ReplaysExactly(front);
      forall i | 0 <= i < n - 1
        ensures StateFollows(events, i) == StateFollows(front, i) && TakenBefore(events, i) == TakenBefore(front, i)
      {
        SameInFront(events, i);
      }
      if Replay(front).Some? { LastTaken(events); }
    }
  }

  lemma SameInFront(events: seq<ReviewEvent>, i: nat)
    requires i < |events| - 1
    ensures var front := events[..|events| - 1];
            StateFollows(events, i) == StateFollows(front, i) && TakenBefore(events, i) == TakenBefore(front, i)
  {
    assert forall j :: 0 <= j < i ==> events[j] == events[..|events| - 1][j];
  }

  lemma LastTaken(events: seq<ReviewEvent>)
    requires events != [] && Replay(events[..|events| - 1]).Some?
    ensures events[|events| - 1].action in Replay(events[..|events| - 1]).value.1 <==> TakenBefore(events, |events| - 1)
  {
    var front := events[..|events| - 1];
    assert forall j :: 0 <= j < |front| ==> events[j] == front[j];
  }

  // ----- which logs are accepted -----

  /** Numbered from one, about the reviewed content, no event twice, and never back in time. */
  predicate OrderedLog(events: seq<ReviewEvent>, promotion: string) {
    && (forall i :: 0 <= i < |events| ==>
          events[i].sequence == i + 1 && events[i].wellFormed && events[i].reviewedContent == promotion)
    && forall i, j :: 0 <= i < j < |events| ==>
         events[i].eventId != events[j].eventId && !Less(events[j].occurredAt, events[i].occurredAt)
  }

  /** An event starts where the one before ended, and ends where its action leads. */
  predicate Continues(events: seq<ReviewEvent>, i: nat)
    requires i < |events|
  {
    && events[i].before == (if i == 0 then MachineExtracted else events[i - 1].after)
    && match events[i].action
       case Enqueue => events[i].after.NeedsReview?
       case VerifyFields => events[i].after.NeedsReview?
       case ApproveSearch => events[i].after.SearchApproved?
       case ApproveAnswer => events[i].after.Approved?
       case Reject => events[i].after.Rejected?
       case OtherAction(_) => false
  }

  predicate LinkedLog(events: seq<ReviewEvent>) {
    forall i :: 0 <= i < |events| ==> Continues(events, i)
  }

  /** The nine logs that end in a decision. */
  predicate DecidedActions(actions: seq<Action>) {
    || actions == [Reject] || actions == [Enqueue, Reject] || actions == [Enqueue, VerifyFields, Reject]
    || actions == [Enqueue, ApproveSearch] || actions == [Enqueue, VerifyFields, ApproveSearch]
    || actions == [Enqueue, ApproveSearch, Reject] || actions == [Enqueue, VerifyFields, ApproveSearch, Reject]
    || actions == [Enqueue, ApproveSearch, ApproveAnswer]
    || actions == [Enqueue, VerifyFields, ApproveSearch, ApproveAnswer]
  }

  /** The record names whoever took the action in the log, and nobody when nobody did. */
  predicate NamesActor(reviewer: Option<string>, events: seq<ReviewEvent>, action: Action) {
    match reviewer
    case None => !HasAction(events, action)
    case Some(actor) => exists i :: 0 <= i < |events| && events[i].action == action && events[i].actor == actor
  }

  /** The record that a log dictates. */
  predicate RecordOfLog(record: ReviewRecord, promotion: string, events: seq<ReviewEvent>)
    requires events != []
  {
    && record.content == promotion && record.version == |events| && record.status == events[|events| - 1].after
    && NamesActor(record.criticalReviewer, events, VerifyFields)
    && NamesActor(record.searchReviewer, events, ApproveSearch)
    && NamesActor(record.answerReviewer, events, ApproveAnswer)
    && (record.fieldsVerified <==> HasAction(events, VerifyFields))
    && (record.searchEligible <==> !HasAction(events, Reject))
    && (record.answerEligible <==> HasAction(events, ApproveAnswer))
    && (record.contentVerified <==> HasAction(events, ApproveAnswer))
    && (record.basisVerified <==> HasAction(events, ApproveAnswer))
    && (record.privacyVerified <==> HasAction(events, ApproveAnswer))
  }

  /** Whoever approved the answer is another person than whoever verified the fields or approved the search. */
  ghost predicate IndependentAnswer(events: seq<ReviewEvent>) {
    forall i, j :: 0 <= i < |events| && 0 <= j < |events| && events[i].action.ApproveAnswer?
                   && (events[j].action.VerifyFields? || events[j].action.ApproveSearch?) ==>
      !OnePerson(events[i].actor, events[j].actor)
  }

  lemma {:induction false} NeverBack(events: seq<ReviewEvent>, promotion: string, i: nat, j: nat)
    requires EventsInOrder(events, promotion) && i < j < |events|
    ensures !Less(events[j].occurredAt, events[i].occurredAt)
  {
    assert EventInOrder(events, j, promotion);
    if i < j - 1 {
      NeverBack(events, promotion, i, j - 1);
      NotLessTransitive(events[i].occurredAt, events[j - 1].occurredAt, events[j].occurredAt);
    }
  }

  lemma {:induction false} NotLessTransitive(a: string, b: string, c: string)
    requires !Less(b, a) && !Less(c, b)
    ensures !Less(c, a)
  {
    LessTotal(a, b);
    LessTotal(b, c);
    if Less(c, a) {
      if a != b { LessTransitive(c, a, b); }
    }
  }

  lemma OrderedExactly(events: seq<ReviewEvent>, promotion: string)
    ensures EventsInOrder(events, promotion) <==> OrderedLog(events, promotion)
  {
    if EventsInOrder(events, promotion) {
      forall i | 0 <= i < |events|
        ensures events[i].sequence == i + 1 && events[i].wellFormed && events[i].reviewedContent == promotion
      {
        assert EventInOrder(events, i, promotion);
      }
      forall i, j | 0 <= i < j < |events|
        ensures events[i].eventId != events[j].eventId && !Less(events[j].occurredAt, events[i].occurredAt)
      {
        assert EventInOrder(events, j, promotion);
        NeverBack(events, promotion, i, j);
      }
    }
    if OrderedLog(events, promotion) {
      forall i | 0 <= i < |events| ensures EventInOrder(events, i, promotion) {
        assert i > 0 ==> !Less(events[i].occurredAt, events[i - 1].occurredAt);
      }
    }
  }

  lemma ActionsAt(events: seq<ReviewEvent>, actions: seq<Action>)
    requires Actions(events) == actions
    ensures |events| == |actions| && forall i :: 0 <= i < |events| ==> events[i].action == actions[i]
  {
  }

  /** A linked log of one of the nine sequences replays, to the state of its last event. */
  lemma {:induction false} LinkedReplays(events: seq<ReviewEvent>)
    requires LinkedLog(events) && DecidedActions(Actions(events))
    ensures Replay(events).Some? && Replay(events).value.0 == events[|events| - 1].after
  {
    ActionsAt(events, Actions(events));
    forall i | 0 <= i < |events| ensures StateFollows(events, i) && !TakenBefore(events, i) {
      LinkedEvent(events, i);
    }
    ReplaysExactly(events);
  }

  lemma LinkedEvent(events: seq<ReviewEvent>, i: nat)
    requires LinkedLog(events) && DecidedActions(Actions(events)) && i < |events|
    ensures StateFollows(events, i) && !TakenBefore(events, i)
  {
    ActionsAt(events, Actions(events));
    assert forall j :: 0 <= j < |events| ==> Continues(events, j) && events[j].action == Actions(events)[j];
  }

  lemma FollowsLinked(events: seq<ReviewEvent>)
    requires forall i :: 0 <= i < |events| ==> StateFollows(events, i) && !TakenBefore(events, i)
    ensures LinkedLog(events)
  {
    forall i | 0 <= i < |events| ensures Continues(events, i) { assert StateFollows(events, i); }
  }

  /** A log that replays to a decision is linked and one of the nine. */
  lemma {:induction false} ReplayedIsLinked(events: seq<ReviewEvent>)
    requires Replay(events).Some? && events != []
    requires var s := Replay(events).value.0; s.SearchApproved? || s.Approved? || s.Rejected?
    ensures LinkedLog(events) && DecidedActions(Actions(events))
    ensures Replay(events).value.0 == events[|events| - 1].after
  {
    ReplayedLogs(events);
    ReplaysExactly(events);
    FollowsLinked(events);
  }

  lemma {:induction false} NamesExactly(reviewer: Option<string>, events: seq<ReviewEvent>, action: Action)
    requires Replay(events).Some?
    ensures NamesActor(reviewer, events, action) <==> reviewer == ActorOf(Replay(events).value.1, action)
  {
    forall i | 0 <= i < |events| && events[i].action == action
      ensures ActorOf(Replay(events).value.1, action) == Some(events[i].actor)
    {
      ReplayedActor(events, i);
    }
  }

  /** The answer is independent exactly when the checker finds no sameness. */
  lemma {:induction false} IndependentExactly(events: seq<ReviewEvent>)
    requires Replay(events).Some?
    ensures var actors := Replay(events).value.1; var answer := ActorOf(actors, ApproveAnswer);
            IndependentAnswer(events) <==>
              !SameReviewer(answer, ActorOf(actors, VerifyFields))
              && !SameReviewer(answer, ActorOf(actors, ApproveSearch))
  {
    var actors := Replay(events).value.1;
    var answer := ActorOf(actors, ApproveAnswer);
    forall i | 0 <= i < |events| ensures ActorOf(actors, events[i].action) == Some(events[i].actor) {
      ReplayedActor(events, i);
    }
    forall i, j | 0 <= i < |events| && 0 <= j < |events|
      ensures SameReviewer(Some(events[i].actor), Some(events[j].actor))
              <==> OnePerson(events[i].actor, events[j].actor)
    {
      SameReviewerExactly(events[i].actor, events[j].actor);
    }
  }

  /** The last event of a decided log says what actions there are. */
  lemma DecisionExactly(events: seq<ReviewEvent>)
    requires LinkedLog(events) && DecidedActions(Actions(events))
    ensures events != [] && (events[0].action.Enqueue? || events[0].action.Reject?) && |events| <= 4
    ensures var last := events[|events| - 1].after;
            && (last.SearchApproved? || last.Approved? || last.Rejected?)
            && (last.Approved? <==> HasAction(events, ApproveAnswer))
            && (last.Rejected? <==> HasAction(events, Reject))
  {
    ActionsAt(events, Actions(events));
    assert Continues(events, |events| - 1);
    ActionsHave(events, ApproveAnswer);
    ActionsHave(events, Reject);
  }

  lemma {:induction false} RecordExactly(promotion: string, record: ReviewRecord, events: seq<ReviewEvent>)
    requires LinkedLog(events) && DecidedActions(Actions(events)) && Replay(events).Some? && events != []
    requires Replay(events).value.0 == events[|events| - 1].after
    ensures var state, actors := Replay(events).value.0, Replay(events).value.1;
            record.content == promotion && record.version == |events| && RecordMatches(record, state, actors)
            <==> RecordOfLog(record, promotion, events) && IndependentAnswer(events)
  {
    DecisionExactly(events);
    NamesExactly(record.criticalReviewer, events, VerifyFields);
    NamesExactly(record.searchReviewer, events, ApproveSearch);
    NamesExactly(record.answerReviewer, events, ApproveAnswer);
    IndependentExactly(events);
    TakenExactly(events);
  }

  lemma {:induction false} TakenExactly(events: seq<ReviewEvent>)
    requires Replay(events).Some?
    ensures forall a :: HasAction(events, a) <==> ActorOf(Replay(events).value.1, a).Some?
  {
  }

  /** The checker takes a log and a record exactly when the log is ordered, linked and one of the nine, the
      record is the one that the log dictates, and the answer approval is independent. */
  lemma AcceptedExactly(promotion: string, record: ReviewRecord, events: seq<ReviewEvent>)
    ensures LogAccepted(promotion, record, events) <==> AcceptableLog(promotion, record, events)
  {
    OrderedExactly(events, promotion);
    if events != [] {
      if LogAccepted(promotion, record, events) { ReplayedIsLinked(events); }
      if LinkedLog(events) && DecidedActions(Actions(events)) {
        LinkedReplays(events);
        DecisionExactly(events);
        RecordExactly(promotion, record, events);
      }
    }
  }

  ghost predicate AcceptableLog(promotion: string, record: ReviewRecord, events: seq<ReviewEvent>) {
    && OrderedLog(events, promotion) && LinkedLog(events) && DecidedActions(Actions(events))
    && RecordOfLog(record, promotion, events) && IndependentAnswer(events)
  }

  // ----- the stored case -----

  datatype CaseType = Qa | Audit | LawIndex | Credits
  datatype PiiClass = NoPii | AnonymizedCase | QuasiIdentifier | PublicCredit | Restricted

  datatype Case = Case(caseType: CaseType, piiClass: PiiClass, status: Status, fieldsVerified: bool,
                       searchEligible: bool, answerEligible: bool)

  /** `Case.eligibility_matches_review_and_privacy`. */
  predicate CaseValid(c: Case) {
    var actual := (c.searchEligible, c.answerEligible);
    && (if c.caseType.Credits? then actual == (false, false)
        else if c.piiClass.PublicCredit? || c.piiClass.Restricted? then actual == (false, false)
        else if c.status.MachineExtracted? || c.status.NeedsReview? || c.status.Rejected? then actual == (false, false)
        else if c.status.SearchApproved? then actual == (true, false)
        else c.searchEligible)
    && (c.answerEligible ==> c.searchEligible)
  }

  /** The candidate with the four fields that the decision writes into it. */
  function Decided(candidate: Case, record: ReviewRecord): Case {
    candidate.(status := record.status, fieldsVerified := record.fieldsVerified,
               searchEligible := record.searchEligible, answerEligible := record.answerEligible)
  }

  /** A case is stored only as its candidate with the accepted record written into it. */
  predicate Storable(candidate: Case, promotion: string, record: ReviewRecord, events: seq<ReviewEvent>) {
    LogAccepted(promotion, record, events) && CaseValid(Decided(candidate, record))
  }

  predicate HasAction(events: seq<ReviewEvent>, action: Action) {
    exists i :: 0 <= i < |events| && events[i].action == action
  }

  lemma {:induction false} ReplayedActor(events: seq<ReviewEvent>, i: nat)
    requires Replay(events).Some? && i < |events|
    ensures ActorOf(Replay(events).value.1, events[i].action) == Some(events[i].actor)
  {
    if i < |events| - 1 {
      ReplayedActor(events[..|events| - 1], i);
      assert events[..|events| - 1][i].action == events[i].action;
    }
  }

  /** Stored eligibility is exactly what the log says, and is never given to credits, to public
      credit, or to restricted cases. */
  lemma EligibilityRestsOnLog(candidate: Case, promotion: string, record: ReviewRecord, events: seq<ReviewEvent>)
    requires Storable(candidate, promotion, record, events)
    ensures var c := Decided(candidate, record);
            && (c.searchEligible <==> HasAction(events, ApproveSearch) && !HasAction(events, Reject))
            && (c.answerEligible <==> HasAction(events, ApproveAnswer))
            && (c.answerEligible ==> c.searchEligible)
            && (c.searchEligible ==> !c.caseType.Credits? && !c.piiClass.PublicCredit? && !c.piiClass.Restricted?)
  {
    ReplayedLogs(events);
    forall a: Action ensures HasAction(events, a) <==> a in Actions(events) { ActionsHave(events, a); }
  }

  lemma ActionsHave(events: seq<ReviewEvent>, a: Action)
    ensures HasAction(events, a) <==> a in Actions(events)
  {
    assert forall i :: 0 <= i < |events| ==> Actions(events)[i] == events[i].action;
  }

  /** An accepted decision can be stored exactly when it is a rejection or its case is neither credits nor
      public credit nor restricted. */
  lemma StorableExactly(candidate: Case, promotion: string, record: ReviewRecord, events: seq<ReviewEvent>)
    requires AcceptableLog(promotion, record, events)
    ensures Storable(candidate, promotion, record, events)
            <==> HasAction(events, Reject)
                 || !(candidate.caseType.Credits? || candidate.piiClass.PublicCredit?
                      || candidate.piiClass.Restricted?)
  {
    AcceptedExactly(promotion, record, events);
    DecisionExactly(events);
  }

  /** The answer approval is independent: whoever made it is not the same reviewer as anyone who
      verified fields or approved search in the same log. */
  lemma AnswerReviewerIndependent(candidate: Case, promotion: string, record: ReviewRecord, events: seq<ReviewEvent>,
                                  i: nat, j: nat)
    requires Storable(candidate, promotion, record, events) && Decided(candidate, record).answerEligible
    requires i < |events| && events[i].action.ApproveAnswer?
    requires j < |events| && (events[j].action.VerifyFields? || events[j].action.ApproveSearch?)
    ensures !SameReviewer(Some(events[i].actor), Some(events[j].actor))
  {
    ReplayedLogs(events);
    ReplayedActor(events, i);
    ReplayedActor(events, j);
  }
}
