/** The lifecycle of one assertion: its revocation mark and its log of transitions. */
module LifecycleLedger {
  import opened Prelude
  import opened StableSort
  import opened Tables

  type AssertionId = nat
  type EventId = nat
  type UserId = nat
  type Time = int

  datatype State = Active | Suspended | Revoked | Expired

  datatype ReasonCode =
    | AdministrativeHold | PolicyViolation | AppealPending | AppealResolved | CredentialExpired | IssuerRequested | Other

  datatype Source = Manual | Automation

  datatype Event = Event(
    id: EventId, assertionId: AssertionId, from: State, to: State, reasonCode: ReasonCode, reason: Option<nat>,
    source: Source, actor: Option<UserId>, transitionedAt: Time, createdAt: Time)

  /** The events are in order of insertion; the order of the timestamps is the callers' business. */
  datatype Ledger = Ledger(revokedAt: Option<Time>, events: seq<Event>)

  predicate AllowedTransition(from: State, to: State) {
    match from
    case Active => to.Suspended? || to.Revoked? || to.Expired?
    case Suspended => to.Active? || to.Revoked? || to.Expired?
    case Expired => to.Active? || to.Revoked?
    case Revoked => false
  }

  /** Every change of state is allowed except out of revoked and from expired to suspended. */
  lemma AllowedIff(from: State, to: State)
    ensures AllowedTransition(from, to) <==> from != to && !from.Revoked? && !(from.Expired? && to.Suspended?)
  {
  }

  // Which event counts.

  /** `ORDER BY transitioned_at DESC, created_at DESC, id DESC` */
  predicate NotBefore(a: Event, b: Event) {
    || a.transitionedAt > b.transitionedAt
    || (a.transitionedAt == b.transitionedAt &&
        (a.createdAt > b.createdAt || (a.createdAt == b.createdAt && a.id >= b.id)))
  }

  function LatestFirst(): (Event, Event) -> bool {
    (a: Event, b: Event) => NotBefore(a, b)
  }

  function Latest(events: seq<Event>): (r: Option<Event>)
    ensures r.None? <==> events == []
    ensures r.Some? ==> r.value in events
  {
    var ordered := OrderBy(events, LatestFirst());
    if ordered == [] then None else assert ordered[0] in ordered; Some(ordered[0])
  }

  ghost predicate DistinctIds(events: seq<Event>) {
    forall i, j :: 0 <= i < j < |events| ==> events[i].id != events[j].id
  }

  lemma LatestIsNotBefore(events: seq<Event>, e: Event)
    requires e in events
    ensures NotBefore(Latest(events).value, e)
  {
    var ordered := OrderBy(events, LatestFirst());
    SortSorts(events, LatestFirst());
    var k :| 0 <= k < |ordered| && ordered[k] == e;
    assert k > 0 ==> LatestFirst()(ordered[0], ordered[k]);
  }

  /** A new event becomes the latest iff it does not sort behind the one before. */
  lemma LatestAfterInsert(events: seq<Event>, e: Event)
    requires DistinctIds(events) && forall x :: x in events ==> x.id != e.id
    ensures Latest(events + [e]) ==
            if events == [] || NotBefore(e, Latest(events).value) then Some(e) else Latest(events)
    ensures Latest([e]) == Some(e)
  {
    assert forall x :: x in events + [e] <==> x in events || x == e;
    var m := Latest(events + [e]).value;
    LatestIsNotBefore(events + [e], e);
    if events != [] {
      var l := Latest(events).value;
      LatestIsNotBefore(events + [e], l);
      if m != e {
        LatestIsNotBefore(events, m);
        SameRank(events, l, m);
      }
    }
    assert Latest([e]).value in [e];
  }

  lemma SameRank(events: seq<Event>, a: Event, b: Event)
    requires a in events && b in events && NotBefore(a, b) && NotBefore(b, a)
    ensures DistinctIds(events) ==> a == b
  {
  }

  // The projections: from the record, from a summary row, and from a reporting row.

  datatype ResolutionSource = DefaultActive | LifecycleEvent | AssertionRevocation

  datatype Reason = RevokedByIssuer | Given(reason: nat)

  datatype Resolution = Resolution(
    state: State, source: ResolutionSource, reasonCode: Option<ReasonCode>, reason: Option<Reason>,
    transitionedAt: Option<Time>)

  function GivenReason(reason: Option<nat>): Option<Reason> {
    match reason
    case None => None
    case Some(r) => Some(Given(r))
  }

  function StateFromRecords(revokedAt: Option<Time>, latest: Option<Event>): Resolution {
    if revokedAt.Some? && latest.Some? && latest.value.to.Revoked? then
      Resolution(Revoked, LifecycleEvent, Some(latest.value.reasonCode),
                 Some(if latest.value.reason.Some? then Given(latest.value.reason.value) else RevokedByIssuer),
                 Some(latest.value.transitionedAt))
    else if revokedAt.Some? then
      Resolution(Revoked, AssertionRevocation, None, Some(RevokedByIssuer), revokedAt)
    else if latest.Some? then
      Resolution(latest.value.to, LifecycleEvent, Some(latest.value.reasonCode), GivenReason(latest.value.reason),
                 Some(latest.value.transitionedAt))
    else
      Resolution(Active, DefaultActive, None, None, None)
  }

  /** The columns a LEFT JOIN on the latest event yields. */
  datatype Row = Row(
    revokedAt: Option<Time>, latestToState: Option<State>, latestReasonCode: Option<ReasonCode>,
    latestReason: Option<nat>, latestTransitionedAt: Option<Time>)

  function JoinedRow(l: Ledger): Row {
    match Latest(l.events)
    case None => Row(l.revokedAt, None, None, None, None)
    case Some(e) => Row(l.revokedAt, Some(e.to), Some(e.reasonCode), e.reason, Some(e.transitionedAt))
  }

  function SummaryProjection(row: Row): Resolution {
    if row.revokedAt.Some? && row.latestToState == Some(Revoked) then
      Resolution(Revoked, LifecycleEvent, row.latestReasonCode,
                 Some(if row.latestReason.Some? then Given(row.latestReason.value) else RevokedByIssuer),
                 if row.latestTransitionedAt.Some? then row.latestTransitionedAt else row.revokedAt)
    else if row.revokedAt.Some? then
      Resolution(Revoked, AssertionRevocation, None, Some(RevokedByIssuer), row.revokedAt)
    else if row.latestToState.Some? then
      Resolution(row.latestToState.value, LifecycleEvent, row.latestReasonCode, GivenReason(row.latestReason),
                 row.latestTransitionedAt)
    else
      Resolution(Active, DefaultActive, None, None, None)
  }

  function ReportingState(row: Row): State {
    if row.revokedAt.Some? then Revoked
    else if row.latestToState.Some? then row.latestToState.value else Active
  }

  function Resolve(l: Ledger): Resolution {
    StateFromRecords(l.revokedAt, Latest(l.events))
  }

  /** Record, summary and reporting never disagree about an assertion. */
  lemma ProjectionsAgree(l: Ledger)
    ensures SummaryProjection(JoinedRow(l)) == Resolve(l)
    ensures ReportingState(JoinedRow(l)) == Resolve(l).state
  {
  }

  // The two operations.

  /** A transition call past its argument checks. `eventId` is a fresh identifier. */
  datatype Request = Request(
    to: State, reasonCode: ReasonCode, reason: Option<nat>, source: Source, actor: Option<UserId>, at: Time,
    eventId: EventId)

  datatype Outcome = Transitioned(event: Event) | AlreadyInState(current: State) | InvalidTransition(current: State)

  function Mark(revokedAt: Option<Time>, at: Time): Option<Time> {
    if revokedAt.None? then Some(at) else revokedAt
  }

  function NewEvent(l: Ledger, a: AssertionId, req: Request): Event {
    Event(req.eventId, a, Resolve(l).state, req.to, req.reasonCode, req.reason, req.source, req.actor, req.at, req.at)
  }

  function Judge(l: Ledger, a: AssertionId, req: Request): Outcome {
    var current := Resolve(l).state;
    if current == req.to then AlreadyInState(current)
    else if !AllowedTransition(current, req.to) then InvalidTransition(current)
    else Transitioned(NewEvent(l, a, req))
  }

  function Transition(l: Ledger, a: AssertionId, req: Request): Ledger {
    match Judge(l, a, req)
    case Transitioned(e) =>
      Ledger(if req.to.Revoked? then Mark(l.revokedAt, req.at) else l.revokedAt, l.events + [e])
    case _ => l
  }

  datatype Op = TransitionOp(req: Request) | RevokeOp(at: Time)

  function Step(l: Ledger, a: AssertionId, op: Op): Ledger {
    match op
    case TransitionOp(req) => Transition(l, a, req)
    case RevokeOp(at) => l.(revokedAt := Mark(l.revokedAt, at))
  }

  function Run(l: Ledger, a: AssertionId, ops: seq<Op>): Ledger
    decreases |ops|
  {
    if ops == [] then l else Run(Step(l, a, ops[0]), a, ops[1..])
  }

  /** Revocation is for good: whatever is called with whatever timestamps, the ledger no longer changes. */
  lemma {:induction false} RevokedForever(l: Ledger, a: AssertionId, ops: seq<Op>)
    requires l.revokedAt.Some?
    ensures Run(l, a, ops) == l && Resolve(l).state == Revoked
  {
    hide Latest;
    if ops != [] {
      RevokedForever(l, a, ops[1..]);
    }
  }

  // What the log says when the transition times of an assertion increase.

  ghost predicate Increasing(events: seq<Event>) {
    forall i, j :: 0 <= i < j < |events| ==> events[i].transitionedAt < events[j].transitionedAt
  }

  /** Each transition call is later than all recorded events, and its event identifier is new. */
  predicate Later(l: Ledger, a: AssertionId, ops: seq<Op>)
    decreases |ops|
  {
    ops == [] ||
    ((ops[0].TransitionOp? ==>
        forall e :: e in l.events ==> e.transitionedAt < ops[0].req.at && e.id != ops[0].req.eventId)
     && Later(Step(l, a, ops[0]), a, ops[1..]))
  }

  /** The state the log leads to. */
  function End(events: seq<Event>): State {
    if events == [] then Active else events[|events| - 1].to
  }

  ghost predicate Edge(events: seq<Event>, i: nat)
    requires i < |events|
  {
    events[i].from == End(events[..i]) && AllowedTransition(events[i].from, events[i].to)
  }

  ghost predicate Linked(events: seq<Event>) {
    forall i :: 0 <= i < |events| ==> Edge(events, i)
  }

  ghost predicate RevokedLast(l: Ledger) {
    forall i :: 0 <= i < |l.events| && l.events[i].to.Revoked? ==>
      i == |l.events| - 1 && l.revokedAt == Some(l.events[i].transitionedAt)
  }

  /**
   * A path from active along allowed edges; only its last edge may lead into revoked, and then at the revocation
   * time.
   */
  ghost predicate IsPath(l: Ledger) {
    Increasing(l.events) && DistinctIds(l.events) && Linked(l.events) && RevokedLast(l)
  }

  lemma LatestOfIncreasing(events: seq<Event>)
    requires Increasing(events) && events != []
    ensures Latest(events) == Some(events[|events| - 1])
  {
    LatestIsNotBefore(events, events[|events| - 1]);
    assert Latest(events).value in events;
  }

  lemma PathState(l: Ledger)
    requires IsPath(l)
    ensures Resolve(l).state == if l.revokedAt.Some? then Revoked else End(l.events)
  {
    if l.events != [] {
      LatestOfIncreasing(l.events);
    }
    hide Latest;
  }

  lemma PathExtends(l: Ledger, e: Event, revokedAt: Option<Time>)
    requires IsPath(l) && l.revokedAt.None?
    requires forall x :: x in l.events ==> x.transitionedAt < e.transitionedAt && x.id != e.id
    requires e.from == End(l.events) && AllowedTransition(e.from, e.to)
    requires revokedAt == if e.to.Revoked? then Some(e.transitionedAt) else None
    ensures IsPath(Ledger(revokedAt, l.events + [e]))
  {
    hide AllowedTransition;
    LinkedExtends(l.events, e);
    assert DistinctIds(l.events + [e]) && Increasing(l.events + [e]);
    hide Linked, DistinctIds, Increasing;
    assert RevokedLast(Ledger(revokedAt, l.events + [e]));
  }

  lemma LinkedExtends(events: seq<Event>, e: Event)
    requires Linked(events) && e.from == End(events) && AllowedTransition(e.from, e.to)
    ensures Linked(events + [e])
  {
    hide AllowedTransition, End;
    var more := events + [e];
    assert events[..|events|] == events;
    forall i | 0 <= i < |more| ensures Edge(more, i) {
      assert more[..i] == events[..i];
      assert i < |events| ==> Edge(events, i);
    }
  }

  lemma StepKeepsPath(l: Ledger, a: AssertionId, op: Op)
    requires IsPath(l) && Later(l, a, [op])
    ensures IsPath(Step(l, a, op))
  {
    PathState(l);
    hide Latest, IsPath;
    match op {
      case TransitionOp(req) =>
        if Judge(l, a, req).Transitioned? {
          PathExtends(l, NewEvent(l, a, req), if req.to.Revoked? then Some(req.at) else None);
        }
      case RevokeOp(at) =>
        MarkKeepsPath(l, at);
    }
  }

  lemma MarkKeepsPath(l: Ledger, at: Time)
    requires IsPath(l)
    ensures IsPath(l.(revokedAt := Mark(l.revokedAt, at)))
  {
    assert forall i :: 0 <= i < |l.events| && l.events[i].to.Revoked? ==> l.revokedAt.Some?;
  }

  /** With increasing times the log is a path in every run, and the resolved state is its end, or revoked. */
  lemma {:induction false} PathAlways(l: Ledger, a: AssertionId, ops: seq<Op>)
    requires IsPath(l) && Later(l, a, ops)
    ensures var r := Run(l, a, ops);
            IsPath(r) && Resolve(r).state == if r.revokedAt.Some? then Revoked else End(r.events)
    decreases |ops|
  {
    hide IsPath, Latest, Resolve, Step;
    if ops == [] {
      PathState(l);
    } else {
      StepKeepsPath(l, a, ops[0]);
      PathAlways(Step(l, a, ops[0]), a, ops[1..]);
    }
  }

  /** In such a path at most one event leads into revoked, and none follows it. */
  lemma OneRevocation(l: Ledger, i: nat, j: nat)
    requires IsPath(l) && i < |l.events| && j < |l.events| && l.events[i].to.Revoked?
    ensures (l.events[j].to.Revoked? <==> i == j) && j <= i
  {
  }

  // What the times have to do with it.

  /**
   * A transition that is reported as done shows iff it is the revocation or its event is not sorted behind the
   * latest.
   */
  lemma TransitionShowsIff(l: Ledger, a: AssertionId, req: Request)
    requires Judge(l, a, req).Transitioned?
    requires DistinctIds(l.events) && forall x :: x in l.events ==> x.id != req.eventId
    ensures Resolve(Transition(l, a, req)).state == req.to <==>
            req.to.Revoked? || l.events == [] || NotBefore(NewEvent(l, a, req), Latest(l.events).value)
  {
    LatestAfterInsert(l.events, NewEvent(l, a, req));
    hide Latest, NotBefore;
  }

  /** A backdated call is reported as done and recorded, but the assertion stays suspended. */
  lemma BackdatedTransition(a: AssertionId)
    ensures var suspend := Request(Suspended, PolicyViolation, None, Automation, None, 10, 1);
            var resume := Request(Active, AppealResolved, None, Automation, None, 5, 2);
            var l := Transition(Ledger(None, []), a, suspend);
            && Judge(l, a, resume).Transitioned?
            && Resolve(Transition(l, a, resume)).state == Suspended
  {
    var suspend := Request(Suspended, PolicyViolation, None, Automation, None, 10, 1);
    var resume := Request(Active, AppealResolved, None, Automation, None, 5, 2);
    var l0 := Ledger(None, []);
    var e := NewEvent(l0, a, suspend);
    LatestAfterInsert([], e);
    assert [] + [e] == [e];
    var l := Transition(l0, a, suspend);
    assert l == Ledger(None, [e]);
    LatestAfterInsert([e], NewEvent(l, a, resume));
    hide Latest;
  }
}

/** The `assertions`, `assertion_lifecycle_events` and `revocations` tables of one tenant. */
module Lifecycle {
  import opened Prelude
  import opened StableSort
  import opened Tables
  import opened LifecycleLedger

  datatype LifecycleError = ManualNeedsActor | AutomationHasActor | AssertionNotFound

  datatype RevocationReason = Text(reason: nat) | Code(code: ReasonCode)

  datatype Revocation = Revocation(
    id: nat, assertionId: AssertionId, reason: RevocationReason, idempotencyKey: nat, revokedBy: Option<UserId>,
    revokedAt: Time, createdAt: Time)

  function OfAssertion(a: AssertionId): Event -> bool {
    (e: Event) => e.assertionId == a
  }

  /** The table is unique in identifier, idempotency key and assertion. */
  predicate Clash(x: Revocation, y: Revocation) {
    x.id == y.id || x.idempotencyKey == y.idempotencyKey || x.assertionId == y.assertionId
  }

  /** INSERT … ON CONFLICT DO NOTHING */
  function Inserted(revocations: seq<Revocation>, r: Revocation): seq<Revocation> {
    if exists x :: x in revocations && Clash(x, r) then revocations else revocations + [r]
  }

  /** At most one revocation per assertion, and it carries the stored time. */
  ghost predicate RevocationsMatch(revokedAt: map<AssertionId, Option<Time>>, revocations: seq<Revocation>) {
    && (forall i, j :: 0 <= i < j < |revocations| ==> !Clash(revocations[i], revocations[j]))
    && (forall x :: x in revocations ==> x.assertionId in revokedAt && revokedAt[x.assertionId] == Some(x.revokedAt))
  }

  /** Events are about known assertions, and one into revoked only about a marked one. */
  ghost predicate EventsMatch(revokedAt: map<AssertionId, Option<Time>>, events: seq<Event>) {
    forall e :: e in events ==> e.assertionId in revokedAt && (e.to.Revoked? ==> revokedAt[e.assertionId].Some?)
  }

  /** The assertion's last event by transition time, then creation time, then identifier. */
  predicate IsLatest(events: seq<Event>, a: AssertionId, e: Event) {
    && e in events && e.assertionId == a
    && forall x :: x in events && x.assertionId == a ==>
         || x.transitionedAt < e.transitionedAt
         || (x.transitionedAt == e.transitionedAt && x.createdAt < e.createdAt)
         || (x.transitionedAt == e.transitionedAt && x.createdAt == e.createdAt && x.id <= e.id)
  }

  /** What is resolved for an assertion with this revocation mark and latest event. */
  ghost predicate Shows(r: Resolution, mark: Option<Time>, latest: Option<Event>) {
    if latest.None? then
      r == if mark == None then Resolution(Active, DefaultActive, None, None, None)
           else Resolution(Revoked, AssertionRevocation, None, Some(RevokedByIssuer), mark)
    else
      var e := latest.value;
      if mark != None && e.to != Revoked then
        r == Resolution(Revoked, AssertionRevocation, None, Some(RevokedByIssuer), mark)
      else
        && r.state == e.to && r.source == LifecycleEvent && r.reasonCode == Some(e.reasonCode)
        && r.transitionedAt == Some(e.transitionedAt)
        && r.reason == match e.reason
                       case Some(text) => Some(Given(text))
                       case None => if mark != None then Some(RevokedByIssuer) else None
  }

  ghost predicate ResolvesTo(mark: Option<Time>, events: seq<Event>, a: AssertionId, r: Resolution) {
    || ((forall e :: e in events ==> e.assertionId != a) && Shows(r, mark, None))
    || exists e :: IsLatest(events, a, e) && Shows(r, mark, Some(e))
  }

  lemma ResolveShows(mark: Option<Time>, latest: Option<Event>)
    ensures Shows(StateFromRecords(mark, latest), mark, latest)
  {
  }

  lemma ResolveOfTable(mark: Option<Time>, events: seq<Event>, a: AssertionId)
    requires DistinctIds(events)
    ensures ResolvesTo(mark, events, a, Resolve(Ledger(mark, Where(events, OfAssertion(a)))))
  {
    var latest := Latest(Where(events, OfAssertion(a)));
    LatestOfTable(events, a);
    ResolveShows(mark, latest);
    hide Shows, Latest, Where, IsLatest, StateFromRecords;
    assert latest.Some? ==> IsLatest(events, a, latest.value);
  }

  /** The outcome of a transition call from the current state, and the event that is recorded. */
  ghost predicate OutcomeShows(o: Outcome, current: State, a: AssertionId, req: Request) {
    if current == req.to then o == AlreadyInState(current)
    else if current == Revoked || (current == Expired && req.to == Suspended) then o == InvalidTransition(current)
    else
      && o.Transitioned? && o.event.id == req.eventId && o.event.assertionId == a
      && o.event.from == current && o.event.to == req.to && o.event.reasonCode == req.reasonCode
      && o.event.reason == req.reason && o.event.source == req.source && o.event.actor == req.actor
      && o.event.transitionedAt == req.at && o.event.createdAt == req.at
  }

  lemma JudgeShows(l: Ledger, a: AssertionId, req: Request)
    ensures OutcomeShows(Judge(l, a, req), Resolve(l).state, a, req)
  {
    AllowedIff(Resolve(l).state, req.to);
    hide Resolve, AllowedTransition;
  }

  lemma LatestOfTable(events: seq<Event>, a: AssertionId)
    requires DistinctIds(events)
    ensures var latest := Latest(Where(events, OfAssertion(a)));
            && (latest.None? <==> forall e :: e in events ==> e.assertionId != a)
            && (forall e :: latest == Some(e) <==> IsLatest(events, a, e))
  {
    var own := Where(events, OfAssertion(a));
    assert own != [] ==> own[0] in own;
    if own != [] {
      var l := Latest(own).value;
      forall x | x in own ensures NotBefore(l, x) {
        LatestIsNotBefore(own, x);
      }
      forall e | IsLatest(events, a, e) ensures e == l {
        assert e in own;
        SameRank(events, l, e);
      }
    }
  }

  class Assertions {
    /** When each assertion was revoked. */
    var revokedAt: map<AssertionId, Option<Time>>
    /** In order of insertion. */
    var events: seq<Event>
    var revocations: seq<Revocation>

    function LedgerOf(a: AssertionId): Ledger
      reads this
      requires a in revokedAt
    {
      Ledger(revokedAt[a], Where(events, OfAssertion(a)))
    }

    ghost predicate Valid()
      reads this
    {
      DistinctIds(events) && EventsMatch(revokedAt, events) && RevocationsMatch(revokedAt, revocations)
    }

    constructor ()
      ensures Valid() && revokedAt == map[] && events == [] && revocations == []
    {
      revokedAt, events, revocations := map[], [], [];
    }

    method Issue(a: AssertionId)
      requires Valid() && a !in revokedAt
      modifies this`revokedAt
      ensures Valid() && revokedAt == old(revokedAt)[a := None]
      ensures LedgerOf(a) == Ledger(None, [])
    {
      WhereNone(events, OfAssertion(a));
      revokedAt := revokedAt[a := None];
    }

    /**
     * The stored time is the first one; the flag tells whether it was there before. A revocation is added unless its
     * assertion has one, or its identifier or key is another's.
     */
    method RecordRevocation(a: AssertionId, id: nat, reason: RevocationReason, idempotencyKey: nat,
            revokedBy: Option<UserId>, at: Time)
      returns (r: Result<(bool, Time), LifecycleError>)
      requires Valid()
      modifies this`revokedAt, this`revocations
      ensures Valid()
      ensures r == if a !in old(revokedAt) then Err(AssertionNotFound)
                   else Ok((old(revokedAt[a]).Some?, if old(revokedAt[a]).Some? then old(revokedAt[a]).value else at))
      ensures revokedAt == if a in old(revokedAt) then old(revokedAt)[a := Some(r.value.1)] else old(revokedAt)
      ensures r.Ok? ==> LedgerOf(a) == Step(old(LedgerOf(a)), a, RevokeOp(at))
      ensures r.Ok? ==>
                var taken := exists x :: x in old(revocations)
                                         && (x.id == id || x.idempotencyKey == idempotencyKey || x.assertionId == a);
                var row := Revocation(id, a, reason, idempotencyKey, revokedBy, r.value.1, at);
                revocations == if taken then old(revocations) else old(revocations) + [row]
      ensures r.Err? ==> revocations == old(revocations)
    {
      if a !in revokedAt {
        return Err(AssertionNotFound);
      }
      var before := revokedAt[a];
      var effective := if before.Some? then before.value else at;
      var row := Revocation(id, a, reason, idempotencyKey, revokedBy, effective, at);
      MarkKeepsTables(revokedAt, events, revocations, a, effective, row);
      hide RevocationsMatch, EventsMatch, DistinctIds, Inserted;
      if before.None? {
        revokedAt := revokedAt[a := Some(effective)];
      }
      assert revokedAt == old(revokedAt)[a := Some(effective)];
      revocations := Inserted(revocations, row);
      r := Ok((before.Some?, effective));
    }

    method InsertEvent(e: Event)
      requires Valid() && e.assertionId in revokedAt && (e.to.Revoked? ==> revokedAt[e.assertionId].Some?)
      requires forall x :: x in events ==> x.id != e.id
      modifies this`events
      ensures Valid() && events == old(events) + [e]
      ensures forall b :: b in revokedAt ==>
                LedgerOf(b) == Ledger(revokedAt[b], old(LedgerOf(b)).events + if b == e.assertionId then [e] else [])
    {
      forall b
        ensures Where(events + [e], OfAssertion(b))
                == Where(events, OfAssertion(b)) + if e.assertionId == b then [e] else []
      {
        WhereAppend(events, e, OfAssertion(b));
      }
      events := events + [e];
    }

    /**
     * One assertion's ledger takes the step, all others stay as they are; a transition into revoked adds one
     * revocation at its time. `revocationId` and `idempotencyKey` are fresh.
     */
    method RecordTransition(a: AssertionId, req: Request, revocationId: nat, idempotencyKey: nat)
      returns (r: Result<Outcome, LifecycleError>)
      requires Valid() && forall e :: e in events ==> e.id != req.eventId
      requires forall x :: x in revocations ==> x.id != revocationId && x.idempotencyKey != idempotencyKey
      modifies this
      ensures Valid() && revokedAt.Keys == old(revokedAt).Keys
      ensures r.Err? <==>
                || (req.source.Manual? && req.actor.None?) || (req.source.Automation? && req.actor.Some?)
                || a !in old(revokedAt)
      ensures r.Err? ==>
                && events == old(events) && revokedAt == old(revokedAt)
                && match r.error
                   case ManualNeedsActor => req.source == Manual && req.actor == None
                   case AutomationHasActor => req.source == Automation && req.actor != None
                   case AssertionNotFound => a !in old(revokedAt)
      ensures r.Ok? ==>
                exists current :: ResolvesTo(old(revokedAt[a]), old(events), a, current)
                                  && OutcomeShows(r.value, current.state, a, req)
      ensures r.Ok? && r.value.Transitioned? ==>
                && events == old(events) + [r.value.event]
                && revokedAt == if req.to == Revoked then old(revokedAt)[a := Some(req.at)] else old(revokedAt)
      ensures r.Ok? && !r.value.Transitioned? ==> events == old(events) && revokedAt == old(revokedAt)
      ensures r.Ok? ==> r.value == Judge(old(LedgerOf(a)), a, req) && LedgerOf(a) == Transition(old(LedgerOf(a)), a, req)
      ensures forall b :: b in old(revokedAt) && b != a ==> LedgerOf(b) == old(LedgerOf(b))
      ensures revocations == old(revocations) +
                if r.Ok? && r.value.Transitioned? && req.to.Revoked? then
                  [Revocation(revocationId, a, if req.reason.Some? then Text(req.reason.value) else Code(req.reasonCode),
                              idempotencyKey, req.actor, req.at, req.at)]
                else []
    {
      hide Resolve, AllowedTransition, DistinctIds, Where, EventsMatch, RevocationsMatch;
      if req.source.Manual? && req.actor.None? {
        return Err(ManualNeedsActor);
      }
      if req.source.Automation? && req.actor.Some? {
        return Err(AutomationHasActor);
      }
      if a !in revokedAt {
        return Err(AssertionNotFound);
      }
      ResolveOfTable(revokedAt[a], events, a);
      JudgeShows(LedgerOf(a), a, req);
      hide ResolvesTo, OutcomeShows;
      var current := Resolve(LedgerOf(a)).state;
      if current == req.to {
        return Ok(AlreadyInState(current));
      }
      if !AllowedTransition(current, req.to) {
        return Ok(InvalidTransition(current));
      }
      var e := NewEvent(LedgerOf(a), a, req);
      if req.to.Revoked? {
        RevokedResolves(LedgerOf(a));
        NoRevocationYet(revokedAt, revocations, a);
        var reason := if req.reason.Some? then Text(req.reason.value) else Code(req.reasonCode);
        var revocation := RecordRevocation(a, revocationId, reason, idempotencyKey, req.actor, req.at);
        e := e.(transitionedAt := revocation.value.1, createdAt := revocation.value.1);
      }
      InsertEvent(e);
      r := Ok(Transitioned(e));
    }

    /** Revoked iff a revocation time is stored; else the target of the latest event, and active if there is none. */
    method ResolveState(a: AssertionId) returns (r: Option<Resolution>)
      requires Valid()
      ensures r.Some? <==> a in revokedAt
      ensures r.Some? ==> (r.value.state == Revoked <==> revokedAt[a].Some?)
      ensures r.Some? ==> ResolvesTo(revokedAt[a], events, a, r.value)
    {
      if a !in revokedAt {
        return None;
      }
      var latest := Latest(Where(events, OfAssertion(a)));
      ResolveOfTable(revokedAt[a], events, a);
      hide Latest, Where, ResolvesTo, DistinctIds, RevocationsMatch;
      assert latest.Some? && latest.value.to.Revoked? ==> revokedAt[a].Some? by {
        LatestIsEvent(events, a);
      }
      r := Some(StateFromRecords(revokedAt[a], latest));
    }
  }

  lemma LatestIsEvent(events: seq<Event>, a: AssertionId)
    ensures var latest := Latest(Where(events, OfAssertion(a)));
            latest.Some? ==> latest.value in events && latest.value.assertionId == a
  {
  }

  /** Marking an assertion with its first time, and adding its revocation, keeps the tables in step. */
  lemma MarkKeepsTables(revokedAt: map<AssertionId, Option<Time>>, events: seq<Event>, revocations: seq<Revocation>,
          a: AssertionId, at: Time, row: Revocation)
    requires EventsMatch(revokedAt, events) && RevocationsMatch(revokedAt, revocations)
    requires a in revokedAt && (revokedAt[a].Some? ==> revokedAt[a] == Some(at))
    requires row.assertionId == a && row.revokedAt == at
    ensures var marked := revokedAt[a := Some(at)];
            EventsMatch(marked, events) && RevocationsMatch(marked, Inserted(revocations, row))
  {
    var marked, more := revokedAt[a := Some(at)], Inserted(revocations, row);
    forall x | x in more ensures x.assertionId in marked && marked[x.assertionId] == Some(x.revokedAt) {
      assert x in revocations || x == row;
    }
    forall i, j | 0 <= i < j < |more| ensures !Clash(more[i], more[j]) {
      assert i < |revocations| && more[i] in revocations;
    }
  }

  lemma NoRevocationYet(revokedAt: map<AssertionId, Option<Time>>, revocations: seq<Revocation>, a: AssertionId)
    requires RevocationsMatch(revokedAt, revocations) && a in revokedAt
    ensures revokedAt[a].None? ==> forall x :: x in revocations ==> x.assertionId != a
  {
  }

  /**
   * An assertion that is not revoked yet carries no mark, so revoking it in a transition stores the transition's
   * time.
   */
  lemma RevokedResolves(l: Ledger)
    ensures l.revokedAt.Some? ==> Resolve(l).state == Revoked
  {
    hide Latest;
  }
}
