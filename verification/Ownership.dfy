/** Who owned a badge template when: the event history, its replay, and the attribution reports derive from it. */
module OwnershipHistory {
  import opened Prelude
  import opened StableSort
  import opened Tables

  type UnitId = nat
  type EventId = nat
  type Time = int

  datatype Event = Event(id: EventId, from: Option<UnitId>, to: UnitId, transferredAt: Time)

  /** A template's owner and its ownership events, in order of insertion. */
  datatype Owned = Owned(owner: UnitId, events: seq<Event>)

  /** `id` is a fresh identifier of the event that is written. */
  datatype Transfer = Transfer(to: UnitId, id: EventId, at: Time)

  function Created(owner: UnitId, id: EventId, at: Time): Owned {
    Owned(owner, [Event(id, None, owner, at)])
  }

  function Transferred(h: Owned, tr: Transfer): Owned {
    if h.owner == tr.to then h
    else Owned(tr.to, h.events + [Event(tr.id, Some(h.owner), tr.to, tr.at)])
  }

  function Replay(h: Owned, trs: seq<Transfer>): Owned
    decreases |trs|
  {
    if trs == [] then h else Replay(Transferred(h, trs[0]), trs[1..])
  }

  // The history, whatever the timestamps.

  /** The first event creates, each further one hands over what the one before received, and the owner received last. */
  ghost predicate Chained(h: Owned) {
    && h.events != [] && h.events[0].from == None
    && (forall i :: 0 < i < |h.events| ==>
        h.events[i].from == Some(h.events[i - 1].to) && h.events[i].to != h.events[i - 1].to)
    && h.owner == h.events[|h.events| - 1].to
  }

  lemma {:induction false} ChainedAlways(h: Owned, trs: seq<Transfer>)
    requires Chained(h)
    ensures Chained(Replay(h, trs))
    decreases |trs|
  {
    if trs != [] {
      ChainedAlways(Transferred(h, trs[0]), trs[1..]);
    }
  }

  lemma {:induction false} ReplayConcat(h: Owned, a: seq<Transfer>, b: seq<Transfer>)
    ensures Replay(h, a + b) == Replay(Replay(h, a), b)
    decreases |a|
  {
    if a == [] {
      assert a + b == b;
    } else {
      assert (a + b)[1..] == a[1..] + b;
      ReplayConcat(Transferred(h, a[0]), a[1..], b);
    }
  }

  // The list and the attribution.

  const LIST_LIMIT := 500
  const BACKFILL_LIMIT := 5000

  /** `ORDER BY transferred_at DESC, created_at DESC, id DESC`, the creation time being the transfer time. */
  predicate NotBefore(a: Event, b: Event) {
    a.transferredAt > b.transferredAt || (a.transferredAt == b.transferredAt && a.id >= b.id)
  }

  function LatestFirst(): (Event, Event) -> bool {
    (a: Event, b: Event) => NotBefore(a, b)
  }

  function QueryLimit(limit: int): nat {
    var capped := if limit < LIST_LIMIT then limit else LIST_LIMIT;
    if capped < 1 then 1 else capped
  }

  /** Any limit is brought into the range from 1 to 500. */
  lemma QueryLimitIs(limit: int)
    ensures 1 <= QueryLimit(limit) <= 500 && (1 <= limit <= 500 ==> QueryLimit(limit) == limit)
    ensures limit > 500 ==> QueryLimit(limit) == 500
    ensures limit < 1 ==> QueryLimit(limit) == 1
  {
  }

  function List(events: seq<Event>, limit: int): seq<Event> {
    Limit(OrderBy(events, LatestFirst()), QueryLimit(limit))
  }

  function ByTimeDescending(): (Event, Event) -> bool {
    (a: Event, b: Event) => a.transferredAt >= b.transferredAt
  }

  function Until(t: Time): Event -> bool {
    (e: Event) => e.transferredAt <= t
  }

  datatype AttributionSource = IssuanceSnapshot | HistoricalBackfill | CurrentOwnerFallback

  datatype Attribution = Attribution(unit: UnitId, source: AttributionSource, attributedAt: Time)

  function ResolveAttribution(issuedAt: Time, currentOwner: UnitId, events: seq<Event>): Attribution {
    var matched := OrderBy(Where(events, Until(issuedAt)), ByTimeDescending());
    if matched != [] then Attribution(matched[0].to, HistoricalBackfill, issuedAt)
    else Attribution(currentOwner, CurrentOwnerFallback, issuedAt)
  }

  /** What a backfill later makes of an assertion issued at `issuedAt`. */
  function Backfilled(h: Owned, issuedAt: Time): Attribution {
    ResolveAttribution(issuedAt, h.owner, List(h.events, BACKFILL_LIMIT))
  }

  // What the backfill yields, whatever the timestamps.

  /** `a` comes before `b`, or is `b`, by transfer time and then by identifier. */
  ghost predicate Behind(a: Event, b: Event) {
    a.transferredAt < b.transferredAt || (a.transferredAt == b.transferredAt && a.id <= b.id)
  }

  /** At most 500 of the events, and all of them later than any that is left out. */
  ghost predicate NewestEvents(listed: seq<Event>, events: seq<Event>) {
    && |listed| <= 500 && (forall e :: e in listed ==> e in events)
    && forall e :: e in events && e !in listed ==> |listed| == 500 && forall l :: l in listed ==> Behind(e, l)
  }

  /** The receiver in the last of these events up to the time, or the present owner if there is none. */
  ghost predicate AttributesFrom(x: Attribution, listed: seq<Event>, owner: UnitId, t: Time) {
    if forall e :: e in listed ==> e.transferredAt > t then x == Attribution(owner, CurrentOwnerFallback, t)
    else
      exists last :: && last in listed && last.transferredAt <= t && x == Attribution(last.to, HistoricalBackfill, t)
                     && forall e :: e in listed && e.transferredAt <= t ==> Behind(e, last)
  }

  ghost predicate AttributesTo(x: Attribution, h: Owned, t: Time) {
    exists listed :: NewestEvents(listed, h.events) && AttributesFrom(x, listed, h.owner, t)
  }

  lemma ListIsNewest(events: seq<Event>)
    ensures var listed := List(events, BACKFILL_LIMIT);
            NewestEvents(listed, events) && Sorted(listed, LatestFirst())
  {
    var ordered := OrderBy(events, LatestFirst());
    SortSorts(events, LatestFirst());
    var listed := List(events, BACKFILL_LIMIT);
    assert listed == Limit(ordered, 500) && listed <= ordered;
    forall i, j | 0 <= i < j < |ordered| ensures Behind(ordered[j], ordered[i]) {
      assert LatestFirst()(ordered[i], ordered[j]);
    }
    hide OrderBy, List;
    forall e | e in events && e !in listed ensures |listed| == 500 && forall l :: l in listed ==> Behind(e, l) {
      assert e in ordered;
      var k :| 0 <= k < |ordered| && ordered[k] == e;
      PrefixMember(listed, ordered, k);
      assert forall i :: 0 <= i < |listed| ==> listed[i] == ordered[i];
    }
  }

  lemma MatchedInOrder(found: seq<Event>)
    requires Sorted(found, LatestFirst())
    ensures OrderBy(found, ByTimeDescending()) == found
    ensures forall e :: e in found ==> Behind(e, found[0])
  {
    forall i, j | 0 <= i < j < |found| ensures ByTimeDescending()(found[i], found[j]) {
      assert LatestFirst()(found[i], found[j]);
    }
    SortOfSorted(found, ByTimeDescending());
    forall e | e in found ensures Behind(e, found[0]) {
      var k :| 0 <= k < |found| && found[k] == e;
      assert k > 0 ==> LatestFirst()(found[0], found[k]);
    }
  }

  lemma LastMatched(listed: seq<Event>, owner: UnitId, t: Time)
    requires Sorted(listed, LatestFirst())
    ensures AttributesFrom(ResolveAttribution(t, owner, listed), listed, owner, t)
  {
    var found := Where(listed, Until(t));
    WhereSorted(listed, Until(t), LatestFirst());
    MatchedInOrder(found);
    assert forall e :: e in found <==> e in listed && e.transferredAt <= t;
    hide Where, OrderBy, Sorted, Behind;
    if found != [] {
      assert found[0] in found;
    }
  }

  /** For any timestamps, the newest 500 events decide, and of those up to the time the last. */
  lemma BackfilledShows(h: Owned, t: Time)
    ensures AttributesTo(Backfilled(h, t), h, t)
  {
    var listed := List(h.events, BACKFILL_LIMIT);
    ListIsNewest(h.events);
    LastMatched(listed, h.owner, t);
    hide List, AttributesFrom, NewestEvents, ResolveAttribution;
  }

  // With strictly increasing transfer times.

  ghost predicate Increasing(events: seq<Event>) {
    forall i, j :: 0 <= i < j < |events| ==> events[i].transferredAt < events[j].transferredAt
  }

  /** Transfers in time order, all after `t`. */
  ghost predicate InOrderAfter(trs: seq<Transfer>, t: Time) {
    && (forall i :: 0 <= i < |trs| ==> t < trs[i].at)
    && (forall i, j :: 0 <= i < j < |trs| ==> trs[i].at < trs[j].at)
  }

  lemma {:induction false} ReplayGrows(h: Owned, trs: seq<Transfer>, t: Time)
    requires InOrderAfter(trs, t) && Increasing(h.events) && forall e :: e in h.events ==> e.transferredAt <= t
    ensures var r := Replay(h, trs);
            && h.events <= r.events && Increasing(r.events)
            && (forall i :: |h.events| <= i < |r.events| ==> t < r.events[i].transferredAt)
    decreases |trs|
  {
    if trs != [] {
      var g := Transferred(h, trs[0]);
      assert Increasing(g.events) && forall e :: e in g.events ==> e.transferredAt <= trs[0].at;
      ReplayGrows(g, trs[1..], trs[0].at);
      assert forall i :: 0 <= i < |trs[1..]| ==> trs[1..][i] == trs[i + 1];
    }
  }

  lemma {:induction false} ReplayWithin(h: Owned, trs: seq<Transfer>, bound: Time)
    requires forall e :: e in h.events ==> e.transferredAt <= bound
    requires forall i :: 0 <= i < |trs| ==> trs[i].at <= bound
    ensures forall e :: e in Replay(h, trs).events ==> e.transferredAt <= bound
    decreases |trs|
  {
    if trs != [] {
      ReplayWithin(Transferred(h, trs[0]), trs[1..], bound);
    }
  }

  /** The number of transfers made by time `t`. */
  function MadeBy(trs: seq<Transfer>, t: Time): (n: nat)
    ensures n <= |trs|
    ensures forall i :: 0 <= i < n ==> trs[i].at <= t
    ensures n < |trs| ==> trs[n].at > t
  {
    if trs == [] || trs[0].at > t then 0
    else
      var n := MadeBy(trs[1..], t);
      assert forall i :: 1 <= i < n + 1 ==> trs[i] == trs[1..][i - 1];
      n + 1
  }

  /** The owner an assertion created at time `t` would have recorded. */
  function SnapshotUnit(h: Owned, trs: seq<Transfer>, t: Time): UnitId {
    Replay(h, trs[..MadeBy(trs, t)]).owner
  }

  /** Events after time `t`. */
  function After(events: seq<Event>, t: Time): seq<Event> {
    Where(events, (e: Event) => e.transferredAt > t)
  }

  lemma {:induction false} AfterConcat(a: seq<Event>, b: seq<Event>, t: Time)
    requires (forall e :: e in a ==> e.transferredAt <= t) && (forall e :: e in b ==> e.transferredAt > t)
    ensures After(a + b, t) == b
    decreases |a|
  {
    if a == [] {
      assert a + b == b;
      WhereAll(b, (e: Event) => e.transferredAt > t);
    } else {
      assert a[0] in a && (a + b)[1..] == a[1..] + b;
      AfterConcat(a[1..], b, t);
    }
  }

  /** The transfers until `t` make a past whose last event names the owner at `t`, the later ones a future. */
  lemma SplitReplay(h: Owned, before: seq<Transfer>, later: seq<Transfer>, created: Time, t: Time)
    requires Chained(h) && Increasing(h.events) && (forall e :: e in h.events ==> e.transferredAt <= created)
    requires created <= t && InOrderAfter(before, created) && InOrderAfter(later, t)
    requires forall i :: 0 <= i < |before| ==> before[i].at <= t
    ensures var past := Replay(h, before); var now := Replay(h, before + later);
            && Chained(past) && past.events <= now.events && Increasing(now.events)
            && (forall i :: 0 <= i < |now.events| ==> (now.events[i].transferredAt <= t <==> i < |past.events|))
  {
    var past := Replay(h, before);
    ReplayConcat(h, before, later);
    ChainedAlways(h, before);
    ReplayGrows(h, before, created);
    ReplayWithin(h, before, t);
    hide Replay, Chained, InOrderAfter;
    ReplayGrows(past, later, t);
    hide Increasing;
    var now := Replay(past, later);
    forall i | 0 <= i < |now.events| ensures now.events[i].transferredAt <= t <==> i < |past.events| {
      assert i < |past.events| ==> past.events[i] in past.events;
    }
  }

  lemma RestInOrder(trs: seq<Transfer>, n: nat, t: Time)
    requires n <= |trs| && (n < |trs| ==> trs[n].at > t)
    requires forall i, j :: 0 <= i < j < |trs| ==> trs[i].at < trs[j].at
    ensures InOrderAfter(trs[n..], t)
  {
    forall i | 0 <= i < |trs[n..]| ensures t < trs[n..][i].at {
      assert i > 0 ==> trs[n].at < trs[n + i].at;
    }
  }

  function Reversed(events: seq<Event>): (r: seq<Event>)
    ensures |r| == |events| && forall i :: 0 <= i < |r| ==> r[i] == events[|events| - 1 - i]
  {
    seq(|events|, i requires 0 <= i < |events| => events[|events| - 1 - i])
  }

  lemma OrderOfIncreasing(events: seq<Event>)
    requires Increasing(events)
    ensures OrderBy(events, LatestFirst()) == Reversed(events)
  {
    var r := Reversed(events);
    SortSorts(events, LatestFirst());
    SortPermutes(events, LatestFirst());
    assert NoRepeats(events);
    forall i, j | 0 <= i < j < |r| ensures r[i] != r[j] && NotBefore(r[i], r[j]) {
      assert events[|events| - 1 - j].transferredAt < events[|events| - 1 - i].transferredAt;
    }
    forall e ensures e in events <==> e in r {
      forall i | 0 <= i < |events| ensures events[i] in r {
        assert r[|events| - 1 - i] == events[i];
      }
    }
    SameElements(events, r);
    assert Antisymmetric(Sort(events, LatestFirst()), LatestFirst()) by {
      forall a, b | a in events && b in events && NotBefore(a, b) && NotBefore(b, a) ensures a == b {
        assert a.transferredAt == b.transferredAt;
      }
    }
    SortedUnique(Sort(events, LatestFirst()), r, LatestFirst());
  }

  lemma MatchedIn(listed: seq<Event>, w: Event, t: Time)
    requires w in listed && w.transferredAt <= t
    requires forall e :: e in listed && e.transferredAt <= t ==> e == w || e.transferredAt < w.transferredAt
    ensures var m := OrderBy(Where(listed, Until(t)), ByTimeDescending()); m != [] && m[0] == w
  {
    var found := Where(listed, Until(t));
    var m := OrderBy(found, ByTimeDescending());
    SortSorts(found, ByTimeDescending());
    assert w in found && w in m;
    var k :| 0 <= k < |m| && m[k] == w;
    assert m[0] in m;
    assert k > 0 ==> ByTimeDescending()(m[0], m[k]);
  }

  lemma NothingMatched(listed: seq<Event>, t: Time)
    requires forall e :: e in listed ==> e.transferredAt > t
    ensures OrderBy(Where(listed, Until(t)), ByTimeDescending()) == []
  {
    WhereNone(listed, Until(t));
  }

  /** Attribution by the history finds the last past event iff it is among the newest listed ones. */
  lemma BackfilledFrom(h: Owned, past: nat, t: Time)
    requires Increasing(h.events) && 0 < past <= |h.events|
    requires forall i :: 0 <= i < |h.events| ==> (h.events[i].transferredAt <= t <==> i < past)
    ensures Backfilled(h, t) ==
            if |h.events| - past < 500 then Attribution(h.events[past - 1].to, HistoricalBackfill, t)
            else Attribution(h.owner, CurrentOwnerFallback, t)
  {
    OrderOfIncreasing(h.events);
    var r := Reversed(h.events);
    var listed := List(h.events, BACKFILL_LIMIT);
    assert listed == Limit(r, LIST_LIMIT);
    hide List, OrderBy, Where, Reversed;
    var n := |h.events|;
    assert forall i :: 0 <= i < |listed| ==> listed[i] == h.events[n - 1 - i];
    if n - past < LIST_LIMIT {
      assert listed[n - past] == h.events[past - 1];
      MatchedIn(listed, h.events[past - 1], t);
    } else {
      NothingMatched(listed, t);
    }
  }

  /**
   * For a template created by `created` and transferred at increasing times, backfilling an assertion issued at t
   * gives the unit a snapshot at t would have given iff fewer than 500 transfers have been recorded since, or the
   * present owner happens to be that unit.
   */
  lemma BackfillAgreesIff(h: Owned, trs: seq<Transfer>, created: Time, t: Time)
    requires Chained(h) && Increasing(h.events) && (forall e :: e in h.events ==> e.transferredAt <= created)
    requires InOrderAfter(trs, created) && created <= t
    ensures var now := Replay(h, trs);
            Backfilled(now, t).unit == SnapshotUnit(h, trs, t) <==>
            |After(now.events, t)| < 500 || now.owner == SnapshotUnit(h, trs, t)
  {
    var before, later := trs[..MadeBy(trs, t)], trs[MadeBy(trs, t)..];
    assert trs == before + later;
    SplitInOrder(trs, created, t);
    hide Replay, Backfilled, InOrderAfter, Where, MadeBy;
    AgreesIff(h, before, later, created, t);
  }

  lemma SplitInOrder(trs: seq<Transfer>, created: Time, t: Time)
    requires InOrderAfter(trs, created)
    ensures var n := MadeBy(trs, t);
            && InOrderAfter(trs[..n], created) && InOrderAfter(trs[n..], t)
            && forall i :: 0 <= i < n ==> trs[..n][i].at <= t
  {
    RestInOrder(trs, MadeBy(trs, t), t);
  }

  lemma AgreesIff(h: Owned, before: seq<Transfer>, later: seq<Transfer>, created: Time, t: Time)
    requires Chained(h) && Increasing(h.events) && (forall e :: e in h.events ==> e.transferredAt <= created)
    requires created <= t && InOrderAfter(before, created) && InOrderAfter(later, t)
    requires forall i :: 0 <= i < |before| ==> before[i].at <= t
    ensures var now := Replay(h, before + later); var snapshot := Replay(h, before).owner;
            Backfilled(now, t).unit == snapshot <==> |After(now.events, t)| < LIST_LIMIT || now.owner == snapshot
  {
    SplitReplay(h, before, later, created, t);
    hide Replay, Backfilled, Increasing, InOrderAfter, Where;
    BackfilledAgainst(Replay(h, before + later), Replay(h, before), t);
  }

  lemma BackfilledAgainst(now: Owned, past: Owned, t: Time)
    requires Chained(past) && past.events <= now.events && Increasing(now.events)
    requires forall i :: 0 <= i < |now.events| ==> (now.events[i].transferredAt <= t <==> i < |past.events|)
    ensures Backfilled(now, t).unit == past.owner <==> |After(now.events, t)| < LIST_LIMIT || now.owner == past.owner
  {
    var n := |past.events|;
    BackfilledFrom(now, n, t);
    hide Backfilled, Where, Increasing;
    assert now.events == now.events[..n] + now.events[n..];
    AfterConcat(now.events[..n], now.events[n..], t);
    assert now.events[n - 1] == past.events[n - 1];
  }

  /** One transfer after the other, to unit n at time n. */
  function Handovers(n: nat): (trs: seq<Transfer>)
    ensures |trs| == n && forall i :: 0 <= i < n ==> trs[i] == Transfer(i + 1, i + 1, i + 1)
  {
    seq(n, i requires 0 <= i < n => Transfer(i + 1, i + 1, i + 1))
  }

  lemma {:induction false} HandoversReplay(n: nat)
    ensures var h := Replay(Created(0, 0, 0), Handovers(n));
            && h.owner == n && |h.events| == n + 1
            && forall i :: 0 <= i <= n ==> h.events[i].transferredAt == i && h.events[i].to == i
  {
    if n > 0 {
      HandoversReplay(n - 1);
      var last := Transfer(n, n, n);
      assert Handovers(n) == Handovers(n - 1) + [last];
      ReplayConcat(Created(0, 0, 0), Handovers(n - 1), [last]);
      var h := Replay(Created(0, 0, 0), Handovers(n - 1));
      assert Replay(h, [last]) == Transferred(h, last);
    }
  }

  /** An assertion issued right at the creation is attributed to the creating unit until the 500th handover. */
  lemma LostAfter500(n: nat)
    ensures SnapshotUnit(Created(0, 0, 0), Handovers(n), 0) == 0
    ensures var h := Replay(Created(0, 0, 0), Handovers(n));
            && (n < 500 ==> Backfilled(h, 0) == Attribution(0, HistoricalBackfill, 0))
            && (n >= 500 ==> Backfilled(h, 0) == Attribution(n, CurrentOwnerFallback, 0))
  {
    var h := Replay(Created(0, 0, 0), Handovers(n));
    HandoversReplay(n);
    assert MadeBy(Handovers(n), 0) == 0 && Handovers(n)[..0] == [];
    hide Replay, Backfilled, MadeBy;
    BackfilledFrom(h, 1, 0);
  }

  /** Before the creation there is nothing to match, and the present owner stands in. */
  lemma BeforeCreation(h: Owned, t: Time)
    requires forall e :: e in h.events ==> t < e.transferredAt
    ensures Backfilled(h, t) == Attribution(h.owner, CurrentOwnerFallback, t)
  {
    var listed := List(h.events, BACKFILL_LIMIT);
    assert forall e :: e in listed ==> e in h.events;
    hide List, OrderBy, Where;
    NothingMatched(listed, t);
  }

  /** With a backdated transfer the two disagree: the history keeps naming the later-dated receiver. */
  lemma BackdatedTransferDisagrees(a: UnitId, b: UnitId, c: UnitId)
    requires a != b && b != c
    ensures var h := Replay(Created(a, 0, 0), [Transfer(b, 1, 10), Transfer(c, 2, 5)]);
            h.owner == c && Backfilled(h, 12).unit == b
  {
    var h1 := Transferred(Created(a, 0, 0), Transfer(b, 1, 10));
    var h := Transferred(h1, Transfer(c, 2, 5));
    assert [Transfer(b, 1, 10), Transfer(c, 2, 5)][1..] == [Transfer(c, 2, 5)];
    assert Replay(h, [Transfer(c, 2, 5)][1..]) == h;
    var events := h.events;
    var w := Event(1, Some(a), b, 10);
    assert events == [Event(0, None, a, 0), w, Event(2, Some(b), c, 5)];
    var listed := List(events, BACKFILL_LIMIT);
    assert listed == OrderBy(events, LatestFirst());
    hide List, OrderBy, Where, Replay;
    assert w in events && w in listed;
    MatchedIn(listed, w, 12);
  }
}

/** One tenant's templates, assertions and reporting attributions. */
module Ownership {
  import opened Prelude
  import opened StableSort
  import opened Tables
  import opened OwnershipHistory

  type TemplateId = nat
  type AssertionId = nat

  datatype AssertionRow = AssertionRow(id: AssertionId, template: TemplateId, issuedAt: Time)

  datatype TransferError = TemplateNotFound | UnitNotFound

  function OldestFirst(): (AssertionRow, AssertionRow) -> bool {
    (a: AssertionRow, b: AssertionRow) => a.issuedAt < b.issuedAt || (a.issuedAt == b.issuedAt && a.id <= b.id)
  }

  function Unattributed(attributed: set<AssertionId>): AssertionRow -> bool {
    (a: AssertionRow) => a.id !in attributed
  }

  class Registry {
    var templates: map<TemplateId, Owned>
    var assertions: seq<AssertionRow>
    var attributions: map<AssertionId, Attribution>

    ghost predicate Valid()
      reads this
    {
      && (forall b :: b in templates ==> Chained(templates[b]))
      && (forall a :: a in assertions ==> a.template in templates)
      && DistinctIds(assertions)
    }

    constructor ()
      ensures Valid() && templates == map[] && assertions == [] && attributions == map[]
    {
      templates, assertions, attributions := map[], [], map[];
    }

    /** `owner` is a unit of the tenant, by default its institution. */
    method CreateTemplate(b: TemplateId, owner: UnitId, units: set<UnitId>, event: EventId, now: Time)
      returns (r: Result<(), TransferError>)
      requires Valid() && b !in templates
      modifies this`templates
      ensures Valid() && (r.Ok? <==> owner in units)
      ensures r.Err? ==> r.error == UnitNotFound
      ensures templates == if r.Ok? then old(templates)[b := Owned(owner, [Event(event, None, owner, now)])]
                           else old(templates)
    {
      if owner !in units {
        return Err(UnitNotFound);
      }
      templates := templates[b := Owned(owner, [])];
      templates := templates[b := templates[b].(events := templates[b].events + [Event(event, None, owner, now)])];
      assert [] + [Event(event, None, owner, now)] == [Event(event, None, owner, now)];
      assert templates == old(templates)[b := Created(owner, event, now)];
      r := Ok(());
    }

    /** The flag tells whether ownership changed. */
    method TransferOwnership(b: TemplateId, tr: Transfer, units: set<UnitId>) returns (r: Result<bool, TransferError>)
      requires Valid()
      modifies this`templates
      ensures Valid()
      ensures r == if b !in old(templates) then Err(TemplateNotFound) else if tr.to !in units then Err(UnitNotFound)
                   else Ok(old(templates[b]).owner != tr.to)
      ensures templates == if r.Ok? then old(templates)[b := Transferred(old(templates[b]), tr)] else old(templates)
      ensures r == Ok(true) ==>
                var before := old(templates[b]);
                templates[b] == Owned(tr.to, before.events + [Event(tr.id, Some(before.owner), tr.to, tr.at)])
      ensures r != Ok(true) ==> templates == old(templates)
    {
      if b !in templates {
        return Err(TemplateNotFound);
      }
      if tr.to !in units {
        return Err(UnitNotFound);
      }
      ChainedAlways(templates[b], [tr]);
      assert Replay(templates[b], [tr]) == Transferred(templates[b], tr);
      hide Chained;
      if templates[b].owner == tr.to {
        return Ok(false);
      }
      var from := templates[b].owner;
      templates := templates[b := templates[b].(owner := tr.to)];
      var event := Event(tr.id, Some(from), tr.to, tr.at);
      templates := templates[b := templates[b].(events := templates[b].events + [event])];
      r := Ok(true);
    }

    /** A new assertion is attributed to the owner of the moment. */
    method CreateAssertion(a: AssertionRow)
      requires Valid() && a.template in templates && forall x :: x in assertions ==> x.id != a.id
      modifies this`assertions, this`attributions
      ensures Valid() && assertions == old(assertions) + [a]
      ensures attributions ==
              old(attributions)[a.id := Attribution(templates[a.template].owner, IssuanceSnapshot, a.issuedAt)]
    {
      assertions := assertions + [a];
      attributions := attributions[a.id := Attribution(templates[a.template].owner, IssuanceSnapshot, a.issuedAt)];
    }

    /** Every assertion without an attribution, and no other, gets the one its template's history yields. */
    method Backfill() returns (filled: nat)
      requires Valid()
      modifies this`attributions
      ensures Valid()
      ensures FilledExactly(templates, assertions, old(attributions), attributions)
      ensures filled == |UnattributedIds(assertions, old(attributions).Keys)|
      ensures forall r :: r in assertions && r.id !in old(attributions) ==>
                && r.template in templates && r.id in attributions
                && AttributesTo(attributions[r.id], templates[r.template], r.issuedAt)
    {
      ghost var before := attributions;
      var missing := Missing(assertions, attributions.Keys);
      MissingDistinct(assertions, before.Keys);
      hide *;
      NoneFilled(templates, before, missing);
      for k := 0 to |missing|
        invariant FilledUpTo(templates, before, attributions, missing, k)
      {
        var row := missing[k];
        MissingRow(assertions, before.Keys, k);
        FillOne(templates, before, attributions, missing, k);
        attributions := attributions[row.id := Backfilled(templates[row.template], row.issuedAt)];
      }
      AllFilled(templates, assertions, before, attributions);
      FilledShows(templates, assertions, before, attributions);
      filled := |missing|;
    }
  }

  /** `rows`, none of which had an attribution, have got the one their history yields, and nothing else has changed. */
  ghost predicate Filled(templates: map<TemplateId, Owned>, before: map<AssertionId, Attribution>,
                         after: map<AssertionId, Attribution>, rows: seq<AssertionRow>) {
    && after.Keys == before.Keys + Ids(rows)
    && (forall a :: a in before ==> after[a] == before[a])
    && (forall r :: r in rows ==>
          r.template in templates && after[r.id] == Backfilled(templates[r.template], r.issuedAt))
  }

  ghost predicate FilledUpTo(templates: map<TemplateId, Owned>, before: map<AssertionId, Attribution>,
                             after: map<AssertionId, Attribution>, rows: seq<AssertionRow>, k: nat) {
    k <= |rows| && Filled(templates, before, after, rows[..k])
  }

  lemma NoneFilled(templates: map<TemplateId, Owned>, before: map<AssertionId, Attribution>, rows: seq<AssertionRow>)
    ensures FilledUpTo(templates, before, before, rows, 0)
  {
  }

  lemma FillOne(templates: map<TemplateId, Owned>, before: map<AssertionId, Attribution>,
                after: map<AssertionId, Attribution>, rows: seq<AssertionRow>, k: nat)
    requires k < |rows| && DistinctIds(rows) && FilledUpTo(templates, before, after, rows, k)
    requires rows[k].id !in before && rows[k].template in templates
    ensures var row := rows[k];
            var more := after[row.id := Backfilled(templates[row.template], row.issuedAt)];
            FilledUpTo(templates, before, more, rows, k + 1)
  {
    FillRow(templates, before, after, rows[..k], rows[k]);
    assert rows[..k + 1] == rows[..k] + [rows[k]];
    hide Filled;
  }

  lemma FillRow(templates: map<TemplateId, Owned>, before: map<AssertionId, Attribution>,
                after: map<AssertionId, Attribution>, rows: seq<AssertionRow>, row: AssertionRow)
    requires Filled(templates, before, after, rows)
    requires row.id !in before && row.template in templates && forall r :: r in rows ==> r.id != row.id
    ensures Filled(templates, before, after[row.id := Backfilled(templates[row.template], row.issuedAt)], rows + [row])
  {
    hide Backfilled;
    IdsCons(rows, row);
    var more := after[row.id := Backfilled(templates[row.template], row.issuedAt)];
    hide Ids;
    assert more.Keys == after.Keys + {row.id};
    forall r | r in rows + [row]
      ensures r.template in templates && more[r.id] == Backfilled(templates[r.template], r.issuedAt)
    {
      assert r in rows || r == row;
    }
  }

  lemma IdsCons(rows: seq<AssertionRow>, row: AssertionRow)
    ensures Ids(rows + [row]) == Ids(rows) + {row.id} && forall r :: r in rows ==> r.id in Ids(rows)
  {
  }

  ghost predicate FilledExactly(templates: map<TemplateId, Owned>, assertions: seq<AssertionRow>,
                                before: map<AssertionId, Attribution>, after: map<AssertionId, Attribution>) {
    && after.Keys == before.Keys + UnattributedIds(assertions, before.Keys)
    && (forall a :: a in before ==> after[a] == before[a])
    && (forall r :: r in assertions && r.id !in before.Keys ==>
          r.template in templates && after[r.id] == Backfilled(templates[r.template], r.issuedAt))
  }

  lemma AllFilled(templates: map<TemplateId, Owned>, assertions: seq<AssertionRow>,
                  before: map<AssertionId, Attribution>, after: map<AssertionId, Attribution>)
    requires DistinctIds(assertions)
    requires var missing := Missing(assertions, before.Keys); FilledUpTo(templates, before, after, missing, |missing|)
    ensures FilledExactly(templates, assertions, before, after)
  {
    var missing := Missing(assertions, before.Keys);
    assert missing[..|missing|] == missing;
    assert Filled(templates, before, after, missing);
    hide *;
    MissingFilled(templates, assertions, before, after);
  }

  lemma FilledShows(templates: map<TemplateId, Owned>, assertions: seq<AssertionRow>,
                    before: map<AssertionId, Attribution>, after: map<AssertionId, Attribution>)
    requires FilledExactly(templates, assertions, before, after)
    ensures forall r :: r in assertions && r.id !in before ==>
              && r.template in templates && r.id in after
              && AttributesTo(after[r.id], templates[r.template], r.issuedAt)
  {
    hide Backfilled, AttributesTo;
    forall r | r in assertions && r.id !in before
      ensures r.template in templates && r.id in after && AttributesTo(after[r.id], templates[r.template], r.issuedAt)
    {
      BackfilledShows(templates[r.template], r.issuedAt);
    }
  }

  lemma MissingFilled(templates: map<TemplateId, Owned>, assertions: seq<AssertionRow>,
                      before: map<AssertionId, Attribution>, after: map<AssertionId, Attribution>)
    requires Filled(templates, before, after, Missing(assertions, before.Keys)) && DistinctIds(assertions)
    ensures FilledExactly(templates, assertions, before, after)
  {
    MissingDistinct(assertions, before.Keys);
    MissingElements(assertions, before.Keys);
    hide Missing, Backfilled, DistinctIds, Ids, UnattributedIds;
  }

  ghost function Ids(rows: seq<AssertionRow>): set<AssertionId> {
    set a | a in rows :: a.id
  }

  function Missing(assertions: seq<AssertionRow>, attributed: set<AssertionId>): seq<AssertionRow> {
    OrderBy(Where(assertions, Unattributed(attributed)), OldestFirst())
  }

  lemma MissingElements(assertions: seq<AssertionRow>, attributed: set<AssertionId>)
    ensures forall a :: a in Missing(assertions, attributed) <==> a in assertions && a.id !in attributed
  {
  }

  lemma MissingRow(assertions: seq<AssertionRow>, attributed: set<AssertionId>, k: nat)
    requires k < |Missing(assertions, attributed)|
    ensures var row := Missing(assertions, attributed)[k]; row in assertions && row.id !in attributed
  {
    MissingElements(assertions, attributed);
    hide Missing;
    assert Missing(assertions, attributed)[k] in Missing(assertions, attributed);
  }

  ghost predicate DistinctIds(rows: seq<AssertionRow>) {
    forall i, j :: 0 <= i < j < |rows| ==> rows[i].id != rows[j].id
  }

  lemma PartDistinct(rows: seq<AssertionRow>, part: seq<AssertionRow>)
    requires DistinctIds(rows) && NoRepeats(part) && forall a :: a in part ==> a in rows
    ensures DistinctIds(part)
  {
    forall i, j | 0 <= i < j < |part| ensures part[i].id != part[j].id {
      assert part[i] != part[j] && part[i] in part && part[j] in part;
    }
  }

  lemma MissingDistinct(assertions: seq<AssertionRow>, attributed: set<AssertionId>)
    requires DistinctIds(assertions)
    ensures DistinctIds(Missing(assertions, attributed))
    ensures Ids(Missing(assertions, attributed)) == UnattributedIds(assertions, attributed)
    ensures |Missing(assertions, attributed)| == |UnattributedIds(assertions, attributed)|
  {
    assert NoRepeats(assertions);
    WhereNoRepeats(assertions, Unattributed(attributed));
    OrderByNoRepeats(Where(assertions, Unattributed(attributed)), OldestFirst());
    var missing := Missing(assertions, attributed);
    assert NoRepeats(missing);
    MissingElements(assertions, attributed);
    hide Missing, NoRepeats, DistinctIds;
    PartDistinct(assertions, missing);
    DistinctIdCount(missing);
  }

  ghost function UnattributedIds(assertions: seq<AssertionRow>, attributed: set<AssertionId>): set<AssertionId> {
    set a | a in assertions && a.id !in attributed :: a.id
  }

  lemma {:induction false} DistinctIdCount(rows: seq<AssertionRow>)
    requires DistinctIds(rows)
    ensures |Ids(rows)| == |rows|
  {
    if rows != [] {
      DistinctIdCount(rows[1..]);
      assert rows == [rows[0]] + rows[1..];
      assert Ids(rows) == {rows[0].id} + Ids(rows[1..]);
      assert rows[0].id !in Ids(rows[1..]);
    }
  }
}
