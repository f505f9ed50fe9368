/** Rows collected group by group, as the comparison and hierarchy reports do it. */
module Grouping {
  import opened Prelude
  import opened StableSort
  import opened Tables
  import opened Partition
  import opened ReportRows

  datatype GroupRow<K> = GroupRow(key: K, engagement: Engagement)

  /** The group of key `k`. */
  function GroupOf<K(==, !new)>(rows: seq<Row>, key: Row -> K, from: Option<Day>, to: Option<Day>, k: K): GroupRow<K> {
    GroupRow(k, Engaged(Class(rows, key, k), from, to))
  }

  /** One group per key that occurs. */
  function GroupRows<K(==, !new)>(rows: seq<Row>, key: Row -> K, from: Option<Day>, to: Option<Day>): seq<GroupRow<K>> {
    var ks := Keys(rows, key);
    seq(|ks|, i requires 0 <= i < |ks| => GroupOf(rows, key, from, to, ks[i]))
  }

  /** Most issued first, then by identifier. */
  function ByIssued<K>(le: (K, K) -> bool): (GroupRow<K>, GroupRow<K>) -> bool {
    (a: GroupRow<K>, b: GroupRow<K>) =>
      a.engagement.issuedCount > b.engagement.issuedCount
      || (a.engagement.issuedCount == b.engagement.issuedCount && le(a.key, b.key))
  }

  function Report<K(==, !new)>(rows: seq<Row>, key: Row -> K, from: Option<Day>, to: Option<Day>, le: (K, K) -> bool)
    : seq<GroupRow<K>>
  {
    OrderBy(GroupRows(rows, key, from, to), ByIssued(le))
  }

  lemma ClassIsWhere<K(!new)>(rows: seq<Row>, sel: Row -> bool, key: Row -> K, k: K, both: Row -> bool)
    requires forall r :: r in rows ==> (both(r) <==> sel(r) && HasKey(key, k)(r))
    ensures Class(Where(rows, sel), key, k) == Where(rows, both)
  {
    WhereTwice(rows, sel, HasKey(key, k), both);
  }

  /** A report has one row for each key that occurs, and that row is its group. */
  lemma ReportKeys<K(!new)>(rows: seq<Row>, key: Row -> K, from: Option<Day>, to: Option<Day>, le: (K, K) -> bool)
    ensures var report := Report(rows, key, from, to, le);
            && (forall g :: g in report ==> g == GroupOf(rows, key, from, to, g.key)
                                            && exists r :: r in rows && key(r) == g.key)
            && (forall r :: r in rows ==> exists g :: g in report && g.key == key(r))
            && (forall i, j :: 0 <= i < j < |report| ==> report[i].key != report[j].key)
  {
    var ks, gs := Keys(rows, key), GroupRows(rows, key, from, to);
    var report := Report(rows, key, from, to, le);
    hide Keys, GroupOf;
    forall i, j | 0 <= i < j < |gs| ensures gs[i] != gs[j] {
      assert GroupOf(rows, key, from, to, ks[i]).key == ks[i] by { GroupKeeps(rows, key, from, to, ks[i]); }
      assert GroupOf(rows, key, from, to, ks[j]).key == ks[j] by { GroupKeeps(rows, key, from, to, ks[j]); }
    }
    OrderByNoRepeats(gs, ByIssued(le));
    forall g | g in gs ensures g == GroupOf(rows, key, from, to, g.key) && g.key in ks {
      var i :| 0 <= i < |gs| && gs[i] == g;
      GroupKeeps(rows, key, from, to, ks[i]);
    }
    forall r | r in rows ensures exists g :: g in report && g.key == key(r) {
      assert key(r) in ks;
      var i :| 0 <= i < |ks| && ks[i] == key(r);
      GroupKeeps(rows, key, from, to, ks[i]);
      assert gs[i] in gs && gs[i] in report;
    }
  }

  lemma GroupKeeps<K(!new)>(rows: seq<Row>, key: Row -> K, from: Option<Day>, to: Option<Day>, k: K)
    ensures GroupOf(rows, key, from, to, k).key == k
  {
  }

  /** Most issued first; the comparator decides between equal counts. */
  ghost predicate Ranked<K>(report: seq<GroupRow<K>>, le: (K, K) -> bool) {
    forall i, j :: 0 <= i < j < |report| ==>
      || report[i].engagement.issuedCount > report[j].engagement.issuedCount
      || (report[i].engagement.issuedCount == report[j].engagement.issuedCount && le(report[i].key, report[j].key))
  }

  lemma ReportRanked<K(!new)>(rows: seq<Row>, key: Row -> K, from: Option<Day>, to: Option<Day>, le: (K, K) -> bool)
    ensures TotalPreorder(le) ==> Ranked(Report(rows, key, from, to, le), le)
  {
    if TotalPreorder(le) {
      var order: (GroupRow<K>, GroupRow<K>) -> bool := ByIssued(le);
      ByIssuedPreorder(le);
      hide TotalPreorder, GroupRows;
      SortSorts(GroupRows(rows, key, from, to), order);
      var report := Report(rows, key, from, to, le);
      forall i, j | 0 <= i < j < |report| ensures order(report[i], report[j]) { }
    }
  }

  lemma ByIssuedPreorder<K(!new)>(le: (K, K) -> bool)
    requires TotalPreorder(le)
    ensures TotalPreorder<GroupRow<K>>(ByIssued(le))
  {
    var order: (GroupRow<K>, GroupRow<K>) -> bool := ByIssued(le);
    forall a: GroupRow<K>, b: GroupRow<K> ensures order(a, b) || order(b, a) {
      assert le(a.key, b.key) || le(b.key, a.key);
    }
    forall a: GroupRow<K>, b: GroupRow<K>, c: GroupRow<K> | order(a, b) && order(b, c) ensures order(a, c) {
      assert le(a.key, b.key) && le(b.key, c.key) ==> le(a.key, c.key);
    }
  }

  /**
   * What a grouped report shows, when `counting(k)` tells which rows count for group k: one row for each group that some
   * row counts for, which measures these rows; most issued first.
   */
  ghost predicate Shows<K(!new)>(report: seq<GroupRow<K>>, rows: seq<Row>, counting: K -> Row -> bool,
                                 from: Option<Day>, to: Option<Day>, le: (K, K) -> bool)
  {
    && (forall i, j :: 0 <= i < j < |report| ==> report[i].key != report[j].key)
    && (forall g :: g in report ==> exists r :: r in rows && counting(g.key)(r))
    && (forall r, k :: r in rows && counting(k)(r) ==> exists g :: g in report && g.key == k)
    && (TotalPreorder(le) ==> Ranked(report, le))
    && (forall g :: g in report ==> Measures(g.engagement, rows, counting(g.key), from, to))
  }

  lemma GroupMeasures<K(!new)>(rows: seq<Row>, sel: Row -> bool, key: Row -> K, counting: K -> Row -> bool,
                               from: Option<Day>, to: Option<Day>, k: K)
    requires forall r :: r in rows ==> (counting(k)(r) <==> sel(r) && HasKey(key, k)(r))
    ensures Measures(GroupOf(Where(rows, sel), key, from, to, k).engagement, rows, counting(k), from, to)
  {
    ClassIsWhere(rows, sel, key, k, counting(k));
    hide Class, Where, Engaged, Measures;
    EngagedMeasures(rows, counting(k), from, to);
  }

  lemma ReportShows<K(!new)>(rows: seq<Row>, sel: Row -> bool, key: Row -> K, counting: K -> Row -> bool,
                             from: Option<Day>, to: Option<Day>, le: (K, K) -> bool)
    requires forall r, k :: r in rows ==> (counting(k)(r) <==> sel(r) && key(r) == k)
    ensures Shows(Report(Where(rows, sel), key, from, to, le), rows, counting, from, to, le)
  {
    var chosen := Where(rows, sel);
    var report := Report(chosen, key, from, to, le);
    ReportKeys(chosen, key, from, to, le);
    ReportRanked(chosen, key, from, to, le);
    hide Where, Report, GroupOf, Ranked, TotalPreorder, Measures;
    forall g | g in report ensures Measures(g.engagement, rows, counting(g.key), from, to) {
      GroupMeasures(rows, sel, key, counting, from, to, g.key);
    }
    forall g | g in report ensures exists r :: r in rows && counting(g.key)(r) {
      var r :| r in chosen && key(r) == g.key;
      assert counting(g.key)(r);
    }
    forall r, k | r in rows && counting(k)(r) ensures exists g :: g in report && g.key == k {
      assert r in chosen && key(r) == k;
    }
  }

  function IssuedCount<K>(): GroupRow<K> -> int {
    (g: GroupRow<K>) => g.engagement.issuedCount
  }

  function EventCount<K>(t: EventType): GroupRow<K> -> int {
    (g: GroupRow<K>) => Get(g.engagement.counts, t)
  }

  function MakeGroup<K(==, !new)>(rows: seq<Row>, key: Row -> K, from: Option<Day>, to: Option<Day>): K -> GroupRow<K> {
    (k: K) => GroupOf(rows, key, from, to, k)
  }

  function Compose<K, G>(make: K -> G, f: G -> int): K -> int {
    (k: K) => f(make(k))
  }

  lemma {:induction false} SumMap<K(!new), G>(ks: seq<K>, gs: seq<G>, make: K -> G, f: G -> int)
    requires |gs| == |ks| && forall i :: 0 <= i < |ks| ==> gs[i] == make(ks[i])
    ensures Sum(gs, f) == Sum(ks, Compose(make, f))
  {
    if ks != [] {
      assert gs[0] == make(ks[0]);
      SumMap(ks[1..], gs[1..], make, f);
    }
  }

  lemma SumReport<K(!new)>(rows: seq<Row>, key: Row -> K, from: Option<Day>, to: Option<Day>, le: (K, K) -> bool,
          f: GroupRow<K> -> int)
    ensures Sum(Report(rows, key, from, to, le), f) == Sum(Keys(rows, key), Compose(MakeGroup(rows, key, from, to), f))
  {
    hide GroupOf, Keys, Sum;
    OrderBySum(GroupRows(rows, key, from, to), ByIssued(le), f);
    SumMap(Keys(rows, key), GroupRows(rows, key, from, to), MakeGroup(rows, key, from, to), f);
  }

  lemma KeysCover<K(!new)>(rows: seq<Row>, key: Row -> K)
    ensures Covers(Keys(rows, key), rows, key) && Among(rows, key, Keys(rows, key)) == rows
  {
    hide Keys;
    WhereAll(rows, KeyAmong(key, Keys(rows, key)));
  }

  /** Event counts of the groups add up to the whole; issued counts do iff no assertion falls into two groups. */
  lemma GroupsPartition<K(!new)>(rows: seq<Row>, key: Row -> K, from: Option<Day>, to: Option<Day>, le: (K, K) -> bool)
    ensures var report := Report(rows, key, from, to, le); var whole := Engaged(rows, from, to);
            && (forall t :: Sum(report, EventCount(t)) == Get(whole.counts, t))
            && Sum(report, IssuedCount()) >= whole.issuedCount
            && (Sum(report, IssuedCount()) == whole.issuedCount <==> OneKey(rows, key, AssertionOf()))
  {
    KeysCover(rows, key);
    EngagedMeans(rows, from, to);
    hide Keys, Engaged, Report, Among, Get;
    forall t ensures Sum(Report(rows, key, from, to, le), EventCount(t)) == Get(Engaged(rows, from, to).counts, t) {
      EventsPartition(rows, key, from, to, le, t);
    }
    IssuedPartition(rows, key, from, to, le);
  }

  lemma EventsPartition<K(!new)>(rows: seq<Row>, key: Row -> K, from: Option<Day>, to: Option<Day>,
          le: (K, K) -> bool, t: EventType)
    ensures Sum(Report(rows, key, from, to, le), EventCount(t)) == CountIf(rows, Counted(t, from, to))
  {
    var ks := Keys(rows, key);
    var per := Compose(MakeGroup(rows, key, from, to), EventCount(t));
    KeysCover(rows, key);
    SumReport(rows, key, from, to, le, EventCount(t));
    CountPartition(rows, key, ks, Counted(t, from, to));
    forall k | k in ks ensures per(k) == CountPer(rows, key, Counted(t, from, to))(k) {
      EngagedMeans(Class(rows, key, k), from, to);
    }
    hide Keys, Report, Engaged, Get;
    SumSame(ks, per, CountPer(rows, key, Counted(t, from, to)));
  }

  lemma IssuedPartition<K(!new)>(rows: seq<Row>, key: Row -> K, from: Option<Day>, to: Option<Day>, le: (K, K) -> bool)
    ensures var sum := Sum(Report(rows, key, from, to, le), IssuedCount());
            && sum >= |Assertions(rows)|
            && (sum == |Assertions(rows)| <==> OneKey(rows, key, AssertionOf()))
  {
    var ks := Keys(rows, key);
    var per := Compose(MakeGroup(rows, key, from, to), IssuedCount());
    KeysCover(rows, key);
    SumReport(rows, key, from, to, le, IssuedCount());
    DistinctPartition(rows, key, ks, AssertionOf());
    forall k | k in ks ensures per(k) == DistinctPer(rows, key, AssertionOf())(k) {
      EngagedMeans(Class(rows, key, k), from, to);
    }
    hide Keys, Report, Engaged, OneKey;
    SumSame(ks, per, DistinctPer(rows, key, AssertionOf()));
  }

  /** The map of groups, in order of first appearance, with their aggregates. */
  class Groups<K(==, !new)> {
    const key: Row -> K
    const from: Option<Day>
    const to: Option<Day>
    var order: seq<K>
    var aggregates: map<K, Aggregate>
    ghost var seen: seq<Row>

    ghost predicate Valid()
      reads this
    {
      && order == Keys(seen, key)
      && aggregates.Keys == (set k | k in order)
      && forall k :: k in order ==> aggregates[k] == AggregateOf(Class(seen, key, k), from, to)
    }

    constructor (key: Row -> K, from: Option<Day>, to: Option<Day>)
      ensures Valid() && fresh(this) && seen == [] && this.key == key && this.from == from && this.to == to
    {
      this.key, this.from, this.to := key, from, to;
      order, aggregates, seen := [], map[], [];
    }

    method Add(r: Row)
      requires Valid()
      modifies this
      ensures Valid() && seen == old(seen) + [r]
    {
      var k := key(r);
      AddKeeps(seen, key, from, to, r);
      hide Keys, Class, AggregateOf, AddRow;
      var group := if k in aggregates then aggregates[k] else EMPTY_AGGREGATE;
      if k !in aggregates {
        order := order + [k];
      }
      aggregates := aggregates[k := AddRow(group, r, from, to)];
      seen := seen + [r];
    }

    method Finish(le: (K, K) -> bool) returns (report: seq<GroupRow<K>>)
      requires Valid()
      ensures report == Report(seen, key, from, to, le)
    {
      hide Keys, Class, AggregateOf, Finalize;
      var ks, groups := order, aggregates;
      var rows := seq(|ks|, i requires 0 <= i < |ks| && ks[i] in groups => GroupRow(ks[i], Finalize(groups[ks[i]])));
      assert rows == GroupRows(seen, key, from, to);
      report := OrderBy(rows, ByIssued(le));
    }
  }

  lemma AggregateAppend(rows: seq<Row>, r: Row, from: Option<Day>, to: Option<Day>)
    ensures AggregateOf(rows + [r], from, to) == AddRow(AggregateOf(rows, from, to), r, from, to)
  {
    hide AddRow;
    assert (rows + [r])[..|rows + [r]| - 1] == rows;
  }

  lemma KeysAppend<K(!new)>(rows: seq<Row>, r: Row, key: Row -> K)
    ensures Keys(rows + [r], key) == if key(r) in Keys(rows, key) then Keys(rows, key) else Keys(rows, key) + [key(r)]
  {
    assert (rows + [r])[..|rows + [r]| - 1] == rows;
  }

  lemma ClassAppend<K(!new)>(rows: seq<Row>, r: Row, key: Row -> K, k: K)
    ensures Class(rows + [r], key, k) == if key(r) == k then Class(rows, key, k) + [r] else Class(rows, key, k)
  {
    WhereAppend(rows, r, HasKey(key, k));
    hide Where;
    assert Class(rows, key, k) + [] == Class(rows, key, k);
  }

  lemma ClassOfNewKey<K(!new)>(rows: seq<Row>, key: Row -> K, k: K)
    requires k !in Keys(rows, key)
    ensures Class(rows, key, k) == []
  {
    hide Keys;
    WhereNone(rows, HasKey(key, k));
  }

  /** One more row changes only the aggregate of its own key. */
  lemma AddKeeps<K(!new)>(seen: seq<Row>, key: Row -> K, from: Option<Day>, to: Option<Day>, r: Row)
    ensures Keys(seen + [r], key) == if key(r) in Keys(seen, key) then Keys(seen, key) else Keys(seen, key) + [key(r)]
    ensures forall k :: k != key(r) ==> Class(seen + [r], key, k) == Class(seen, key, k)
    ensures var before :=
              if key(r) !in Keys(seen, key) then EMPTY_AGGREGATE else AggregateOf(Class(seen, key, key(r)), from, to);
            AggregateOf(Class(seen + [r], key, key(r)), from, to) == AddRow(before, r, from, to)
  {
    KeysAppend(seen, r, key);
    forall k
      ensures Class(seen + [r], key, k) == if key(r) == k then Class(seen, key, k) + [r] else Class(seen, key, k)
    {
      ClassAppend(seen, r, key, k);
    }
    if key(r) !in Keys(seen, key) {
      ClassOfNewKey(seen, key, key(r));
      assert AggregateOf([], from, to) == EMPTY_AGGREGATE;
    }
    hide Keys, Class, AggregateOf, AddRow;
    AggregateAppend(Class(seen, key, key(r)), r, from, to);
  }
}

/** The engagement, comparison and trend reports over the same rows. */
module Reports {
  import opened Prelude
  import opened StableSort
  import opened Tables
  import opened Partition
  import opened ReportRows
  import opened Grouping

  function IncludedBy(f: Filters): Row -> bool {
    (r: Row) => Matches(r, f) && InRange(r.issued, f.from, f.to)
  }

  function Included(rows: seq<Row>, f: Filters): seq<Row> {
    Where(rows, IncludedBy(f))
  }

  function EngagementOf(rows: seq<Row>, f: Filters): Engagement {
    Engaged(Included(rows, f), f.from, f.to)
  }

  /** The assertion's template, unit, lifecycle state and issue day are those asked for. */
  ghost predicate Selected(r: Row, f: Filters) {
    && (f.template == None || f.template == Some(r.template)) && (f.unit == None || f.unit == Some(r.unit))
    && StateSelected(r, f.state)
    && (f.from.Some? ==> f.from.value <= r.issued) && (f.to.Some? ==> r.issued <= f.to.value)
  }

  /** Revoked if marked, else where the latest event leads, else active; pending review is suspended for an appeal. */
  ghost predicate StateSelected(r: Row, state: Option<StateFilter>) {
    var row := r.lifecycle;
    match state
    case None => true
    case Some(PendingReview) =>
      && row.revokedAt == None && row.latestToState == Some(LifecycleLedger.Suspended)
      && row.latestReasonCode == Some(LifecycleLedger.AppealPending)
    case Some(InState(s)) =>
      if row.revokedAt != None then s == LifecycleLedger.Revoked
      else if row.latestToState == None then s == LifecycleLedger.Active
      else row.latestToState == Some(s)
  }

  ghost function SelectedBy(f: Filters): Row -> bool {
    (r: Row) => Selected(r, f)
  }

  lemma IncludedIffSelected(r: Row, f: Filters)
    ensures IncludedBy(f)(r) <==> Selected(r, f)
    ensures Matches(r, f) <==> Selected(r, f.(from := None, to := None))
  {
  }

  lemma IncludedIsSelected(rows: seq<Row>, f: Filters)
    ensures Included(rows, f) == Where(rows, SelectedBy(f))
  {
    forall r ensures IncludedBy(f)(r) <==> SelectedBy(f)(r) {
      IncludedIffSelected(r, f);
    }
    hide Where, IncludedBy, Selected;
    WhereSame(rows, IncludedBy(f), SelectedBy(f));
  }

  lemma EngagementMeasures(rows: seq<Row>, f: Filters)
    ensures Measures(EngagementOf(rows, f), rows, SelectedBy(f), f.from, f.to)
  {
    IncludedIsSelected(rows, f);
    hide Where, Measures, Engaged, Selected;
    EngagedMeasures(rows, SelectedBy(f), f.from, f.to);
  }

  /** One loop over the rows, with sets and counters. */
  method SummarizeEngagement(rows: seq<Row>, f: Filters) returns (e: Engagement)
    ensures e == EngagementOf(rows, f) && Measures(e, rows, SelectedBy(f), f.from, f.to)
  {
    EngagementMeasures(rows, f);
    hide Matches, InRange, AddRow, Finalize, Measures;
    var aggregate := EMPTY_AGGREGATE;
    for n := 0 to |rows|
      invariant aggregate == AggregateOf(Included(rows[..n], f), f.from, f.to)
    {
      var r := rows[n];
      OneMoreIncluded(rows, n, f);
      if Matches(r, f) && InRange(r.issued, f.from, f.to) {
        aggregate := AddRow(aggregate, r, f.from, f.to);
      }
    }
    assert rows[..|rows|] == rows;
    e := Finalize(aggregate);
  }

  lemma OneMoreIncluded(rows: seq<Row>, n: nat, f: Filters)
    requires n < |rows|
    ensures var before, after := Included(rows[..n], f), Included(rows[..n + 1], f);
            if Matches(rows[n], f) && InRange(rows[n].issued, f.from, f.to) then
              after == before + [rows[n]]
              && AggregateOf(after, f.from, f.to) == AddRow(AggregateOf(before, f.from, f.to), rows[n], f.from, f.to)
            else after == before
  {
    WhereAppend(rows[..n], rows[n], IncludedBy(f));
    assert rows[..n + 1] == rows[..n] + [rows[n]];
    var before := Included(rows[..n], f);
    assert (before + [rows[n]])[..|before + [rows[n]]| - 1] == before;
    hide Where, AddRow, Matches, InRange;
  }

  // Comparison.

  datatype GroupBy = ByTemplate | ByUnit

  datatype GroupId = OfTemplate(template: TemplateId) | OfUnit(unit: UnitId)

  function GroupKey(groupBy: GroupBy): Row -> GroupId {
    (r: Row) => if groupBy.ByTemplate? then OfTemplate(r.template) else OfUnit(r.unit)
  }

  function ComparisonOf(rows: seq<Row>, f: Filters, groupBy: GroupBy, le: (GroupId, GroupId) -> bool)
    : seq<GroupRow<GroupId>>
  {
    Report(Included(rows, f), GroupKey(groupBy), f.from, f.to, le)
  }

  ghost predicate FallsInto(r: Row, groupBy: GroupBy, k: GroupId) {
    k == match groupBy case ByTemplate => OfTemplate(r.template) case ByUnit => OfUnit(r.unit)
  }

  ghost function CountingIn(f: Filters, groupBy: GroupBy): GroupId -> Row -> bool {
    (k: GroupId) => (r: Row) => Selected(r, f) && FallsInto(r, groupBy, k)
  }

  /** The groups of a comparison are those of the selected rows. */
  lemma ComparisonShows(rows: seq<Row>, f: Filters, groupBy: GroupBy, le: (GroupId, GroupId) -> bool)
    ensures Shows(ComparisonOf(rows, f, groupBy, le), rows, CountingIn(f, groupBy), f.from, f.to, le)
  {
    IncludedIsSelected(rows, f);
    forall r, k | r in rows
      ensures CountingIn(f, groupBy)(k)(r) <==> SelectedBy(f)(r) && GroupKey(groupBy)(r) == k
    {
    }
    hide Shows, Report, Where, Selected;
    ReportShows(rows, SelectedBy(f), GroupKey(groupBy), CountingIn(f, groupBy), f.from, f.to, le);
  }

  /** `le` is the order that `localeCompare` puts on group identifiers. */
  method SummarizeComparison(rows: seq<Row>, f: Filters, groupBy: GroupBy, le: (GroupId, GroupId) -> bool)
    returns (report: seq<GroupRow<GroupId>>)
    ensures report == ComparisonOf(rows, f, groupBy, le)
    ensures Shows(report, rows, CountingIn(f, groupBy), f.from, f.to, le)
  {
    ComparisonShows(rows, f, groupBy, le);
    hide Matches, InRange, Shows, Report;
    var groups := new Groups(GroupKey(groupBy), f.from, f.to);
    for n := 0 to |rows|
      invariant groups.Valid() && groups.seen == Included(rows[..n], f)
    {
      OneMoreIncluded(rows, n, f);
      if Matches(rows[n], f) && InRange(rows[n].issued, f.from, f.to) {
        groups.Add(rows[n]);
      }
    }
    assert rows[..|rows|] == rows;
    report := groups.Finish(le);
  }

  /** The comparison splits the ungrouped engagement: events always, issued counts iff each assertion has one group. */
  lemma ComparisonPartitions(rows: seq<Row>, f: Filters, groupBy: GroupBy, le: (GroupId, GroupId) -> bool)
    ensures var report := ComparisonOf(rows, f, groupBy, le); var whole := EngagementOf(rows, f);
            && (forall t :: Sum(report, EventCount(t)) == Get(whole.counts, t))
            && (Sum(report, IssuedCount()) == whole.issuedCount <==>
                OneKey(Included(rows, f), GroupKey(groupBy), AssertionOf()))
  {
    GroupsPartition(Included(rows, f), GroupKey(groupBy), f.from, f.to, le);
  }

  // Trend.

  datatype TrendError = EmptyRange

  datatype Bucket = Bucket(issued: set<AssertionId>, counts: Counts)

  datatype TrendRow = TrendRow(start: Day, issuedCount: nat, counts: Counts)

  function MatchedBy(f: Filters): Row -> bool {
    (r: Row) => Matches(r, f)
  }

  /** The days that occur in the rows, in order of occurrence. */
  function DerivedDays(rows: seq<Row>): (days: seq<Day>)
    ensures forall r :: r in rows ==> r.issued in days && (r.occurred.Some? ==> r.occurred.value in days)
  {
    if rows == [] then [] else
      [rows[0].issued] + (if rows[0].occurred.Some? then [rows[0].occurred.value] else []) + DerivedDays(rows[1..])
  }

  function ByDay(): (Day, Day) -> bool {
    (a: Day, b: Day) => a <= b
  }

  /** Explicit bounds, or else the first and last day that occur; nothing at all if there is neither. */
  function TrendRange(rows: seq<Row>, f: Filters): Option<(Day, Day)> {
    var days := OrderBy(DerivedDays(rows), ByDay());
    if days == [] && f.from.None? && f.to.None? then None
    else
      Some((if f.from.Some? then f.from.value else if days != [] then days[0] else f.to.value,
            if f.to.Some? then f.to.value else if days != [] then days[|days| - 1] else f.from.value))
  }

  /** What one row adds to the bucket of a day. */
  function AddToDay(b: Bucket, r: Row, day: Day): Bucket {
    var b := if r.issued == day then b.(issued := b.issued + {r.assertion}) else b;
    if r.event.Some? && r.occurred == Some(day) then b.(counts := Incremented(b.counts, r.event.value)) else b
  }

  const EMPTY_BUCKET := Bucket({}, NO_COUNTS)

  function DayBucket(rows: seq<Row>, day: Day): Bucket {
    if rows == [] then EMPTY_BUCKET else AddToDay(DayBucket(rows[..|rows| - 1], day), rows[|rows| - 1], day)
  }

  function TrendRowOf(rows: seq<Row>, day: Day): TrendRow {
    var b := DayBucket(rows, day);
    TrendRow(day, |b.issued|, b.counts)
  }

  /** The days of a range, as the date series collects them one after the other. */
  function Days(from: Day, to: Day): seq<Day>
    decreases if from > to then 0 else to - from + 1
  {
    if from > to then [] else Days(from, to - 1) + [to]
  }

  /** They are consecutive, each once, and are exactly the days between the bounds. */
  lemma {:induction false} DaysAreConsecutive(from: Day, to: Day)
    ensures var days := Days(from, to);
            && |days| == (if from > to then 0 else to - from + 1)
            && (forall i :: 0 <= i < |days| ==> days[i] == from + i)
            && NoRepeats(days) && (forall d :: d in days <==> from <= d <= to)
    decreases if from > to then 0 else to - from + 1
  {
    if from <= to {
      DaysAreConsecutive(from, to - 1);
    }
  }

  /** One row per bucket, in the order of the buckets. */
  function TrendRows(rows: seq<Row>, days: seq<Day>): (r: seq<TrendRow>)
    ensures |r| == |days| && forall i :: 0 <= i < |r| ==> r[i] == TrendRowOf(rows, days[i])
  {
    seq(|days|, i requires 0 <= i < |days| => TrendRowOf(rows, days[i]))
  }

  /** The buckets of the range's date series; a range the wrong way round is refused. */
  function TrendOf(rows: seq<Row>, f: Filters): Result<seq<TrendRow>, TrendError> {
    var matched := Where(rows, MatchedBy(f));
    match TrendRange(matched, f)
    case None => Ok([])
    case Some((from, to)) =>
      if from > to then Err(EmptyRange)
      else Ok(TrendRows(matched, Days(from, to)))
  }

  method BuildDateSeries(from: Day, to: Day) returns (r: Result<seq<Day>, TrendError>)
    ensures r == if from > to then Err(EmptyRange) else Ok(Days(from, to))
  {
    if from > to {
      return Err(EmptyRange);
    }
    var bucketKeys: seq<Day> := [];
    var current := from;
    while current <= to
      invariant from <= current <= to + 1
      invariant bucketKeys == Days(from, current - 1)
    {
      bucketKeys := bucketKeys + [current];
      current := current + 1;
    }
    r := Ok(bucketKeys);
  }

  /**
   * Buckets for the days of the date series first, then one pass over the rows, then the buckets in the order in which
   * they were added.
   */
  method SummarizeTrend(rows: seq<Row>, f: Filters) returns (r: Result<seq<TrendRow>, TrendError>)
    ensures r == TrendOf(rows, f)
  {
    var matched := Where(rows, MatchedBy(f));
    var range := TrendRange(matched, f);
    hide Where, TrendRange, DayBucket, AddToDay, Days, NoRepeats;
    if range.None? {
      return Ok([]);
    }
    var (first, last) := range.value;
    var series := BuildDateSeries(first, last);
    if series.Err? {
      return Err(series.error);
    }
    DaysAreConsecutive(first, last);
    var order: seq<Day> := [];
    var buckets: map<Day, Bucket> := map[];
    for n := 0 to |series.value|
      invariant order == series.value[..n]
      invariant forall d :: d in buckets <==> first <= d < first + n
      invariant forall d :: d in buckets ==> buckets[d] == EMPTY_BUCKET
    {
      var bucketStart := series.value[n];
      if bucketStart !in buckets {
        order := order + [bucketStart];
      }
      buckets := buckets[bucketStart := EMPTY_BUCKET];
    }
    WholeSeries(order, series.value);
    NoRows(buckets, first, last);
    assert matched[..0] == [];
    for n := 0 to |matched|
      invariant BucketsHold(buckets, matched[..n], first, last)
    {
      OneMoreDay(buckets, matched, n, first, last);
      buckets := WithRow(buckets, matched[n], first, last);
    }
    AllDays(buckets, matched, first, last);
    var ks, finished := order, buckets;
    var result := seq(|ks|, i requires 0 <= i < |ks| && ks[i] in finished =>
      TrendRow(ks[i], |finished[ks[i]].issued|, finished[ks[i]].counts));
    assert result == TrendRows(matched, order);
    r := Ok(result);
  }

  lemma WholeSeries(order: seq<Day>, series: seq<Day>)
    requires order == series[..|series|]
    ensures order == series
  {
  }

  /** Exactly the days of the range have buckets, filled from the rows. */
  ghost predicate BucketsHold(buckets: map<Day, Bucket>, rows: seq<Row>, from: Day, to: Day) {
    && (forall d :: d in buckets <==> from <= d <= to)
    && (forall d :: d in buckets ==> buckets[d] == DayBucket(rows, d))
  }

  lemma NoRows(buckets: map<Day, Bucket>, from: Day, to: Day)
    requires (forall d :: d in buckets <==> from <= d <= to) && forall d :: d in buckets ==> buckets[d] == EMPTY_BUCKET
    ensures BucketsHold(buckets, [], from, to)
  {
  }

  lemma AllDays(buckets: map<Day, Bucket>, rows: seq<Row>, from: Day, to: Day)
    requires BucketsHold(buckets, rows[..|rows|], from, to)
    ensures BucketsHold(buckets, rows, from, to)
  {
    assert rows[..|rows|] == rows;
  }

  /** The update of the issue day's bucket and of the event day's bucket. */
  function WithRow(buckets: map<Day, Bucket>, r: Row, from: Day, to: Day): map<Day, Bucket> {
    var issued :=
      if InRange(r.issued, Some(from), Some(to)) && r.issued in buckets then
        buckets[r.issued := buckets[r.issued].(issued := buckets[r.issued].issued + {r.assertion})]
      else buckets;
    if EventCounts(r, Some(from), Some(to)) && r.occurred.value in issued then
      var b := issued[r.occurred.value];
      issued[r.occurred.value := b.(counts := Incremented(b.counts, r.event.value))]
    else issued
  }

  lemma OneMoreDay(buckets: map<Day, Bucket>, rows: seq<Row>, n: nat, from: Day, to: Day)
    requires n < |rows| && from <= to && BucketsHold(buckets, rows[..n], from, to)
    ensures BucketsHold(WithRow(buckets, rows[n], from, to), rows[..n + 1], from, to)
  {
    var after := WithRow(buckets, rows[n], from, to);
    assert rows[..n + 1][..n] == rows[..n];
    forall d | d in after ensures after[d] == DayBucket(rows[..n + 1], d) {
      assert DayBucket(rows[..n + 1], d) == AddToDay(DayBucket(rows[..n], d), rows[n], d);
    }
  }
}
