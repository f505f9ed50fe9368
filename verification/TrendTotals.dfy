/** The daily trend against the ungrouped engagement report. */
module TrendTotals {
  import opened Prelude
  import opened StableSort
  import opened Tables
  import opened Partition
  import opened ReportRows
  import opened Grouping
  import opened Reports

  function IssueDay(): Row -> Day {
    (r: Row) => r.issued
  }

  function OnDay(t: EventType, day: Day): Row -> bool {
    (r: Row) => r.event == Some(t) && r.occurred == Some(day)
  }

  function TrendIssued(): TrendRow -> int {
    (b: TrendRow) => b.issuedCount
  }

  function TrendEvents(t: EventType): TrendRow -> int {
    (b: TrendRow) => Get(b.counts, t)
  }

  function MakeTrendRow(rows: seq<Row>): Day -> TrendRow {
    (d: Day) => TrendRowOf(rows, d)
  }

  /** A day's bucket holds the distinct assertions issued and the events that occurred on that day. */
  lemma DayBucketMeans(rows: seq<Row>, day: Day)
    ensures DayBucket(rows, day).issued == Values(Class(rows, IssueDay(), day), AssertionOf())
    ensures forall t :: Get(DayBucket(rows, day).counts, t) == CountIf(rows, OnDay(t, day))
  {
    DayIssued(rows, day);
    forall t ensures Get(DayBucket(rows, day).counts, t) == CountIf(rows, OnDay(t, day)) {
      DayEvents(rows, day, t);
    }
  }

  lemma {:induction false} DayIssued(rows: seq<Row>, day: Day)
    ensures DayBucket(rows, day).issued == Values(Class(rows, IssueDay(), day), AssertionOf())
    decreases |rows|
  {
    if rows == [] {
      assert Values(Class(rows, IssueDay(), day), AssertionOf()) == {};
    } else {
      var before, r := rows[..|rows| - 1], rows[|rows| - 1];
      DayIssued(before, day);
      assert rows == before + [r];
      WhereAppend(before, r, HasKey(IssueDay(), day));
      ValuesSnoc(Class(before, IssueDay(), day), r, AssertionOf());
      assert Class(before, IssueDay(), day) + [] == Class(before, IssueDay(), day);
      assert DayBucket(rows, day).issued
             == DayBucket(before, day).issued + if r.issued == day then {r.assertion} else {};
      hide Class, DayBucket, Values;
    }
  }

  lemma {:induction false} DayEvents(rows: seq<Row>, day: Day, t: EventType)
    ensures Get(DayBucket(rows, day).counts, t) == CountIf(rows, OnDay(t, day))
    decreases |rows|
  {
    if rows != [] {
      DayEvents(rows[..|rows| - 1], day, t);
      CountSnoc(rows, OnDay(t, day));
    }
  }

  function DayCount(rows: seq<Row>, t: EventType): Day -> int {
    (d: Day) => CountIf(rows, OnDay(t, d))
  }

  /** Summing a kind of event over the days of a range counts the events in the range. */
  lemma {:induction false} EventsPerDay(rows: seq<Row>, t: EventType, from: Day, to: Day)
    requires from <= to
    ensures Sum(Days(from, to), DayCount(rows, t)) == CountIf(rows, Counted(t, Some(from), Some(to)))
  {
    var ks := Days(from, to);
    DaysAreConsecutive(from, to);
    if rows == [] {
      SumOfOneNone(ks, DayCount(rows, t));
    } else {
      var r := rows[0];
      var first := (d: Day) => if OnDay(t, d)(r) then 1 else 0;
      EventsPerDay(rows[1..], t, from, to);
      hide Days;
      SumPlus(ks, first, DayCount(rows[1..], t), DayCount(rows, t));
      if r.event == Some(t) && r.occurred.Some? {
        SumOfOne(ks, r.occurred.value, first, 1);
      } else {
        SumOfOneNone(ks, first);
      }
    }
  }

  // Which days a range lets through.

  lemma DerivedDaysFrom(rows: seq<Row>)
    ensures DerivedDays(rows) == [] <==> rows == []
  {
  }

  lemma ExtremeDays(days: seq<Day>)
    ensures var s := OrderBy(days, ByDay());
            (s == [] <==> days == []) && forall d :: d in days ==> s != [] && s[0] <= d <= s[|s| - 1]
  {
    var s := OrderBy(days, ByDay());
    SortSorts(days, ByDay());
    forall d | d in days ensures s != [] && s[0] <= d <= s[|s| - 1] {
      assert d in s;
      var k :| 0 <= k < |s| && s[k] == d;
      assert (k > 0 ==> ByDay()(s[0], s[k])) && (k < |s| - 1 ==> ByDay()(s[k], s[|s| - 1]));
    }
  }

  /** On the days that occur in the rows, the resolved range is the filter's range. */
  lemma RangeFits(rows: seq<Row>, f: Filters, day: Day)
    requires day in DerivedDays(rows)
    ensures var range := TrendRange(rows, f);
            range.Some? && (InRange(day, f.from, f.to) <==> range.value.0 <= day <= range.value.1)
  {
    ExtremeDays(DerivedDays(rows));
    hide OrderBy;
  }

  lemma UnboundedRange(rows: seq<Row>, f: Filters)
    requires f.from.None? && f.to.None?
    ensures var range := TrendRange(rows, f); range.Some? ==> range.value.0 <= range.value.1
    ensures TrendRange(rows, f).None? <==> rows == []
  {
    var days := DerivedDays(rows);
    DerivedDaysFrom(rows);
    ExtremeDays(days);
    if rows != [] {
      assert rows[0] in rows && rows[0].issued in days;
    }
    hide OrderBy, DerivedDays;
  }

  // Events whose assertion was issued outside the range.

  function Stray(t: EventType, f: Filters): Row -> bool {
    (r: Row) => Counted(t, f.from, f.to)(r) && !InRange(r.issued, f.from, f.to)
  }

  lemma CountCons(x: Row, xs: seq<Row>, p: Row -> bool)
    ensures CountIf([x] + xs, p) == (if p(x) then 1 else 0) + CountIf(xs, p)
    ensures [] + xs == xs
  {
    assert ([x] + xs)[1..] == xs;
  }

  lemma {:induction false} EngagementPlusStray(rows: seq<Row>, f: Filters, t: EventType)
    ensures CountIf(Included(rows, f), Counted(t, f.from, f.to)) + CountIf(Where(rows, MatchedBy(f)), Stray(t, f))
            == CountIf(Where(rows, MatchedBy(f)), Counted(t, f.from, f.to))
  {
    if rows != [] {
      var r := rows[0];
      EngagementPlusStray(rows[1..], f, t);
      hide Matches, InRange, EventCounts, CountIf;
      CountCons(r, Where(rows[1..], IncludedBy(f)), Counted(t, f.from, f.to));
      CountCons(r, Where(rows[1..], MatchedBy(f)), Stray(t, f));
      CountCons(r, Where(rows[1..], MatchedBy(f)), Counted(t, f.from, f.to));
    } else {
      assert Included(rows, f) == [] && Where(rows, MatchedBy(f)) == [];
    }
  }

  lemma {:induction false} CountZero(rows: seq<Row>, p: Row -> bool)
    ensures CountIf(rows, p) == 0 <==> forall r :: r in rows ==> !p(r)
  {
    if rows != [] {
      CountZero(rows[1..], p);
      assert forall r :: r in rows <==> r == rows[0] || r in rows[1..];
    }
  }

  lemma {:induction false} CountSame(rows: seq<Row>, p: Row -> bool, q: Row -> bool)
    requires forall r :: r in rows ==> (p(r) <==> q(r))
    ensures CountIf(rows, p) == CountIf(rows, q)
  {
    if rows != [] {
      assert rows[0] in rows;
      CountSame(rows[1..], p, q);
    }
  }

  // The totals.

  lemma TrendSum(rows: seq<Row>, from: Day, to: Day, f: TrendRow -> int)
    requires from <= to
    ensures Sum(TrendRows(rows, Days(from, to)), f) == Sum(Days(from, to), Compose(MakeTrendRow(rows), f))
  {
    hide TrendRows, Days, Sum, TrendRowOf;
    SumMap(Days(from, to), TrendRows(rows, Days(from, to)), MakeTrendRow(rows), f);
  }

  lemma TrendEventTotal(rows: seq<Row>, f: Filters, from: Day, to: Day, t: EventType)
    requires TrendRange(Where(rows, MatchedBy(f)), f) == Some((from, to)) && from <= to
    ensures Sum(TrendRows(Where(rows, MatchedBy(f)), Days(from, to)), TrendEvents(t))
        == CountIf(Where(rows, MatchedBy(f)), Counted(t, f.from, f.to))
  {
    var matched := Where(rows, MatchedBy(f));
    TrendEventSum(matched, from, to, t);
    EventsPerDay(matched, t, from, to);
    forall r | r in matched ensures Counted(t, Some(from), Some(to))(r) <==> Counted(t, f.from, f.to)(r) {
      if r.occurred.Some? {
        RangeFits(matched, f, r.occurred.value);
      }
    }
    hide Days, Where, TrendRange, TrendRows, Counted, Sum;
    CountSame(matched, Counted(t, Some(from), Some(to)), Counted(t, f.from, f.to));
  }

  lemma TrendEventSum(rows: seq<Row>, from: Day, to: Day, t: EventType)
    requires from <= to
    ensures Sum(TrendRows(rows, Days(from, to)), TrendEvents(t)) == Sum(Days(from, to), DayCount(rows, t))
  {
    var per := Compose(MakeTrendRow(rows), TrendEvents(t));
    TrendSum(rows, from, to, TrendEvents(t));
    forall d ensures per(d) == DayCount(rows, t)(d) {
      DayEvents(rows, d, t);
    }
    hide Days, DayBucket, Get, TrendRows, Sum, CountIf;
    SumSame(Days(from, to), per, DayCount(rows, t));
  }

  lemma TrendIssuedSum(rows: seq<Row>, from: Day, to: Day)
    requires from <= to
    ensures Sum(TrendRows(rows, Days(from, to)), TrendIssued())
        == Sum(Days(from, to), DistinctPer(rows, IssueDay(), AssertionOf()))
  {
    var per := Compose(MakeTrendRow(rows), TrendIssued());
    TrendSum(rows, from, to, TrendIssued());
    forall d ensures per(d) == DistinctPer(rows, IssueDay(), AssertionOf())(d) {
      DayIssued(rows, d);
    }
    hide Days, DayBucket, TrendRows, Sum, Class, Values;
    SumSame(Days(from, to), per, DistinctPer(rows, IssueDay(), AssertionOf()));
  }

  lemma TrendIssuedTotal(rows: seq<Row>, f: Filters, from: Day, to: Day)
    requires TrendRange(Where(rows, MatchedBy(f)), f) == Some((from, to)) && from <= to
    ensures var sum := Sum(TrendRows(Where(rows, MatchedBy(f)), Days(from, to)), TrendIssued());
            && sum >= |Assertions(Included(rows, f))|
            && (sum == |Assertions(Included(rows, f))| <==> OneKey(Included(rows, f), IssueDay(), AssertionOf()))
  {
    var matched := Where(rows, MatchedBy(f));
    TrendIssuedSum(matched, from, to);
    DaysAreConsecutive(from, to);
    hide Days, DayBucket, Where, TrendRange, OneKey, Among, Included, Sum, TrendRows, Values, NoRepeats;
    DistinctPartition(matched, IssueDay(), Days(from, to), AssertionOf());
    AmongIsIncluded(rows, f, from, to);
  }

  lemma AmongIsIncluded(rows: seq<Row>, f: Filters, from: Day, to: Day)
    requires TrendRange(Where(rows, MatchedBy(f)), f) == Some((from, to)) && from <= to
    ensures Among(Where(rows, MatchedBy(f)), IssueDay(), Days(from, to)) == Included(rows, f)
  {
    var matched := Where(rows, MatchedBy(f));
    var among := KeyAmong(IssueDay(), Days(from, to));
    DaysAreConsecutive(from, to);
    forall r | r in rows ensures IncludedBy(f)(r) <==> MatchedBy(f)(r) && among(r) {
      if r in matched {
        RangeFits(matched, f, r.issued);
      }
      hide TrendRange, Where;
      assert MatchedBy(f)(r) ==> r in matched;
    }
    hide TrendRange, Where, Days;
    WhereTwice(rows, MatchedBy(f), among, IncludedBy(f));
  }

  /**
   * Whenever the trend is given, its totals are at least the engagement counts for the same filters. The issued total is
   * that count iff each assertion has one issue day; an event total is that count iff no such event within the range
   * belongs to an assertion issued outside it.
   */
  lemma TrendAgainstEngagement(rows: seq<Row>, f: Filters)
    requires TrendOf(rows, f).Ok?
    ensures var trend := TrendOf(rows, f).value; var whole := EngagementOf(rows, f);
            && Sum(trend, TrendIssued()) >= whole.issuedCount
            && (Sum(trend, TrendIssued()) == whole.issuedCount <==> OneKey(Included(rows, f), IssueDay(), AssertionOf()))
            && (forall t :: Sum(trend, TrendEvents(t)) >= Get(whole.counts, t))
            && (forall t :: Sum(trend, TrendEvents(t)) == Get(whole.counts, t) <==>
                            forall r :: r in rows && Matches(r, f) ==> !Stray(t, f)(r))
  {
    var matched := Where(rows, MatchedBy(f));
    EngagedMeans(Included(rows, f), f.from, f.to);
    var range := TrendRange(matched, f);
    if range.None? {
      DerivedDaysFrom(matched);
      ExtremeDays(DerivedDays(matched));
      assert matched == [];
      NothingIncluded(rows, f);
    } else {
      TrendIssuedTotal(rows, f, range.value.0, range.value.1);
    }
    hide Included, Get, Engaged, TrendRange, OneKey, TrendRows, Matches, Counted, Sum;
    forall t ensures var sum := Sum(TrendOf(rows, f).value, TrendEvents(t));
                     var count := Get(EngagementOf(rows, f).counts, t);
                     sum >= count && (sum == count <==> forall r :: r in rows && Matches(r, f) ==> !Stray(t, f)(r)) {
      TrendEventsAgainst(rows, f, t);
    }
  }

  lemma NothingIncluded(rows: seq<Row>, f: Filters)
    requires Where(rows, MatchedBy(f)) == []
    ensures Included(rows, f) == [] && Assertions(Included(rows, f)) == {}
  {
    forall r | r in rows ensures !IncludedBy(f)(r) {
      assert MatchedBy(f)(r) ==> r in Where(rows, MatchedBy(f));
    }
    WhereNone(rows, IncludedBy(f));
    assert Assertions([]) == {};
  }

  lemma TrendEventsAgainst(rows: seq<Row>, f: Filters, t: EventType)
    requires TrendOf(rows, f).Ok?
    ensures var sum := Sum(TrendOf(rows, f).value, TrendEvents(t));
            var count := CountIf(Included(rows, f), Counted(t, f.from, f.to));
            sum >= count && (sum == count <==> forall r :: r in rows && Matches(r, f) ==> !Stray(t, f)(r))
    ensures Get(EngagementOf(rows, f).counts, t) == CountIf(Included(rows, f), Counted(t, f.from, f.to))
  {
    var matched := Where(rows, MatchedBy(f));
    EngagedMeans(Included(rows, f), f.from, f.to);
    EngagementPlusStray(rows, f, t);
    CountZero(matched, Stray(t, f));
    var range := TrendRange(matched, f);
    if range.None? {
      DerivedDaysFrom(matched);
      ExtremeDays(DerivedDays(matched));
      assert matched == [];
    } else {
      TrendEventTotal(rows, f, range.value.0, range.value.1, t);
    }
    assert forall r :: r in matched <==> r in rows && Matches(r, f);
    hide Included, Get, Engaged, TrendRange, TrendRows, Matches, Counted, Where;
  }

  /** An assertion issued on day 1 and shared on day 5: the trend of day 5 counts the click, the engagement does not. */
  lemma StrayClick(r: Row, f: Filters)
    requires r.issued == 1 && r.event == Some(ShareClick) && r.occurred == Some(5)
    requires f == Filters(Some(5), Some(5), None, None, None)
    ensures var trend := TrendOf([r], f);
            trend.Ok? && Sum(trend.value, TrendEvents(ShareClick)) > Get(EngagementOf([r], f).counts, ShareClick)
  {
    assert EventCounts(r, f.from, f.to) && !InRange(r.issued, f.from, f.to);
    assert Counted(ShareClick, f.from, f.to)(r);
    assert r in [r] && Matches(r, f) && Stray(ShareClick, f)(r);
    assert TrendOf([r], f).Ok?;
    TrendAgainstEngagement([r], f);
  }

  /** On rows as the listing query selects them, with the issue day in range, the totals agree whatever the bounds. */
  lemma ListedTrendTotals(rows: seq<Row>, f: Filters)
    requires TrendOf(rows, f).Ok? && forall r :: r in rows ==> InRange(r.issued, f.from, f.to)
    requires OneKey(Included(rows, f), IssueDay(), AssertionOf())
    ensures var trend := TrendOf(rows, f); var whole := EngagementOf(rows, f);
            && Sum(trend.value, TrendIssued()) == whole.issuedCount
            && forall t :: Sum(trend.value, TrendEvents(t)) == Get(whole.counts, t)
  {
    forall t: EventType, r: Row | r in rows ensures !Stray(t, f)(r) {
      assert InRange(r.issued, f.from, f.to);
    }
    hide Stray, OneKey, Included, Engaged, TrendRange, Sum;
    TrendAgainstEngagement(rows, f);
  }

  /** Without bounds the trend is always given and its totals are the engagement counts. */
  lemma UnboundedTrendTotals(rows: seq<Row>, f: Filters)
    requires f.from.None? && f.to.None? && OneKey(Included(rows, f), IssueDay(), AssertionOf())
    ensures var trend := TrendOf(rows, f); var whole := EngagementOf(rows, f);
            && trend.Ok? && Sum(trend.value, TrendIssued()) == whole.issuedCount
            && forall t :: Sum(trend.value, TrendEvents(t)) == Get(whole.counts, t)
  {
    UnboundedRange(Where(rows, MatchedBy(f)), f);
    assert TrendOf(rows, f).Ok?;
    forall t: EventType, r: Row ensures !Stray(t, f)(r) {
      assert InRange(r.issued, f.from, f.to);
      assert Stray(t, f)(r) == (Counted(t, f.from, f.to)(r) && !InRange(r.issued, f.from, f.to));
    }
    hide Stray, OneKey, Included, Engaged, TrendRange, Sum;
    TrendAgainstEngagement(rows, f);
  }

  /** The rows of a trend are consecutive days, each once. */
  lemma TrendIsGapFree(rows: seq<Row>, f: Filters)
    requires TrendOf(rows, f).Ok?
    ensures var trend := TrendOf(rows, f).value;
            && (forall i :: 0 <= i < |trend| ==> trend[i].start == trend[0].start + i)
            && (f.from.Some? && f.to.Some? ==>
                  |trend| == f.to.value - f.from.value + 1 && trend[0].start == f.from.value)
  {
    var range := TrendRange(Where(rows, MatchedBy(f)), f);
    if range.Some? {
      DaysAreConsecutive(range.value.0, range.value.1);
    }
    hide DayBucket, Days, NoRepeats;
  }

  // What a trend shows, said without the functions that compute it.

  /** The rows that the filters select, whenever they were issued. */
  ghost function SelectedAnyDay(f: Filters): Row -> bool {
    SelectedBy(f.(from := None, to := None))
  }

  /** A bucket shows the assertions issued and the events that occurred on its day. */
  ghost predicate ShowsDay(b: TrendRow, rows: seq<Row>, sel: Row -> bool) {
    && b.issuedCount == |set r | r in rows && sel(r) && r.issued == b.start :: r.assertion|
    && b.counts == Counts(
         publicBadgeView := Events(rows, sel, PublicBadgeView, Some(b.start), Some(b.start)),
         verificationView := Events(rows, sel, VerificationView, Some(b.start), Some(b.start)),
         shareClick := Events(rows, sel, ShareClick, Some(b.start), Some(b.start)),
         learnerClaim := Events(rows, sel, LearnerClaim, Some(b.start), Some(b.start)),
         walletAccept := Events(rows, sel, WalletAccept, Some(b.start), Some(b.start)))
  }

  ghost predicate Occurs(day: Day, rows: seq<Row>, sel: Row -> bool) {
    exists r :: r in rows && sel(r) && (r.issued == day || r.occurred == Some(day))
  }

  /** The bound given, else the earliest day that occurs, else the other bound. */
  ghost predicate IsFirstDay(day: Day, rows: seq<Row>, sel: Row -> bool, f: Filters) {
    if f.from.Some? then day == f.from.value
    else if exists d :: Occurs(d, rows, sel) then Occurs(day, rows, sel) && forall d :: Occurs(d, rows, sel) ==> day <= d
    else f.to == Some(day)
  }

  ghost predicate IsLastDay(day: Day, rows: seq<Row>, sel: Row -> bool, f: Filters) {
    if f.to.Some? then day == f.to.value
    else if exists d :: Occurs(d, rows, sel) then Occurs(day, rows, sel) && forall d :: Occurs(d, rows, sel) ==> d <= day
    else f.from == Some(day)
  }

  lemma MatchedIsSelected(rows: seq<Row>, f: Filters)
    ensures Where(rows, MatchedBy(f)) == Where(rows, SelectedAnyDay(f))
  {
    forall r ensures MatchedBy(f)(r) <==> SelectedAnyDay(f)(r) {
      IncludedIffSelected(r, f);
    }
    hide Where, Matches, SelectedAnyDay;
    WhereSame(rows, MatchedBy(f), SelectedAnyDay(f));
  }

  lemma DayEventsAmong(rows: seq<Row>, sel: Row -> bool, t: EventType, day: Day)
    ensures CountIf(Where(rows, sel), OnDay(t, day)) == Events(rows, sel, t, Some(day), Some(day))
  {
    EventsAmong(rows, sel, t, Some(day), Some(day));
    hide Where, CountIf, Events;
    CountSame(Where(rows, sel), OnDay(t, day), Counted(t, Some(day), Some(day)));
  }

  lemma DayIssuedAmong(rows: seq<Row>, sel: Row -> bool, day: Day)
    ensures Values(Class(Where(rows, sel), IssueDay(), day), AssertionOf())
            == set r | r in rows && sel(r) && r.issued == day :: r.assertion
  {
    var own := Class(Where(rows, sel), IssueDay(), day);
    assert forall r :: r in own <==> r in rows && sel(r) && r.issued == day;
    hide Where, Class;
    forall a ensures a in Values(own, AssertionOf()) <==> exists r | r in own :: r.assertion == a {
      if r :| r in own && r.assertion == a {
        assert AssertionOf()(r) == a;
      }
    }
  }

  lemma TrendRowShows(rows: seq<Row>, sel: Row -> bool, day: Day)
    ensures ShowsDay(TrendRowOf(Where(rows, sel), day), rows, sel)
  {
    var b := DayBucket(Where(rows, sel), day);
    DayBucketMeans(Where(rows, sel), day);
    DayIssuedAmong(rows, sel, day);
    forall t ensures Get(b.counts, t) == Events(rows, sel, t, Some(day), Some(day)) {
      DayEventsAmong(rows, sel, t, day);
    }
    hide Where, DayBucket, Values, Class, Events, CountIf, Get;
    CountsAre(b.counts);
  }

  lemma {:induction false} DerivedAre(rows: seq<Row>)
    ensures forall d :: d in DerivedDays(rows) <==> exists r :: r in rows && (r.issued == d || r.occurred == Some(d))
  {
    if rows != [] {
      DerivedAre(rows[1..]);
      assert forall r :: r in rows <==> r == rows[0] || r in rows[1..];
    }
  }

  lemma OccurringDays(rows: seq<Row>, sel: Row -> bool)
    ensures forall d :: d in DerivedDays(Where(rows, sel)) <==> Occurs(d, rows, sel)
  {
    DerivedAre(Where(rows, sel));
    hide DerivedDays;
  }

  lemma RangeShows(rows: seq<Row>, sel: Row -> bool, f: Filters)
    ensures var range := TrendRange(Where(rows, sel), f);
            && (range.None? <==> f.from == f.to == None && !exists d :: Occurs(d, rows, sel))
            && (range.Some? ==> IsFirstDay(range.value.0, rows, sel, f) && IsLastDay(range.value.1, rows, sel, f))
  {
    var days := DerivedDays(Where(rows, sel));
    OccurringDays(rows, sel);
    hide Where, Occurs, DerivedDays;
    ExtremeDays(days);
    var s := OrderBy(days, ByDay());
    assert s != [] ==> s[0] in s && s[|s| - 1] in s && Occurs(s[0], rows, sel);
    hide OrderBy;
  }

  /** A trend shows every day from its first to its last; it is empty, or refused, only where its range is. */
  lemma TrendShows(rows: seq<Row>, f: Filters)
    ensures var trend := TrendOf(rows, f); var sel := SelectedAnyDay(f);
            if f.from == f.to == None && !exists d :: Occurs(d, rows, sel) then trend == Ok([])
            else
              exists first: Day, last: Day ::
                && IsFirstDay(first, rows, sel, f) && IsLastDay(last, rows, sel, f)
                && (if first > last then trend == Err(EmptyRange)
                    else
                      && trend.Ok? && |trend.value| == last - first + 1
                      && forall i :: 0 <= i < |trend.value| ==>
                           trend.value[i].start == first + i && ShowsDay(trend.value[i], rows, sel))
  {
    var sel := SelectedAnyDay(f);
    MatchedIsSelected(rows, f);
    RangeShows(rows, sel, f);
    hide Where, SelectedAnyDay, IsFirstDay, IsLastDay, Occurs, TrendRange;
    var range := TrendRange(Where(rows, sel), f);
    if range.Some? {
      var (first, last) := range.value;
      DaysAreConsecutive(first, last);
      hide Days, NoRepeats;
      forall d ensures ShowsDay(TrendRowOf(Where(rows, sel), d), rows, sel) {
        TrendRowShows(rows, sel, d);
      }
      hide DayBucket, ShowsDay;
      assert IsFirstDay(first, rows, sel, f) && IsLastDay(last, rows, sel, f);
    }
  }
}
