/** Counting over keyed lists: what a grouping keeps. */
module Partition {
  import opened StableSort
  import opened Tables

  function CountIf<T(!new)>(xs: seq<T>, p: T -> bool): nat {
    if xs == [] then 0 else (if p(xs[0]) then 1 else 0) + CountIf(xs[1..], p)
  }

  lemma {:induction false} CountAppend<T(!new)>(xs: seq<T>, x: T, p: T -> bool)
    ensures CountIf(xs + [x], p) == CountIf(xs, p) + if p(x) then 1 else 0
  {
    if xs == [] {
      assert xs + [x] == [x] && [x][1..] == [];
    } else {
      CountAppend(xs[1..], x, p);
      assert (xs + [x])[1..] == xs[1..] + [x];
    }
  }

  ghost function Places<T(!new)>(xs: seq<T>, p: T -> bool): set<int> {
    set i | 0 <= i < |xs| && p(xs[i])
  }

  lemma PlacesAppend<T(!new)>(xs: seq<T>, x: T, p: T -> bool)
    ensures |Places(xs + [x], p)| == |Places(xs, p)| + if p(x) then 1 else 0
  {
    var last := if p(x) then {|xs|} else {};
    assert Places(xs + [x], p) == Places(xs, p) + last;
  }

  /** Counting is counting positions. */
  lemma {:induction false} CountIsPlaces<T(!new)>(xs: seq<T>, p: T -> bool)
    ensures CountIf(xs, p) == |Places(xs, p)|
    decreases |xs|
  {
    if xs == [] {
      assert Places(xs, p) == {};
    } else {
      var n := |xs| - 1;
      CountIsPlaces(xs[..n], p);
      CountAppend(xs[..n], xs[n], p);
      PlacesAppend(xs[..n], xs[n], p);
      assert xs == xs[..n] + [xs[n]];
    }
  }

  /** Counting among selected rows is counting with both conditions. */
  lemma {:induction false} CountWhere<T(!new)>(xs: seq<T>, sel: T -> bool, p: T -> bool, both: T -> bool)
    requires forall x :: x in xs ==> (both(x) <==> sel(x) && p(x))
    ensures CountIf(Where(xs, sel), p) == CountIf(xs, both)
  {
    if xs != [] {
      assert xs[0] in xs;
      CountWhere(xs[1..], sel, p, both);
      var rest := Where(xs[1..], sel);
      assert ([xs[0]] + rest)[1..] == rest && [] + rest == rest;
    }
  }

  function Sum<K>(ks: seq<K>, f: K -> int): int {
    if ks == [] then 0 else f(ks[0]) + Sum(ks[1..], f)
  }

  function HasKey<T(!new), K(==)>(key: T -> K, k: K): T -> bool {
    (x: T) => key(x) == k
  }

  /** The elements with key `k`. */
  function Class<T(!new), K(==)>(xs: seq<T>, key: T -> K, k: K): seq<T> {
    Where(xs, HasKey(key, k))
  }

  /** For each key, how many elements of its class satisfy `p`. */
  function CountPer<T(!new), K(==)>(xs: seq<T>, key: T -> K, p: T -> bool): K -> int {
    (k: K) => CountIf(Class(xs, key, k), p)
  }

  /** For each key, how many distinct values its class has. */
  ghost function DistinctPer<T(!new), K, A(!new)>(xs: seq<T>, key: T -> K, value: T -> A): K -> int {
    (k: K) => |Values(Class(xs, key, k), value)|
  }

  ghost predicate Covers<T(!new), K(!new)>(ks: seq<K>, xs: seq<T>, key: T -> K) {
    NoRepeats(ks) && forall x :: x in xs ==> key(x) in ks
  }

  /** One at the position of `k`, nothing elsewhere. */
  lemma {:induction false} SumOfOne<K(!new)>(ks: seq<K>, k: K, f: K -> int, v: int)
    requires NoRepeats(ks) && forall j :: j in ks ==> f(j) == if j == k then v else 0
    ensures Sum(ks, f) == if k in ks then v else 0
  {
    if ks != [] {
      assert ks[0] in ks && (ks[0] == k ==> k !in ks[1..]);
      SumOfOne(ks[1..], k, f, v);
    }
  }

  lemma {:induction false} SumPlus<K(!new)>(ks: seq<K>, f: K -> int, g: K -> int, h: K -> int)
    requires forall k :: k in ks ==> h(k) == f(k) + g(k)
    ensures Sum(ks, h) == Sum(ks, f) + Sum(ks, g)
  {
    if ks != [] {
      assert ks[0] in ks;
      SumPlus(ks[1..], f, g, h);
    }
  }

  lemma {:induction false} SumSame<K(!new)>(ks: seq<K>, f: K -> int, g: K -> int)
    requires forall k :: k in ks ==> f(k) == g(k)
    ensures Sum(ks, f) == Sum(ks, g)
  {
    if ks != [] {
      assert ks[0] in ks;
      SumSame(ks[1..], f, g);
    }
  }

  /** The counts of the classes add up to the whole, when the keys cover every element and none twice. */
  lemma {:induction false} CountPartition<T(!new), K(!new)>(xs: seq<T>, key: T -> K, ks: seq<K>, p: T -> bool)
    requires Covers(ks, xs, key)
    ensures Sum(ks, CountPer(xs, key, p)) == CountIf(xs, p)
  {
    var whole := CountPer(xs, key, p);
    if xs == [] {
      SumOfOneNone(ks, whole);
    } else {
      var rest := CountPer(xs[1..], key, p);
      var first := (k: K) => if k == key(xs[0]) && p(xs[0]) then 1 else 0;
      assert xs[0] in xs && forall x :: x in xs[1..] ==> x in xs;
      CountPartition(xs[1..], key, ks, p);
      forall k | k in ks ensures whole(k) == first(k) + rest(k) {
        ClassCons(xs, key, k, p);
      }
      SumPlus(ks, first, rest, whole);
      SumOfOne(ks, key(xs[0]), first, if p(xs[0]) then 1 else 0);
    }
  }

  lemma {:induction false} SumOfOneNone<K(!new)>(ks: seq<K>, f: K -> int)
    requires forall k :: k in ks ==> f(k) == 0
    ensures Sum(ks, f) == 0
  {
    if ks != [] {
      assert ks[0] in ks;
      SumOfOneNone(ks[1..], f);
    }
  }

  lemma ClassCons<T(!new), K(!new)>(xs: seq<T>, key: T -> K, k: K, p: T -> bool)
    requires xs != []
    ensures Class(xs, key, k) == (if key(xs[0]) == k then [xs[0]] else []) + Class(xs[1..], key, k)
    ensures CountIf(Class(xs, key, k), p)
            == (if key(xs[0]) == k && p(xs[0]) then 1 else 0) + CountIf(Class(xs[1..], key, k), p)
  {
    var rest := Class(xs[1..], key, k);
    assert ([xs[0]] + rest)[1..] == rest && [] + rest == rest;
  }

  // Distinct values.

  ghost function Values<T(!new), A(!new)>(xs: seq<T>, value: T -> A): set<A> {
    set x | x in xs :: value(x)
  }

  lemma ValuesSnoc<T(!new), A(!new)>(xs: seq<T>, x: T, value: T -> A)
    ensures Values(xs + [x], value) == Values(xs, value) + {value(x)}
  {
    assert forall y :: y in xs + [x] <==> y in xs || y == x;
  }

  /** No value occurs under two keys. */
  ghost predicate OneKey<T(!new), K(!new), A(!new)>(xs: seq<T>, key: T -> K, value: T -> A) {
    forall x, y :: x in xs && y in xs && value(x) == value(y) ==> key(x) == key(y)
  }

  /** The elements whose key is among `ks`. */
  function Among<T(!new), K(==, !new)>(xs: seq<T>, key: T -> K, ks: seq<K>): seq<T> {
    Where(xs, KeyAmong(key, ks))
  }

  function KeyAmong<T(!new), K(==, !new)>(key: T -> K, ks: seq<K>): T -> bool {
    (x: T) => key(x) in ks
  }

  lemma UnionSize<A>(a: set<A>, b: set<A>)
    ensures |a + b| == |a| + |b| - |a * b|
  {
  }

  lemma EmptySize<A>(a: set<A>)
    ensures |a| == 0 <==> a == {}
  {
  }

  lemma AmongSplit<T(!new), K(!new), A(!new)>(xs: seq<T>, key: T -> K, ks: seq<K>, value: T -> A)
    requires ks != []
    ensures Values(Among(xs, key, ks), value)
            == Values(Class(xs, key, ks[0]), value) + Values(Among(xs, key, ks[1..]), value)
  {
    assert forall k :: k in ks <==> k == ks[0] || k in ks[1..];
    hide Where;
  }

  /**
   * The classes' numbers of distinct values add up to at least the whole number, and exactly iff no value has two
   * keys.
   */
  lemma {:induction false} DistinctPartition<T(!new), K(!new), A(!new)>(xs: seq<T>, key: T -> K, ks: seq<K>,
          value: T -> A)
    requires NoRepeats(ks)
    ensures var sum := Sum(ks, DistinctPer(xs, key, value)); var all := |Values(Among(xs, key, ks), value)|;
            sum >= all && (sum == all <==> OneKey(Among(xs, key, ks), key, value))
    decreases ks
  {
    if ks == [] {
      assert Values(Among(xs, key, ks), value) == {};
    } else {
      var first, others := Class(xs, key, ks[0]), Among(xs, key, ks[1..]);
      assert ks[0] !in ks[1..];
      DistinctPartition(xs, key, ks[1..], value);
      AmongSplit(xs, key, ks, value);
      UnionSize(Values(first, value), Values(others, value));
      EmptySize(Values(first, value) * Values(others, value));
      OneKeySplit(xs, key, ks, value);
    }
  }

  lemma OneKeySplit<T(!new), K(!new), A(!new)>(xs: seq<T>, key: T -> K, ks: seq<K>, value: T -> A)
    requires ks != [] && ks[0] !in ks[1..]
    ensures var first, others := Class(xs, key, ks[0]), Among(xs, key, ks[1..]);
            OneKey(Among(xs, key, ks), key, value) <==>
            OneKey(others, key, value) && Values(first, value) * Values(others, value) == {}
  {
    var all, first, others := Among(xs, key, ks), Class(xs, key, ks[0]), Among(xs, key, ks[1..]);
    assert forall x :: x in all <==> x in first || x in others;
    assert forall x :: x in first ==> key(x) == ks[0];
    assert forall x :: x in others ==> key(x) != ks[0];
    hide Class, Among;
    if OneKey(all, key, value) {
      forall x, y | x in first && y in others ensures value(x) != value(y) {
        assert x in all && y in all && key(x) != key(y);
      }
      assert forall a :: !(a in Values(first, value) && a in Values(others, value));
    } else if OneKey(others, key, value) && Values(first, value) * Values(others, value) == {} {
      forall x, y | x in all && y in all && value(x) == value(y) ensures key(x) == key(y) {
        assert value(x) in Values(first, value) * Values(others, value) || (x in first <==> y in first);
      }
    }
  }

  // Sorting rows does not change their sum.

  lemma {:induction false} InsertSum<T>(x: T, ys: seq<T>, le: (T, T) -> bool, f: T -> int)
    ensures Sum(Insert(x, ys, le), f) == f(x) + Sum(ys, f)
  {
    if ys != [] && !le(x, ys[0]) {
      InsertSum(x, ys[1..], le, f);
      var rest := Insert(x, ys[1..], le);
      assert ([ys[0]] + rest)[1..] == rest;
    }
  }

  lemma {:induction false} OrderBySum<T(!new)>(xs: seq<T>, le: (T, T) -> bool, f: T -> int)
    ensures Sum(OrderBy(xs, le), f) == Sum(xs, f)
  {
    if xs != [] {
      OrderBySum(xs[1..], le, f);
      InsertSum(xs[0], Sort(xs[1..], le), le, f);
    }
  }

  /** The keys of a list, each at its first appearance. */
  function Keys<T(!new), K(==, !new)>(xs: seq<T>, key: T -> K): (r: seq<K>)
    ensures NoRepeats(r) && forall k :: k in r <==> exists x :: x in xs && key(x) == k
  {
    if xs == [] then [] else
      var xs', x := xs[..|xs| - 1], xs[|xs| - 1];
      assert forall y :: y in xs <==> y in xs' || y == x by { assert xs == xs' + [x]; }
      var rest := Keys(xs', key);
      if key(x) in rest then rest else rest + [key(x)]
  }
}

/** The rows of the engagement reports and what they are summed into. */
module ReportRows {
  import opened Prelude
  import opened StableSort
  import opened Tables
  import opened Partition
  import OrgTree
  import LifecycleLedger

  type AssertionId = nat
  type TemplateId = nat
  type UnitId = OrgTree.UnitId
  type Day = int

  datatype EventType = PublicBadgeView | VerificationView | ShareClick | LearnerClaim | WalletAccept

  /** One row per assertion and engagement event, or one without event. Timestamps are reduced to their UTC days. */
  datatype Row = Row(
    assertion: AssertionId, template: TemplateId, unit: UnitId, issued: Day, lifecycle: LifecycleLedger.Row,
    event: Option<EventType>, occurred: Option<Day>)

  datatype StateFilter = InState(state: LifecycleLedger.State) | PendingReview

  datatype Filters = Filters(
    from: Option<Day>, to: Option<Day>, template: Option<TemplateId>, unit: Option<UnitId>, state: Option<StateFilter>)

  predicate InRange(day: Day, from: Option<Day>, to: Option<Day>) {
    (from.Some? ==> day >= from.value) && (to.Some? ==> day <= to.value)
  }

  predicate Matches(r: Row, f: Filters) {
    && (f.template.Some? ==> r.template == f.template.value)
    && (f.unit.Some? ==> r.unit == f.unit.value)
    && (match f.state
        case None => true
        case Some(PendingReview) =>
          LifecycleLedger.ReportingState(r.lifecycle).Suspended? &&
              r.lifecycle.latestReasonCode == Some(LifecycleLedger.AppealPending)
        case Some(InState(s)) => LifecycleLedger.ReportingState(r.lifecycle) == s)
  }

  // Aggregates.

  datatype Counts = Counts(
    publicBadgeView: nat, verificationView: nat, shareClick: nat, learnerClaim: nat, walletAccept: nat)

  function Get(c: Counts, t: EventType): nat {
    match t
    case PublicBadgeView => c.publicBadgeView
    case VerificationView => c.verificationView
    case ShareClick => c.shareClick
    case LearnerClaim => c.learnerClaim
    case WalletAccept => c.walletAccept
  }

  function Incremented(c: Counts, t: EventType): Counts {
    match t
    case PublicBadgeView => c.(publicBadgeView := c.publicBadgeView + 1)
    case VerificationView => c.(verificationView := c.verificationView + 1)
    case ShareClick => c.(shareClick := c.shareClick + 1)
    case LearnerClaim => c.(learnerClaim := c.learnerClaim + 1)
    case WalletAccept => c.(walletAccept := c.walletAccept + 1)
  }

  datatype Aggregate = Aggregate(
    issued: set<AssertionId>, shareEngaged: set<AssertionId>, claimEngaged: set<AssertionId>, counts: Counts)

  const NO_COUNTS := Counts(0, 0, 0, 0, 0)
  const EMPTY_AGGREGATE := Aggregate({}, {}, {}, NO_COUNTS)

  function ApplyEvent(a: Aggregate, assertion: AssertionId, t: EventType): Aggregate {
    a.(counts := Incremented(a.counts, t),
       shareEngaged := if t.ShareClick? then a.shareEngaged + {assertion} else a.shareEngaged,
       claimEngaged := if t.LearnerClaim? || t.WalletAccept? then a.claimEngaged + {assertion} else a.claimEngaged)
  }

  predicate EventCounts(r: Row, from: Option<Day>, to: Option<Day>) {
    r.event.Some? && r.occurred.Some? && InRange(r.occurred.value, from, to)
  }

  function AddRow(a: Aggregate, r: Row, from: Option<Day>, to: Option<Day>): Aggregate {
    var issued := a.(issued := a.issued + {r.assertion});
    if EventCounts(r, from, to) then ApplyEvent(issued, r.assertion, r.event.value) else issued
  }

  function AggregateOf(rows: seq<Row>, from: Option<Day>, to: Option<Day>): Aggregate {
    if rows == [] then EMPTY_AGGREGATE
    else AddRow(AggregateOf(rows[..|rows| - 1], from, to), rows[|rows| - 1], from, to)
  }

  function AssertionOf(): Row -> AssertionId {
    (r: Row) => r.assertion
  }

  function Counted(t: EventType, from: Option<Day>, to: Option<Day>): Row -> bool {
    (r: Row) => EventCounts(r, from, to) && r.event.value == t
  }

  ghost function Assertions(rows: seq<Row>): set<AssertionId> {
    Values(rows, AssertionOf())
  }

  lemma AssertionsSnoc(rows: seq<Row>)
    requires rows != []
    ensures Assertions(rows) == Assertions(rows[..|rows| - 1]) + {rows[|rows| - 1].assertion}
  {
    var r := rows[|rows| - 1];
    ValuesSnoc(rows[..|rows| - 1], r, AssertionOf());
    assert rows == rows[..|rows| - 1] + [r] && AssertionOf()(r) == r.assertion;
  }

  lemma CountSnoc(rows: seq<Row>, p: Row -> bool)
    requires rows != []
    ensures CountIf(rows, p) == CountIf(rows[..|rows| - 1], p) + if p(rows[|rows| - 1]) then 1 else 0
  {
    CountAppend(rows[..|rows| - 1], rows[|rows| - 1], p);
    assert rows == rows[..|rows| - 1] + [rows[|rows| - 1]];
  }

  /** The assertions with a row that satisfies `p`. */
  ghost function Having(rows: seq<Row>, p: Row -> bool): set<AssertionId> {
    set r | r in rows && p(r) :: r.assertion
  }

  lemma HavingSnoc(rows: seq<Row>, p: Row -> bool)
    requires rows != []
    ensures Having(rows, p)
            == Having(rows[..|rows| - 1], p) + if p(rows[|rows| - 1]) then {rows[|rows| - 1].assertion} else {}
  {
    var before, r := rows[..|rows| - 1], rows[|rows| - 1];
    assert rows == before + [r];
    assert forall x :: x in rows <==> x in before || x == r;
  }

  /** A learner claim or a wallet acceptance in range. */
  function Claimed(from: Option<Day>, to: Option<Day>): Row -> bool {
    (r: Row) => EventCounts(r, from, to) && (r.event == Some(LearnerClaim) || r.event == Some(WalletAccept))
  }

  lemma AddRowMeans(a: Aggregate, r: Row, from: Option<Day>, to: Option<Day>)
    ensures var b := AddRow(a, r, from, to);
            && b.issued == a.issued + {r.assertion}
            && b.shareEngaged == a.shareEngaged + (if Counted(ShareClick, from, to)(r) then {r.assertion} else {})
            && b.claimEngaged == a.claimEngaged + (if Claimed(from, to)(r) then {r.assertion} else {})
            && (forall t :: Get(b.counts, t) == Get(a.counts, t) + if Counted(t, from, to)(r) then 1 else 0)
  {
  }

  /**
   * The sets that the loops keep hold the distinct assertions, those shared and those claimed in range, and the counters
   * the number of events in range.
   */
  lemma {:induction false} AggregateMeans(rows: seq<Row>, from: Option<Day>, to: Option<Day>)
    ensures var a := AggregateOf(rows, from, to);
            && a.issued == Assertions(rows)
            && a.shareEngaged == Having(rows, Counted(ShareClick, from, to))
            && a.claimEngaged == Having(rows, Claimed(from, to))
            && (forall t :: Get(a.counts, t) == CountIf(rows, Counted(t, from, to)))
    decreases |rows|
  {
    if rows == [] {
      assert Assertions(rows) == {};
    } else {
      var before, r := rows[..|rows| - 1], rows[|rows| - 1];
      AggregateMeans(before, from, to);
      AddRowMeans(AggregateOf(before, from, to), r, from, to);
      AssertionsSnoc(rows);
      HavingSnoc(rows, Counted(ShareClick, from, to));
      HavingSnoc(rows, Claimed(from, to));
      hide Having, Assertions, AddRow, Counted, Claimed, Get, CountIf;
      forall t ensures Get(AggregateOf(rows, from, to).counts, t) == CountIf(rows, Counted(t, from, to)) {
        CountSnoc(rows, Counted(t, from, to));
      }
    }
  }

  // The numbers that are reported.

  datatype Engagement = Engagement(issuedCount: nat, counts: Counts, shareRate: real, claimRate: real)

  function Rate(part: set<AssertionId>, whole: set<AssertionId>): real {
    if |whole| == 0 then 0.0 else |part| as real / |whole| as real
  }

  function Finalize(a: Aggregate): Engagement {
    Engagement(|a.issued|, a.counts, Rate(a.shareEngaged, a.issued), Rate(a.claimEngaged, a.issued))
  }

  lemma SubsetSmaller(part: set<AssertionId>, whole: set<AssertionId>)
    requires part <= whole
    ensures |part| <= |whole|
  {
    assert whole == part + (whole - part);
  }

  lemma RateInUnit(part: set<AssertionId>, whole: set<AssertionId>)
    requires part <= whole
    ensures 0.0 <= Rate(part, whole) <= 1.0
    ensures Rate(part, whole) == 1.0 <==> whole != {} && part == whole
  {
    SubsetSmaller(part, whole);
    if |whole| > 0 {
      QuotientInUnit(|part|, |whole|);
      assert part != whole ==> whole == part + (whole - part) && |whole - part| > 0;
    }
  }

  lemma QuotientInUnit(p: nat, w: nat)
    requires p <= w && w > 0
    ensures 0.0 <= p as real / w as real <= 1.0
    ensures p as real / w as real == 1.0 <==> p == w
  {
    var q := p as real / w as real;
    assert q * w as real == p as real;
    TimesMoreThanOne(q, w as real);
  }

  lemma TimesMoreThanOne(q: real, w: real)
    ensures q > 1.0 && w > 0.0 ==> q * w > w
  {
    if q > 1.0 && w > 0.0 {
      assert q * w - w == (q - 1.0) * w;
    }
  }

  function Engaged(rows: seq<Row>, from: Option<Day>, to: Option<Day>): Engagement {
    Finalize(AggregateOf(rows, from, to))
  }

  lemma HavingPart(rows: seq<Row>, p: Row -> bool)
    ensures Having(rows, p) <= Assertions(rows)
  {
    forall a | a in Having(rows, p) ensures a in Assertions(rows) {
      var r :| r in rows && p(r) && r.assertion == a;
      assert AssertionOf()(r) == a;
    }
  }

  /** `rate` is the quotient of the two numbers, zero if there is nothing to divide by. */
  ghost predicate IsPart(rate: real, part: nat, whole: nat) {
    if whole == 0 then rate == 0.0 else rate * whole as real == part as real
  }

  lemma RateIsPart(part: set<AssertionId>, whole: set<AssertionId>)
    ensures IsPart(Rate(part, whole), |part|, |whole|)
  {
  }

  lemma FinalizeMeans(a: Aggregate)
    ensures var e := Finalize(a);
            && e.issuedCount == |a.issued| && e.counts == a.counts
            && IsPart(e.shareRate, |a.shareEngaged|, |a.issued|)
            && IsPart(e.claimRate, |a.claimEngaged|, |a.issued|)
  {
    RateIsPart(a.shareEngaged, a.issued);
    RateIsPart(a.claimEngaged, a.issued);
    hide IsPart, Rate;
  }

  /** Issued counts are distinct assertions, event counts are events, and rates are parts of the issued count. */
  lemma EngagedMeans(rows: seq<Row>, from: Option<Day>, to: Option<Day>)
    ensures var e := Engaged(rows, from, to);
            && e.issuedCount == |Assertions(rows)|
            && (forall t :: Get(e.counts, t) == CountIf(rows, Counted(t, from, to)))
            && IsPart(e.shareRate, |Having(rows, Counted(ShareClick, from, to))|, e.issuedCount)
            && IsPart(e.claimRate, |Having(rows, Claimed(from, to))|, e.issuedCount)
            && 0.0 <= e.shareRate <= 1.0 && 0.0 <= e.claimRate <= 1.0
  {
    var a := AggregateOf(rows, from, to);
    AggregateMeans(rows, from, to);
    HavingPart(rows, Counted(ShareClick, from, to));
    HavingPart(rows, Claimed(from, to));
    FinalizeMeans(a);
    RateInUnit(a.shareEngaged, a.issued);
    RateInUnit(a.claimEngaged, a.issued);
    hide AggregateOf, Rate, Counted, Claimed, Having, Get, IsPart, Assertions, CountIf;
  }

  // The same numbers for a selection of rows, said without the functions above.

  ghost predicate OccurredIn(r: Row, from: Option<Day>, to: Option<Day>) {
    && r.occurred.Some?
    && (from.Some? ==> from.value <= r.occurred.value) && (to.Some? ==> r.occurred.value <= to.value)
  }

  /** How many of the selected rows have an event of the kind in range. */
  ghost function Events(rows: seq<Row>, sel: Row -> bool, t: EventType, from: Option<Day>, to: Option<Day>): nat {
    |set i | 0 <= i < |rows| && sel(rows[i]) && rows[i].event == Some(t) && OccurredIn(rows[i], from, to)|
  }

  /** The assertions with an event of one of the kinds in range, among the selected rows. */
  ghost function Reached(rows: seq<Row>, sel: Row -> bool, ts: set<EventType>, from: Option<Day>, to: Option<Day>)
    : set<AssertionId>
  {
    set r | r in rows && sel(r) && r.event.Some? && r.event.value in ts && OccurredIn(r, from, to) :: r.assertion
  }

  /**
   * The reported numbers of a selection of rows: distinct assertions, events of each kind in range, and the parts of the
   * assertions that were shared, and claimed or accepted into a wallet, in range.
   */
  ghost predicate Measures(e: Engagement, rows: seq<Row>, sel: Row -> bool, from: Option<Day>, to: Option<Day>) {
    && e.issuedCount == |set r | r in rows && sel(r) :: r.assertion|
    && e.counts == Counts(
         publicBadgeView := Events(rows, sel, PublicBadgeView, from, to),
         verificationView := Events(rows, sel, VerificationView, from, to),
         shareClick := Events(rows, sel, ShareClick, from, to),
         learnerClaim := Events(rows, sel, LearnerClaim, from, to),
         walletAccept := Events(rows, sel, WalletAccept, from, to))
    && IsPart(e.shareRate, |Reached(rows, sel, {ShareClick}, from, to)|, e.issuedCount)
    && IsPart(e.claimRate, |Reached(rows, sel, {LearnerClaim, WalletAccept}, from, to)|, e.issuedCount)
  }

  function Both(sel: Row -> bool, p: Row -> bool): Row -> bool {
    (r: Row) => sel(r) && p(r)
  }

  lemma EventPlaces(rows: seq<Row>, sel: Row -> bool, t: EventType, from: Option<Day>, to: Option<Day>)
    ensures |Places(rows, Both(sel, Counted(t, from, to)))| == Events(rows, sel, t, from, to)
  {
    assert Places(rows, Both(sel, Counted(t, from, to)))
        == set i | 0 <= i < |rows| && sel(rows[i]) && rows[i].event == Some(t) && OccurredIn(rows[i], from, to);
  }

  lemma EventsAmong(rows: seq<Row>, sel: Row -> bool, t: EventType, from: Option<Day>, to: Option<Day>)
    ensures CountIf(Where(rows, sel), Counted(t, from, to)) == Events(rows, sel, t, from, to)
  {
    EventPlaces(rows, sel, t, from, to);
    hide Places, Events, EventCounts;
    CountWhere(rows, sel, Counted(t, from, to), Both(sel, Counted(t, from, to)));
    CountIsPlaces(rows, Both(sel, Counted(t, from, to)));
  }

  lemma HavingAmong(rows: seq<Row>, among: seq<Row>, sel: Row -> bool, p: Row -> bool, ts: set<EventType>,
                    from: Option<Day>, to: Option<Day>)
    requires forall r :: r in among <==> r in rows && sel(r)
    requires forall r :: p(r) <==> r.event.Some? && r.event.value in ts && OccurredIn(r, from, to)
    ensures Having(among, p) == Reached(rows, sel, ts, from, to)
  {
  }

  lemma AssertionsAmong(rows: seq<Row>, among: seq<Row>, sel: Row -> bool)
    requires forall r :: r in among <==> r in rows && sel(r)
    ensures Assertions(among) == set r | r in rows && sel(r) :: r.assertion
  {
    forall a ensures a in Assertions(among) <==> exists r | r in rows && sel(r) :: r.assertion == a {
      if r :| r in rows && sel(r) && r.assertion == a {
        assert AssertionOf()(r) == a;
      }
    }
  }

  lemma AggregateMeasures(rows: seq<Row>, sel: Row -> bool, from: Option<Day>, to: Option<Day>)
    ensures var a := AggregateOf(Where(rows, sel), from, to);
            && a.issued == (set r | r in rows && sel(r) :: r.assertion)
            && a.shareEngaged == Reached(rows, sel, {ShareClick}, from, to)
            && a.claimEngaged == Reached(rows, sel, {LearnerClaim, WalletAccept}, from, to)
            && forall t :: Get(a.counts, t) == Events(rows, sel, t, from, to)
  {
    var among := Where(rows, sel);
    AggregateMeans(among, from, to);
    hide Where, AggregateOf, Having, Assertions, Events, Reached, CountIf, Get;
    AssertionsAmong(rows, among, sel);
    HavingAmong(rows, among, sel, Counted(ShareClick, from, to), {ShareClick}, from, to);
    HavingAmong(rows, among, sel, Claimed(from, to), {LearnerClaim, WalletAccept}, from, to);
    forall t ensures Get(AggregateOf(among, from, to).counts, t) == Events(rows, sel, t, from, to) {
      EventsAmong(rows, sel, t, from, to);
    }
  }

  lemma CountsAre(c: Counts)
    ensures c == Counts(Get(c, PublicBadgeView), Get(c, VerificationView), Get(c, ShareClick), Get(c, LearnerClaim),
                        Get(c, WalletAccept))
  {
  }

  /** What is reported of the selected rows measures them. */
  lemma EngagedMeasures(rows: seq<Row>, sel: Row -> bool, from: Option<Day>, to: Option<Day>)
    ensures Measures(Engaged(Where(rows, sel), from, to), rows, sel, from, to)
  {
    var a := AggregateOf(Where(rows, sel), from, to);
    AggregateMeasures(rows, sel, from, to);
    FinalizeMeans(a);
    CountsAre(a.counts);
    hide Where, AggregateOf, Finalize, Events, Reached, Get, IsPart;
  }
}
