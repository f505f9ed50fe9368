/** Joins by one IN query per joined model, distributed in memory, against the nested-loop join. */
module BatchedJoin {
  import opened Prelude
  import opened StableSort
  import opened Tables

  type Field = nat
  type Model = nat
  type Key = nat

  /** A record's columns; a column may be missing or null. */
  type Record = map<Field, Option<Key>>

  datatype Relation = OneToOne | OneToMany

  datatype Join = Join(model: Model, from: Field, to: Field, relation: Relation, limit: Option<nat>)

  datatype Joined = One(row: Option<Record>) | Many(rows: seq<Record>)

  datatype OutputRow = OutputRow(base: Record, joined: map<Model, Joined>)

  const DEFAULT_LIMIT := 100

  function RowLimit(j: Join): nat {
    if j.limit.Some? then j.limit.value else DEFAULT_LIMIT
  }

  function Column(r: Record, f: Field): Option<Key> {
    if f in r then r[f] else None
  }

  /** The non-null keys of the rows, with repetitions. */
  function BaseValues(rows: seq<Record>, from: Field): (r: seq<Key>)
    ensures forall k :: k in r <==> exists i :: 0 <= i < |rows| && Column(rows[i], from) == Some(k)
  {
    if rows == [] then []
    else
      var rest := BaseValues(rows[1..], from);
      var key := Column(rows[0], from);
      assert forall i :: 1 <= i < |rows| ==> rows[i] == rows[1..][i - 1];
      if key.Some? then [key.value] + rest else rest
  }

  function KeyIn(to: Field, values: seq<Key>): Record -> bool {
    (r: Record) => Column(r, to).Some? && Column(r, to).value in values
  }

  function KeyIs(to: Field, key: Option<Key>): Record -> bool {
    (r: Record) => Column(r, to) == key
  }

  function Candidates(table: seq<Record>, rows: seq<Record>, j: Join): seq<Record> {
    Where(table, KeyIn(j.to, BaseValues(rows, j.from)))
  }

  /** The LIMIT of the IN query of a one-to-many join. */
  function GlobalLimit(rows: seq<Record>, j: Join): nat {
    var n := |BaseValues(rows, j.from)|;
    RowLimit(j) * if n < 1 then 1 else n
  }

  /** The rows of the joined table that the IN query returns, in table order. */
  function Fetched(table: seq<Record>, rows: seq<Record>, j: Join): seq<Record> {
    if j.relation.OneToOne? then Candidates(table, rows, j)
    else Limit(Candidates(table, rows, j), GlobalLimit(rows, j))
  }

  function Pick(j: Join, related: seq<Record>): Joined {
    if j.relation.OneToOne? then One(if related == [] then None else Some(related[0]))
    else Many(Limit(related, RowLimit(j)))
  }

  /** What a row gets out of the fetched ones. */
  function Batched(table: seq<Record>, rows: seq<Record>, j: Join, row: Record): Joined {
    Pick(j, Where(Fetched(table, rows, j), KeyIs(j.to, Column(row, j.from))))
  }

  /** The matches of one row, looked up in the whole table; null matches nothing. */
  function Matches(table: seq<Record>, j: Join, row: Record): seq<Record> {
    if Column(row, j.from).None? then [] else Where(table, KeyIs(j.to, Column(row, j.from)))
  }

  function NestedLoop(table: seq<Record>, j: Join, row: Record): Joined {
    Pick(j, Matches(table, j, row))
  }

  // Selecting in two steps.

  lemma WherePrefix(xs: seq<Record>, n: nat, p: Record -> bool)
    ensures Where(Limit(xs, n), p) <= Where(xs, p)
  {
    hide Where;
    if n < |xs| {
      WhereConcat(xs[..n], xs[n..], p);
      assert xs == xs[..n] + xs[n..];
    } else {
      LimitAll(xs, n);
    }
  }

  lemma FetchedHaveKeys(table: seq<Record>, rows: seq<Record>, j: Join)
    ensures forall r :: r in Fetched(table, rows, j) ==> Column(r, j.to).Some?
  {
    hide BaseValues, Where;
  }

  /** The fetched matches of a row are a prefix of all its matches; without a limit they are all of them. */
  lemma FetchedMatches(table: seq<Record>, rows: seq<Record>, j: Join, row: Record)
    requires row in rows
    ensures var got := Where(Fetched(table, rows, j), KeyIs(j.to, Column(row, j.from)));
            && got <= Matches(table, j, row)
            && (j.relation.OneToOne? || |Candidates(table, rows, j)| <= GlobalLimit(rows, j) ==>
                got == Matches(table, j, row))
  {
    var q := KeyIs(j.to, Column(row, j.from));
    BaseValueOf(rows, j.from, row);
    if Column(row, j.from).None? {
      FetchedHaveKeys(table, rows, j);
      hide Where, Fetched;
      WhereNone(Fetched(table, rows, j), q);
    } else {
      WhereTwice(table, KeyIn(j.to, BaseValues(rows, j.from)), q, q);
      hide BaseValues, GlobalLimit, Where, Candidates, Limit, KeyIs;
      WherePrefix(Candidates(table, rows, j), GlobalLimit(rows, j), q);
      LimitAll(Candidates(table, rows, j), GlobalLimit(rows, j));
    }
  }

  lemma BaseValueOf(rows: seq<Record>, from: Field, row: Record)
    requires row in rows
    ensures Column(row, from).Some? ==> Column(row, from).value in BaseValues(rows, from)
  {
    var i :| 0 <= i < |rows| && rows[i] == row;
  }

  lemma LimitAll(xs: seq<Record>, n: nat)
    ensures |xs| <= n ==> Limit(xs, n) == xs
  {
  }

  /** A one-to-one join gives every row its first match in table order. */
  lemma OneToOneAgrees(table: seq<Record>, rows: seq<Record>, j: Join, row: Record)
    requires j.relation.OneToOne? && row in rows
    ensures Batched(table, rows, j, row) == NestedLoop(table, j, row)
  {
    FetchedMatches(table, rows, j, row);
    hide Where, Fetched, Matches;
  }

  /** Beyond the first `limit` candidates, every match has at least `perRow` others before it. */
  ghost predicate ExtrasOnly(candidates: seq<Record>, limit: nat, perRow: nat, matches: Record -> bool) {
    forall p :: limit <= p < |candidates| && matches(candidates[p]) ==> |Where(candidates[..p], matches)| >= perRow
  }

  /** Cutting the candidates leaves all matches, or enough, iff what is cut off is not needed. */
  lemma {:induction false} CutIff(candidates: seq<Record>, limit: nat, perRow: nat, matches: Record -> bool)
    ensures var got, all := |Where(Limit(candidates, limit), matches)|, |Where(candidates, matches)|;
            got >= perRow || got == all <==> ExtrasOnly(candidates, limit, perRow, matches)
    decreases |candidates|
  {
    if |candidates| <= limit {
      LimitAll(candidates, limit);
    } else {
      var front, last := candidates[..|candidates| - 1], candidates[|candidates| - 1];
      CutIff(front, limit, perRow, matches);
      WherePrefix(front, limit, matches);
      WhereAppend(front, last, matches);
      LimitOfFront(candidates, limit);
      hide Where, Limit;
      SameFront(candidates, limit, perRow, matches);
      hide ExtrasOnly;
    }
  }

  lemma LimitOfFront(candidates: seq<Record>, limit: nat)
    requires |candidates| > limit
    ensures var front := candidates[..|candidates| - 1];
            Limit(candidates, limit) == Limit(front, limit) && candidates == front + [candidates[|candidates| - 1]]
  {
  }

  lemma SameFront(candidates: seq<Record>, limit: nat, perRow: nat, matches: Record -> bool)
    requires |candidates| > limit
    ensures var front, last := candidates[..|candidates| - 1], candidates[|candidates| - 1];
            ExtrasOnly(candidates, limit, perRow, matches) <==>
            ExtrasOnly(front, limit, perRow, matches) && (matches(last) ==> |Where(front, matches)| >= perRow)
  {
    var front := candidates[..|candidates| - 1];
    assert forall p :: 0 <= p < |front| ==> candidates[p] == front[p] && candidates[..p] == front[..p];
    hide Where;
  }

  lemma MatchesAmongCandidates(table: seq<Record>, rows: seq<Record>, j: Join, row: Record)
    requires row in rows
    ensures Matches(table, j, row) == Where(Candidates(table, rows, j), KeyIs(j.to, Column(row, j.from)))
  {
    BaseValueOf(rows, j.from, row);
    if Column(row, j.from).None? {
      hide Where;
      WhereNone(Candidates(table, rows, j), KeyIs(j.to, Column(row, j.from)));
    } else {
      var q := KeyIs(j.to, Column(row, j.from));
      WhereTwice(table, KeyIn(j.to, BaseValues(rows, j.from)), q, q);
    }
  }

  /**
   * A one-to-many join is right for a row iff, in the table, every candidate beyond the global limit that matches the
   * row already has as many matches before it as a row may have.
   */
  lemma OneToManyAgreesIff(table: seq<Record>, rows: seq<Record>, j: Join, row: Record)
    requires j.relation.OneToMany? && row in rows
    ensures Batched(table, rows, j, row) == NestedLoop(table, j, row) <==>
            ExtrasOnly(Candidates(table, rows, j), GlobalLimit(rows, j), RowLimit(j), KeyIs(j.to, Column(row, j.from)))
  {
    var matches := KeyIs(j.to, Column(row, j.from));
    FetchedMatches(table, rows, j, row);
    MatchesAmongCandidates(table, rows, j, row);
    assert Fetched(table, rows, j) == Limit(Candidates(table, rows, j), GlobalLimit(rows, j));
    hide Where, Fetched, Matches, Candidates, GlobalLimit, RowLimit, ExtrasOnly, KeyIs;
    PrefixLimit(Where(Fetched(table, rows, j), matches), Matches(table, j, row), RowLimit(j));
    CutIff(Candidates(table, rows, j), GlobalLimit(rows, j), RowLimit(j), matches);
  }

  /** The candidate at `p` can be done without: as many of its key come before it as a row may have. */
  predicate Extra(candidates: seq<Record>, j: Join, p: nat)
    requires p < |candidates|
  {
    |Where(candidates[..p], KeyIs(j.to, Column(candidates[p], j.to)))| >= RowLimit(j)
  }

  /** So the whole join is right iff every candidate beyond the global limit can be done without. */
  lemma JoinAgreesIff(table: seq<Record>, rows: seq<Record>, j: Join)
    requires j.relation.OneToMany?
    ensures var candidates := Candidates(table, rows, j);
            (forall row :: row in rows ==> Batched(table, rows, j, row) == NestedLoop(table, j, row)) <==>
            forall p :: GlobalLimit(rows, j) <= p < |candidates| ==> Extra(candidates, j, p)
  {
    var candidates := Candidates(table, rows, j);
    forall row | row in rows
      ensures Batched(table, rows, j, row) == NestedLoop(table, j, row) <==>
              ExtrasOnly(candidates, GlobalLimit(rows, j), RowLimit(j), KeyIs(j.to, Column(row, j.from)))
    {
      OneToManyAgreesIff(table, rows, j, row);
    }
    forall p | 0 <= p < |candidates|
      ensures exists row :: row in rows && Column(row, j.from) == Column(candidates[p], j.to)
    {
      CandidateHasRow(table, rows, j, p);
    }
    hide *;
    if forall row :: row in rows ==> Batched(table, rows, j, row) == NestedLoop(table, j, row) {
      forall p | GlobalLimit(rows, j) <= p < |candidates| ensures Extra(candidates, j, p) {
        var row :| row in rows && Column(row, j.from) == Column(candidates[p], j.to);
        assert Batched(table, rows, j, row) == NestedLoop(table, j, row);
        UseExtras(candidates, rows, j, row, p);
      }
    }
    if forall p :: GlobalLimit(rows, j) <= p < |candidates| ==> Extra(candidates, j, p) {
      forall row | row in rows ensures Batched(table, rows, j, row) == NestedLoop(table, j, row) {
        AllExtras(candidates, rows, j, row);
      }
    }
  }

  lemma UseExtras(candidates: seq<Record>, rows: seq<Record>, j: Join, row: Record, p: nat)
    requires ExtrasOnly(candidates, GlobalLimit(rows, j), RowLimit(j), KeyIs(j.to, Column(row, j.from)))
    requires GlobalLimit(rows, j) <= p < |candidates| && Column(candidates[p], j.to) == Column(row, j.from)
    ensures Extra(candidates, j, p)
  {
    hide Where, GlobalLimit, RowLimit, Column;
  }

  lemma AllExtras(candidates: seq<Record>, rows: seq<Record>, j: Join, row: Record)
    requires forall p :: GlobalLimit(rows, j) <= p < |candidates| ==> Extra(candidates, j, p)
    ensures ExtrasOnly(candidates, GlobalLimit(rows, j), RowLimit(j), KeyIs(j.to, Column(row, j.from)))
  {
    hide Where, GlobalLimit, RowLimit, Column;
    forall p | GlobalLimit(rows, j) <= p < |candidates| && KeyIs(j.to, Column(row, j.from))(candidates[p])
      ensures |Where(candidates[..p], KeyIs(j.to, Column(row, j.from)))| >= RowLimit(j)
    {
      assert Extra(candidates, j, p);
    }
  }

  lemma CandidateHasRow(table: seq<Record>, rows: seq<Record>, j: Join, p: nat)
    requires p < |Candidates(table, rows, j)|
    ensures exists row :: row in rows && Column(row, j.from) == Column(Candidates(table, rows, j)[p], j.to)
  {
    var candidate := Candidates(table, rows, j)[p];
    assert candidate in Candidates(table, rows, j);
    assert Column(candidate, j.to).value in BaseValues(rows, j.from);
    hide BaseValues, Where;
    var i :| 0 <= i < |rows| && Column(rows[i], j.from) == Some(Column(candidate, j.to).value);
    assert rows[i] in rows;
  }

  lemma PrefixLimit(got: seq<Record>, all: seq<Record>, n: nat)
    requires got <= all
    ensures Limit(got, n) == Limit(all, n) <==> |got| >= n || |got| == |all|
  {
  }

  // When the global limit cannot be reached.

  /** The rows whose key is among `keys`. */
  function OfKeys(to: Field, keys: set<Key>): Record -> bool {
    (r: Record) => Column(r, to).Some? && Column(r, to).value in keys
  }

  lemma {:induction false} SplitCount(xs: seq<Record>, to: Field, keys: set<Key>, k: Key)
    requires k in keys
    ensures |Where(xs, OfKeys(to, keys))| == |Where(xs, OfKeys(to, keys - {k}))| + |Where(xs, KeyIs(to, Some(k)))|
  {
    if xs != [] {
      SplitCount(xs[1..], to, keys, k);
    }
  }

  /** If no key has more than `n` rows, then m keys have at most n * m. */
  lemma {:induction false} CountPerKey(xs: seq<Record>, to: Field, keys: set<Key>, n: nat)
    requires forall k :: k in keys ==> |Where(xs, KeyIs(to, Some(k)))| <= n
    ensures |Where(xs, OfKeys(to, keys))| <= n * |keys|
    decreases |keys|
  {
    hide Where;
    if keys == {} {
      WhereNone(xs, OfKeys(to, keys));
    } else {
      var k :| k in keys;
      SplitCount(xs, to, keys, k);
      CountPerKey(xs, to, keys - {k}, n);
      TimesStep(n, |keys - {k}|);
    }
  }

  lemma TimesStep(n: nat, m: nat)
    ensures n * (m + 1) == n * m + n
  {
  }

  ghost function KeySet(values: seq<Key>): set<Key> {
    set v | v in values
  }

  lemma {:induction false} DistinctAtMost(values: seq<Key>)
    ensures |KeySet(values)| <= |values|
  {
    if values != [] {
      DistinctAtMost(values[1..]);
      assert values == [values[0]] + values[1..];
      assert KeySet(values) == {values[0]} + KeySet(values[1..]);
    }
  }

  lemma TimesMonotone(n: nat, a: nat, b: nat)
    requires a <= b
    ensures n * a <= n * b
  {
  }

  /** No key over the row limit: then the global limit is not reached, and every row gets exactly its matches. */
  lemma WithinLimitAgrees(table: seq<Record>, rows: seq<Record>, j: Join, row: Record)
    requires j.relation.OneToMany? && row in rows
    requires forall r :: r in rows ==> |Matches(table, j, r)| <= RowLimit(j)
    ensures |Candidates(table, rows, j)| <= GlobalLimit(rows, j)
    ensures Batched(table, rows, j, row) == NestedLoop(table, j, row) == Many(Matches(table, j, row))
  {
    FewCandidates(table, rows, j);
    FetchedMatches(table, rows, j, row);
    hide Where, Candidates, GlobalLimit, Matches, Fetched, RowLimit;
  }

  lemma FewCandidates(table: seq<Record>, rows: seq<Record>, j: Join)
    requires forall r :: r in rows ==> |Matches(table, j, r)| <= RowLimit(j)
    ensures |Candidates(table, rows, j)| <= GlobalLimit(rows, j)
  {
    var values := BaseValues(rows, j.from);
    forall k | k in KeySet(values) ensures |Where(table, KeyIs(j.to, Some(k)))| <= RowLimit(j) {
      var i :| 0 <= i < |rows| && Column(rows[i], j.from) == Some(k);
      assert rows[i] in rows && Matches(table, j, rows[i]) == Where(table, KeyIs(j.to, Some(k)));
    }
    WhereSame(table, KeyIn(j.to, values), OfKeys(j.to, KeySet(values)));
    hide Where, Matches, BaseValues, RowLimit;
    CountPerKey(table, j.to, KeySet(values), RowLimit(j));
    DistinctAtMost(values);
    TimesMonotone(RowLimit(j), |KeySet(values)|, |values|);
    TimesMonotone(RowLimit(j), |values|, if |values| < 1 then 1 else |values|);
  }

  /** With one match allowed per row, a second match of one key uses up the limit, and the other key goes without. */
  lemma GlobalLimitStarves(row1: Record, row2: Record, a: Record, b: Record, c: Record, j: Join)
    requires j.relation.OneToMany? && j.limit == Some(1) && Column(row1, j.from).Some? && Column(row2, j.from).Some?
    requires Column(row1, j.from) == Column(a, j.to) == Column(b, j.to) != Column(c, j.to) == Column(row2, j.from)
    ensures Batched([a, b, c], [row1, row2], j, row2) == Many([]) && NestedLoop([a, b, c], j, row2) == Many([c])
  {
    var q := KeyIs(j.to, Column(row2, j.from));
    FetchedTwo(row1, row2, a, b, c, j);
    WhereThree(a, b, c, q);
    assert !q(a) && !q(b) && q(c);
    hide Where, Fetched, Column, KeyIs;
    WhereNone([a, b], q);
    assert [] + [] + [c] == [c];
  }

  lemma FetchedTwo(row1: Record, row2: Record, a: Record, b: Record, c: Record, j: Join)
    requires j.relation.OneToMany? && j.limit == Some(1) && Column(row1, j.from).Some? && Column(row2, j.from).Some?
    requires Column(row1, j.from) == Column(a, j.to) == Column(b, j.to) && Column(c, j.to) == Column(row2, j.from)
    ensures Fetched([a, b, c], [row1, row2], j) == [a, b]
  {
    var values := [Column(row1, j.from).value, Column(row2, j.from).value];
    TwoBaseValues(row1, row2, j.from);
    WhereThree(a, b, c, KeyIn(j.to, values));
    assert KeyIn(j.to, values)(a) && KeyIn(j.to, values)(b) && KeyIn(j.to, values)(c);
    hide Where, BaseValues, Column, KeyIn;
    assert [a] + [b] + [c] == [a, b, c] && [a, b, c][..2] == [a, b];
  }

  lemma TwoBaseValues(row1: Record, row2: Record, from: Field)
    requires Column(row1, from).Some? && Column(row2, from).Some?
    ensures BaseValues([row1, row2], from) == [Column(row1, from).value, Column(row2, from).value]
  {
    assert [row1, row2][1..] == [row2] && [row2][1..] == [];
    assert BaseValues([row2], from) == [Column(row2, from).value];
  }

  lemma WhereThree(a: Record, b: Record, c: Record, p: Record -> bool)
    ensures Where([a, b, c], p) == (if p(a) then [a] else []) + (if p(b) then [b] else []) + (if p(c) then [c] else [])
  {
    hide Where;
    assert [a, b, c] == [a, b] + [c] && [a, b] == [a] + [b] && [a] == [] + [a];
    WhereAppend([a, b], c, p);
    WhereAppend([a], b, p);
    WhereAppend([], a, p);
    WhereNone([], p);
    assert [] + (if p(a) then [a] else []) == if p(a) then [a] else [];
  }

  // What a row gets, in terms of the table alone.

  ghost predicate HasKey(r: Record, f: Field) {
    f in r && r[f] != None
  }

  /** The record at position `i` has the row's key, which is not null. */
  ghost predicate MatchAt(table: seq<Record>, j: Join, row: Record, i: nat)
    requires i < |table|
  {
    HasKey(row, j.from) && HasKey(table[i], j.to) && table[i][j.to] == row[j.from]
  }

  /** The value of a one-to-one join: the first match in table order, null if there is none. */
  ghost predicate IsFirstMatch(x: Joined, table: seq<Record>, j: Join, row: Record) {
    && (x == One(None) <==> forall i | 0 <= i < |table| :: !MatchAt(table, j, row, i))
    && (x == One(None) ||
        exists i | 0 <= i < |table| && MatchAt(table, j, row, i) ::
          x == One(Some(table[i])) && forall k | 0 <= k < i :: !MatchAt(table, j, row, k))
  }

  /** The positions, in order, of the records that match some row. */
  ghost predicate ListsCandidates(at: seq<nat>, table: seq<Record>, rows: seq<Record>, j: Join) {
    && Ascending(at) && (forall i :: i in at ==> i < |table|)
    && forall i | 0 <= i < |table| :: i in at <==> exists row | row in rows :: MatchAt(table, j, row, i)
  }

  /** The number of records the IN query is limited to: the row limit for each row with a key, at least once. */
  ghost predicate IsGlobalLimit(n: nat, rows: seq<Record>, j: Join) {
    var perRow := if j.limit.Some? then j.limit.value else 100;
    var keyed := |set i | 0 <= i < |rows| && HasKey(rows[i], j.from)|;
    n == perRow * if keyed == 0 then 1 else keyed
  }

  /** `at` are the positions in `first`, in order, of the records that match the row. */
  ghost predicate ListsMatches(at: seq<nat>, first: seq<nat>, table: seq<Record>, j: Join, row: Record) {
    && Ascending(at) && (forall i :: i in at ==> i < |table|)
    && forall i | 0 <= i < |table| :: i in at <==> i in first && MatchAt(table, j, row, i)
  }

  /** The value of a one-to-many join: among the candidates within the global limit, the row's first matches in order. */
  ghost predicate AreFirstMatches(x: Joined, table: seq<Record>, rows: seq<Record>, j: Join, row: Record) {
    exists limit: nat, candidates: seq<nat>, at: seq<nat> ::
      && IsGlobalLimit(limit, rows, j) && ListsCandidates(candidates, table, rows, j)
      && ListsMatches(at, Limit(candidates, limit), table, j, row)
      && x.Many? && Picks(x.rows, table, Limit(at, if j.limit.Some? then j.limit.value else 100))
  }

  ghost predicate JoinsRight(x: Joined, table: seq<Record>, rows: seq<Record>, j: Join, row: Record) {
    if j.relation.OneToOne? then IsFirstMatch(x, table, j, row) else AreFirstMatches(x, table, rows, j, row)
  }

  lemma {:induction false} BaseValuesAppend(rows: seq<Record>, row: Record, from: Field)
    ensures |BaseValues(rows + [row], from)| == |BaseValues(rows, from)| + if HasKey(row, from) then 1 else 0
  {
    if rows == [] {
      assert rows + [row] == [row] && [row][1..] == [];
    } else {
      BaseValuesAppend(rows[1..], row, from);
      assert (rows + [row])[1..] == rows[1..] + [row];
    }
  }

  ghost function Keyed(rows: seq<Record>, from: Field): set<int> {
    set i | 0 <= i < |rows| && HasKey(rows[i], from)
  }

  lemma KeyedAppend(rows: seq<Record>, row: Record, from: Field)
    ensures |Keyed(rows + [row], from)| == |Keyed(rows, from)| + if HasKey(row, from) then 1 else 0
  {
    hide HasKey;
    var last := if HasKey(row, from) then {|rows|} else {};
    assert Keyed(rows + [row], from) == Keyed(rows, from) + last;
  }

  lemma {:induction false} KeyedRows(rows: seq<Record>, from: Field)
    ensures |BaseValues(rows, from)| == |Keyed(rows, from)|
    decreases |rows|
  {
    if rows == [] {
      assert Keyed(rows, from) == {};
    } else {
      var n := |rows| - 1;
      KeyedRows(rows[..n], from);
      BaseValuesAppend(rows[..n], rows[n], from);
      KeyedAppend(rows[..n], rows[n], from);
      assert rows == rows[..n] + [rows[n]];
    }
  }

  lemma GlobalLimitIs(rows: seq<Record>, j: Join)
    ensures IsGlobalLimit(GlobalLimit(rows, j), rows, j)
  {
    KeyedRows(rows, j.from);
  }

  lemma CandidatePositions(table: seq<Record>, rows: seq<Record>, j: Join, at: seq<nat>)
    requires Positions(at, table, KeyIn(j.to, BaseValues(rows, j.from)))
    ensures ListsCandidates(at, table, rows, j)
  {
    var values := BaseValues(rows, j.from);
    forall i | 0 <= i < |table| ensures i in at <==> exists row | row in rows :: MatchAt(table, j, row, i) {
      if i in at {
        var k :| 0 <= k < |rows| && Column(rows[k], j.from) == Some(Column(table[i], j.to).value);
        assert rows[k] in rows && MatchAt(table, j, rows[k], i);
      }
      if row :| row in rows && MatchAt(table, j, row, i) {
        BaseValueOf(rows, j.from, row);
      }
    }
  }

  /** `at` are the positions, in order, of all records that match the row. */
  ghost predicate ListsAllMatches(at: seq<nat>, table: seq<Record>, j: Join, row: Record) {
    && Ascending(at) && (forall i :: i in at ==> i < |table|)
    && forall i | 0 <= i < |table| :: i in at <==> MatchAt(table, j, row, i)
  }

  lemma MatchPositions(table: seq<Record>, j: Join, row: Record) returns (at: seq<nat>)
    ensures ListsAllMatches(at, table, j, row) && Picks(Matches(table, j, row), table, at)
  {
    at := [];
    if Column(row, j.from).Some? {
      at := WherePositions(table, KeyIs(j.to, Column(row, j.from)));
    }
  }

  lemma FirstOfMatches(xs: seq<Record>, at: seq<nat>, table: seq<Record>, j: Join, row: Record)
    requires ListsAllMatches(at, table, j, row) && Picks(xs, table, at)
    ensures IsFirstMatch(One(if xs == [] then None else Some(xs[0])), table, j, row)
  {
    hide MatchAt;
    if at != [] {
      assert at[0] in at;
      FirstIsLeast(at);
      forall k | 0 <= k < at[0] ensures !MatchAt(table, j, row, k) { }
    }
  }

  /** What the nested loop gives a row: its first match, or as many first ones as it may have, in table order. */
  lemma NestedLoopMeans(table: seq<Record>, j: Join, row: Record)
    ensures j.relation.OneToOne? ==> IsFirstMatch(NestedLoop(table, j, row), table, j, row)
    ensures j.relation.OneToMany? ==>
              exists at: seq<nat> ::
                && ListsAllMatches(at, table, j, row) && NestedLoop(table, j, row).Many?
                && Picks(NestedLoop(table, j, row).rows, table, Limit(at, if j.limit.Some? then j.limit.value else 100))
  {
    var at := MatchPositions(table, j, row);
    FirstOfMatches(Matches(table, j, row), at, table, j, row);
    LimitPicks(table, Matches(table, j, row), at, RowLimit(j));
    hide Matches, IsFirstMatch, ListsAllMatches, Picks, Limit;
  }

  lemma OneToOneMeans(table: seq<Record>, rows: seq<Record>, j: Join, row: Record)
    requires j.relation.OneToOne? && row in rows
    ensures IsFirstMatch(Batched(table, rows, j, row), table, j, row)
  {
    OneToOneAgrees(table, rows, j, row);
    NestedLoopMeans(table, j, row);
    hide Batched, NestedLoop, IsFirstMatch;
  }

  lemma CandidateList(table: seq<Record>, rows: seq<Record>, j: Join) returns (candidates: seq<nat>)
    requires j.relation.OneToMany?
    ensures ListsCandidates(candidates, table, rows, j)
    ensures var first := Limit(candidates, GlobalLimit(rows, j));
            && Picks(Fetched(table, rows, j), table, first) && Ascending(first)
            && forall i :: i in first ==> i < |table| && Column(table[i], j.to).Some?
  {
    candidates := WherePositions(table, KeyIn(j.to, BaseValues(rows, j.from)));
    CandidatePositions(table, rows, j, candidates);
    LimitPicks(table, Candidates(table, rows, j), candidates, GlobalLimit(rows, j));
    hide Where, GlobalLimit, BaseValues;
    CandidatesHaveKeys(candidates, Limit(candidates, GlobalLimit(rows, j)), table, rows, j);
  }

  /** The positions, in the table, of the fetched records and of those among them that match the row. */
  lemma FetchedPositions(table: seq<Record>, rows: seq<Record>, j: Join, row: Record)
    returns (candidates: seq<nat>, at: seq<nat>)
    requires j.relation.OneToMany? && row in rows
    ensures ListsCandidates(candidates, table, rows, j)
    ensures ListsMatches(at, Limit(candidates, GlobalLimit(rows, j)), table, j, row)
    ensures Picks(Where(Fetched(table, rows, j), KeyIs(j.to, Column(row, j.from))), table, at)
  {
    var q, fetched := KeyIs(j.to, Column(row, j.from)), Fetched(table, rows, j);
    candidates := CandidateList(table, rows, j);
    var first := Limit(candidates, GlobalLimit(rows, j));
    hide *;
    var inner := WherePositions(fetched, q);
    at := Compose(table, fetched, first, q, inner, Where(fetched, q));
    MatchesAmong(at, first, table, j, row);
  }

  lemma MatchesAmong(at: seq<nat>, first: seq<nat>, table: seq<Record>, j: Join, row: Record)
    requires Ascending(at) && (forall i :: i in at ==> i < |table|)
    requires forall i :: 0 <= i < |table| ==> (i in at <==> i in first && KeyIs(j.to, Column(row, j.from))(table[i]))
    requires forall i :: i in first ==> i < |table| && Column(table[i], j.to).Some?
    ensures ListsMatches(at, first, table, j, row)
  {
    hide Ascending;
  }

  lemma CandidatesHaveKeys(candidates: seq<nat>, first: seq<nat>, table: seq<Record>, rows: seq<Record>, j: Join)
    requires Positions(candidates, table, KeyIn(j.to, BaseValues(rows, j.from))) && first <= candidates
    ensures Ascending(first) && forall i :: i in first ==> i < |table| && Column(table[i], j.to).Some?
  {
    hide BaseValues;
    forall i | i in first ensures i < |table| && Column(table[i], j.to).Some? {
      assert i in candidates;
    }
  }

  lemma Compose(table: seq<Record>, fetched: seq<Record>, first: seq<nat>, q: Record -> bool, inner: seq<nat>,
                got: seq<Record>) returns (at: seq<nat>)
    requires Ascending(first) && Picks(fetched, table, first)
    requires Positions(inner, fetched, q) && Picks(got, fetched, inner)
    ensures Ascending(at) && (forall i :: i in at ==> i < |table|) && Picks(got, table, at)
    ensures forall i :: 0 <= i < |table| ==> (i in at <==> i in first && q(table[i]))
  {
    ComposedPositions(table, fetched, first, q, inner);
    ComposedPicks(table, fetched, got, first, inner);
    at := Composed(first, inner);
  }

  lemma OneToManyMeans(table: seq<Record>, rows: seq<Record>, j: Join, row: Record)
    requires j.relation.OneToMany? && row in rows
    ensures AreFirstMatches(Batched(table, rows, j, row), table, rows, j, row)
  {
    var candidates, at := FetchedPositions(table, rows, j, row);
    LimitPicks(table, Where(Fetched(table, rows, j), KeyIs(j.to, Column(row, j.from))), at, RowLimit(j));
    GlobalLimitIs(rows, j);
    hide Where, Fetched, MatchAt, KeyIs, ListsMatches, IsGlobalLimit, ListsCandidates, Picks, Limit;
  }

  /** What a row is given is the first match, or the first matches among the candidates within the global limit. */
  lemma BatchedMeans(table: seq<Record>, rows: seq<Record>, j: Join, row: Record)
    requires row in rows
    ensures JoinsRight(Batched(table, rows, j, row), table, rows, j, row)
  {
    hide Batched, IsFirstMatch, AreFirstMatches;
    if j.relation.OneToOne? {
      OneToOneMeans(table, rows, j, row);
    } else {
      OneToManyMeans(table, rows, j, row);
    }
  }

  // The nested loops.

  type Database = map<Model, seq<Record>>

  function TableOf(db: Database, m: Model): seq<Record> {
    if m in db then db[m] else []
  }

  /** Every row carries, for each of the first `count` joins, what the batched join gives it. */
  ghost predicate Attached(out: seq<OutputRow>, db: Database, rows: seq<Record>, joins: seq<Join>, count: nat) {
    && |out| == |rows| && count <= |joins|
    && (forall i :: 0 <= i < |rows| ==> out[i].base == rows[i])
    && (forall i, n :: 0 <= i < |rows| && 0 <= n < count ==>
          joins[n].model in out[i].joined
          && out[i].joined[joins[n].model] == Batched(TableOf(db, joins[n].model), rows, joins[n], rows[i]))
  }

  /** The first `n` rows have got their values of one more join, the others are as before. */
  ghost predicate Written(before: seq<OutputRow>, now: seq<OutputRow>, j: Join, table: seq<Record>,
          rows: seq<Record>, n: nat) {
    && |now| == |before| == |rows| && n <= |rows|
    && (forall i :: 0 <= i < |rows| ==> before[i].base == rows[i])
    && (forall i :: 0 <= i < |rows| ==>
          now[i] == if i < n
                    then before[i].(joined := before[i].joined[j.model := Batched(table, rows, j, rows[i])])
                    else before[i])
  }

  lemma WriteOne(before: seq<OutputRow>, now: seq<OutputRow>, j: Join, table: seq<Record>, rows: seq<Record>, n: nat)
    requires Written(before, now, j, table, rows, n) && n < |rows|
    ensures now[n].base == rows[n]
    ensures Written(before, now[n := now[n].(joined := now[n].joined[j.model := Batched(table, rows, j, rows[n])])],
        j, table, rows, n + 1)
  {
    hide Batched;
  }

  lemma NoBaseValues(table: seq<Record>, rows: seq<Record>, j: Join, row: Record)
    requires BaseValues(rows, j.from) == [] && row in rows
    ensures Batched(table, rows, j, row) == if j.relation.OneToOne? then One(None) else Many([])
  {
    BaseValueOf(rows, j.from, row);
    FetchedMatches(table, rows, j, row);
    hide Where, Fetched, BaseValues;
  }

  lemma NothingAttached(out: seq<OutputRow>, db: Database, rows: seq<Record>, joins: seq<Join>)
    requires |out| == |rows| && forall i :: 0 <= i < |rows| ==> out[i].base == rows[i]
    ensures Attached(out, db, rows, joins, 0)
  {
  }

  lemma NothingWritten(before: seq<OutputRow>, db: Database, j: Join, table: seq<Record>, rows: seq<Record>,
          joins: seq<Join>, n: nat)
    requires Attached(before, db, rows, joins, n)
    ensures Written(before, before, j, table, rows, 0)
  {
  }

  lemma AttachedOneMore(before: seq<OutputRow>, now: seq<OutputRow>, db: Database, rows: seq<Record>,
          joins: seq<Join>, n: nat)
    requires n < |joins| && forall m, n :: 0 <= m < n < |joins| ==> joins[m].model != joins[n].model
    requires Attached(before, db, rows, joins, n)
    requires Written(before, now, joins[n], TableOf(db, joins[n].model), rows, |rows|)
    ensures Attached(now, db, rows, joins, n + 1)
  {
    hide Batched, TableOf;
  }

  lemma AttachedRight(out: seq<OutputRow>, db: Database, rows: seq<Record>, joins: seq<Join>)
    requires Attached(out, db, rows, joins, |joins|)
    ensures |out| == |rows| && forall i :: 0 <= i < |rows| ==> out[i].base == rows[i]
    ensures forall i, n :: 0 <= i < |rows| && 0 <= n < |joins| ==>
              var m := joins[n].model;
              && m in out[i].joined
              && JoinsRight(out[i].joined[m], if m in db then db[m] else [], rows, joins[n], rows[i])
  {
    hide Batched, JoinsRight;
    forall i, n | 0 <= i < |rows| && 0 <= n < |joins|
      ensures JoinsRight(Batched(TableOf(db, joins[n].model), rows, joins[n], rows[i]),
                         TableOf(db, joins[n].model), rows, joins[n], rows[i])
    {
      BatchedMeans(TableOf(db, joins[n].model), rows, joins[n], rows[i]);
    }
  }

  /** `joins` has one entry per joined model. */
  method AttachJoinedRows(db: Database, rows: seq<Record>, joins: seq<Join>) returns (r: seq<OutputRow>)
    requires forall m, n :: 0 <= m < n < |joins| ==> joins[m].model != joins[n].model
    ensures |r| == |rows| && forall i :: 0 <= i < |rows| ==> r[i].base == rows[i]
    ensures forall i, n :: 0 <= i < |rows| && 0 <= n < |joins| ==>
              var m := joins[n].model;
              && m in r[i].joined
              && JoinsRight(r[i].joined[m], if m in db then db[m] else [], rows, joins[n], rows[i])
    ensures Attached(r, db, rows, joins, |joins|)
  {
    if |rows| == 0 {
      return [];
    }
    hide JoinsRight, Where, Limit, GlobalLimit, RowLimit, Candidates, BaseValues, Written, Attached, Pick, Fetched;
    var outputRows := new OutputRow[|rows|](i requires 0 <= i < |rows| => OutputRow(rows[i], map[]));
    NothingAttached(outputRows[..], db, rows, joins);
    for n := 0 to |joins|
      invariant Attached(outputRows[..], db, rows, joins, n)
    {
      var j := joins[n];
      var table := TableOf(db, j.model);
      var baseValues := BaseValues(rows, j.from);
      ghost var before := outputRows[..];
      NothingWritten(before, db, j, table, rows, joins, n);
      if |baseValues| == 0 {
        forall row | row in rows
          ensures Batched(table, rows, j, row) == if j.relation.OneToOne? then One(None) else Many([])
        {
          NoBaseValues(table, rows, j, row);
        }
        for i := 0 to |rows|
          invariant Written(before, outputRows[..], j, table, rows, i)
        {
          WriteOne(before, outputRows[..], j, table, rows, i);
          var none := if j.relation.OneToOne? then One(None) else Many([]);
          outputRows[i] := outputRows[i].(joined := outputRows[i].joined[j.model := none]);
        }
      } else {
        var joinedRows := Fetched(table, rows, j);
        for i := 0 to |rows|
          invariant Written(before, outputRows[..], j, table, rows, i)
        {
          var relatedRows := Where(joinedRows, KeyIs(j.to, Column(outputRows[i].base, j.from)));
          WriteOne(before, outputRows[..], j, table, rows, i);
          outputRows[i] := outputRows[i].(joined := outputRows[i].joined[j.model := Pick(j, relatedRows)]);
        }
      }
      AttachedOneMore(before, outputRows[..], db, rows, joins, n);
    }
    r := outputRows[..];
    AttachedRight(r, db, rows, joins);
  }
}
