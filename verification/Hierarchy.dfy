/** Roll-ups of the engagement counts along the tree of organisation units. */
module Hierarchy {
  import opened Prelude
  import opened StableSort
  import opened Tables
  import opened Partition
  import opened ReportRows
  import opened Grouping
  import opened OrgTree

  datatype Query = Query(
    level: UnitType, from: Option<Day>, to: Option<Day>, template: Option<TemplateId>, unit: Option<UnitId>,
    focus: Option<UnitId>)

  datatype HierarchyError = UnitMissing(id: UnitId) | FocusBelowLevel | BadLineage(error: LineageError)

  /** The filters that a row must pass before its lineage is looked at. */
  predicate Passes(q: Query, r: Row) {
    && (q.template.Some? ==> r.template == q.template.value)
    && (q.unit.Some? ==> r.unit == q.unit.value)
    && InRange(r.issued, q.from, q.to)
  }

  predicate InScope(chain: seq<UnitId>, q: Query, scopes: seq<UnitId>) {
    && (q.focus.Some? ==> q.focus.value in chain)
    && (scopes != [] ==> exists s :: s in scopes && s in chain)
  }

  /** The first unit of the level on the way up. */
  function TargetIn(units: Units, chain: seq<UnitId>, level: UnitType): Option<UnitId> {
    if chain == [] then None
    else if chain[0] in units && units[chain[0]].unitType == level then Some(chain[0])
    else TargetIn(units, chain[1..], level)
  }

  function ChainUp(units: Units, id: UnitId): seq<UnitId> {
    match Lineage(units, Some(id), {})
    case Ok(chain) => chain
    case Err(_) => []
  }

  /** The rows that count, and the unit of the level they count for. */
  function PlacedBy(units: Units, q: Query, scopes: seq<UnitId>): Row -> bool {
    (r: Row) => Passes(q, r) && InScope(ChainUp(units, r.unit), q, scopes) &&
        TargetIn(units, ChainUp(units, r.unit), q.level).Some?
  }

  /** For a row with no unit of the level above it, its own unit. */
  function TargetKey(units: Units, level: UnitType): Row -> UnitId {
    (r: Row) => var t := TargetIn(units, ChainUp(units, r.unit), level); if t.Some? then t.value else r.unit
  }

  function Placed(rows: seq<Row>, units: Units, q: Query, scopes: seq<UnitId>): seq<Row> {
    Where(rows, PlacedBy(units, q, scopes))
  }

  function HierarchyOf(rows: seq<Row>, units: Units, q: Query, scopes: seq<UnitId>, le: (UnitId, UnitId) -> bool)
    : seq<GroupRow<UnitId>>
  {
    Report(Placed(rows, units, q, scopes), TargetKey(units, q.level), q.from, q.to, le)
  }

  /** When the report is given at all. */
  ghost predicate Answerable(rows: seq<Row>, units: Units, q: Query, scopes: seq<UnitId>) {
    && (q.focus.Some? ==> q.focus.value in units && Level(units[q.focus.value].unitType) <= Level(q.level))
    && (forall s :: s in scopes ==> s in units)
    && (forall r :: r in rows && Passes(q, r) ==> Lineage(units, Some(r.unit), {}).Ok?)
  }

  function PlacedUpTo(rows: seq<Row>, n: nat, units: Units, q: Query, scopes: seq<UnitId>): seq<Row>
    requires n <= |rows|
  {
    Placed(rows[..n], units, q, scopes)
  }

  lemma PlacedStep(rows: seq<Row>, n: nat, units: Units, q: Query, scopes: seq<UnitId>)
    requires n < |rows|
    ensures PlacedUpTo(rows, n + 1, units, q, scopes)
            == PlacedUpTo(rows, n, units, q, scopes) + if PlacedBy(units, q, scopes)(rows[n]) then [rows[n]] else []
  {
    WhereAppend(rows[..n], rows[n], PlacedBy(units, q, scopes));
    assert rows[..n + 1] == rows[..n] + [rows[n]];
    hide PlacedBy, Where;
  }

  lemma PlacedEnds(rows: seq<Row>, units: Units, q: Query, scopes: seq<UnitId>)
    ensures PlacedUpTo(rows, 0, units, q, scopes) == []
    ensures PlacedUpTo(rows, |rows|, units, q, scopes) == Placed(rows, units, q, scopes)
  {
    assert rows[..|rows|] == rows && rows[..0] == [];
    hide PlacedBy;
  }

  // What the report shows, in terms of the parent chains.

  /** `g` is the first unit of the level on the chain. */
  ghost predicate FirstOfLevel(units: Units, chain: seq<UnitId>, level: UnitType, g: UnitId) {
    exists i :: && 0 <= i < |chain| && chain[i] == g && g in units && units[g].unitType == level
                && forall k :: 0 <= k < i ==> chain[k] in units ==> units[chain[k]].unitType != level
  }

  /**
   * The row counts for `g`: its template, unit and issue day are those asked for, and on its unit's way up to the root
   * there are the focus and one of the scopes, if any, and `g`, first of its level.
   */
  ghost predicate CountsFor(units: Units, q: Query, scopes: seq<UnitId>, g: UnitId, r: Row) {
    && (q.template == None || q.template == Some(r.template)) && (q.unit == None || q.unit == Some(r.unit))
    && (q.from.Some? ==> q.from.value <= r.issued) && (q.to.Some? ==> r.issued <= q.to.value)
    && exists chain :: && IsChain(units, chain, r.unit) && FirstOfLevel(units, chain, q.level, g)
                       && (q.focus.Some? ==> q.focus.value in chain)
                       && (scopes != [] ==> exists s :: s in scopes && s in chain)
  }

  ghost function CountingFor(units: Units, q: Query, scopes: seq<UnitId>): UnitId -> Row -> bool {
    (g: UnitId) => (r: Row) => CountsFor(units, q, scopes, g, r)
  }

  lemma {:induction false} TargetIsFirst(units: Units, chain: seq<UnitId>, level: UnitType, g: UnitId)
    ensures TargetIn(units, chain, level) == Some(g) <==> FirstOfLevel(units, chain, level, g)
  {
    if chain != [] {
      TargetIsFirst(units, chain[1..], level, g);
      FirstOfLevelCons(units, chain, level, g);
      hide FirstOfLevel;
    }
  }

  lemma FirstOfLevelCons(units: Units, chain: seq<UnitId>, level: UnitType, g: UnitId)
    requires chain != []
    ensures FirstOfLevel(units, chain, level, g) <==>
            if chain[0] in units && units[chain[0]].unitType == level then g == chain[0]
            else FirstOfLevel(units, chain[1..], level, g)
  {
    var rest := chain[1..];
    assert forall k :: 0 <= k < |rest| ==> rest[k] == chain[k + 1];
    if chain[0] in units && units[chain[0]].unitType == level {
    } else if FirstOfLevel(units, rest, level, g) {
      var i :| && 0 <= i < |rest| && rest[i] == g && g in units && units[g].unitType == level
               && forall k :: 0 <= k < i ==> rest[k] in units ==> units[rest[k]].unitType != level;
      forall k | 0 <= k < i + 1 && chain[k] in units ensures units[chain[k]].unitType != level {
        assert k > 0 ==> rest[k - 1] == chain[k];
      }
      assert chain[i + 1] == g;
    } else if FirstOfLevel(units, chain, level, g) {
      var i :| && 0 <= i < |chain| && chain[i] == g && g in units && units[g].unitType == level
               && forall k :: 0 <= k < i ==> chain[k] in units ==> units[chain[k]].unitType != level;
      assert i > 0 && rest[i - 1] == g;
      forall k | 0 <= k < i - 1 && rest[k] in units ensures units[rest[k]].unitType != level {
        assert rest[k] == chain[k + 1];
      }
    }
  }

  lemma CountsForIff(units: Units, q: Query, scopes: seq<UnitId>, g: UnitId, r: Row)
    ensures CountsFor(units, q, scopes, g, r) <==>
            PlacedBy(units, q, scopes)(r) && TargetKey(units, q.level)(r) == g
  {
    var chain := ChainUp(units, r.unit);
    LineageIff(units, r.unit, chain);
    TargetIsFirst(units, chain, q.level, g);
    forall c | IsChain(units, c, r.unit) ensures c == chain {
      LineageIff(units, r.unit, c);
    }
    hide Lineage, IsChain, FirstOfLevel;
    if PlacedBy(units, q, scopes)(r) {
      assert chain != [];
    }
  }

  /** The groups of the report are the units of the level that rows count for. */
  lemma HierarchyShows(rows: seq<Row>, units: Units, q: Query, scopes: seq<UnitId>, le: (UnitId, UnitId) -> bool)
    ensures Shows(HierarchyOf(rows, units, q, scopes, le), rows, CountingFor(units, q, scopes), q.from, q.to, le)
  {
    forall r, g | r in rows
      ensures CountingFor(units, q, scopes)(g)(r) <==>
          PlacedBy(units, q, scopes)(r) && TargetKey(units, q.level)(r) == g
    {
      CountsForIff(units, q, scopes, g, r);
    }
    hide Shows, Report, Where, CountsFor, PlacedBy, TargetKey;
    ReportShows(rows, PlacedBy(units, q, scopes), TargetKey(units, q.level), CountingFor(units, q, scopes),
                q.from, q.to, le);
  }

  /** What each refusal says about the query and the tables. */
  ghost predicate Explains(e: HierarchyError, rows: seq<Row>, units: Units, q: Query, scopes: seq<UnitId>) {
    match e
    case UnitMissing(id) => id !in units && (q.focus == Some(id) || id in scopes)
    case FocusBelowLevel =>
      q.focus.Some? && q.focus.value in units && Level(units[q.focus.value].unitType) > Level(q.level)
    case BadLineage(error) => exists r :: r in rows && Passes(q, r) && Lineage(units, Some(r.unit), {}) == Err(error)
  }

  lemma UnitExplains(id: UnitId, rows: seq<Row>, units: Units, q: Query, scopes: seq<UnitId>)
    requires id !in units && (q.focus == Some(id) || id in scopes)
    ensures Explains(UnitMissing(id), rows, units, q, scopes) && !Answerable(rows, units, q, scopes)
  {
    hide Lineage, Passes;
  }

  lemma LevelExplains(rows: seq<Row>, units: Units, q: Query, scopes: seq<UnitId>)
    requires q.focus.Some? && q.focus.value in units && Level(units[q.focus.value].unitType) > Level(q.level)
    ensures Explains(FocusBelowLevel, rows, units, q, scopes) && !Answerable(rows, units, q, scopes)
  {
    hide Lineage, Passes;
  }

  lemma LineageExplains(rows: seq<Row>, n: nat, units: Units, q: Query, scopes: seq<UnitId>)
    requires n < |rows| && Passes(q, rows[n]) && Lineage(units, Some(rows[n].unit), {}).Err?
    ensures Explains(BadLineage(Lineage(units, Some(rows[n].unit), {}).error), rows, units, q, scopes)
    ensures !Answerable(rows, units, q, scopes)
  {
    hide Lineage, Passes;
    assert rows[n] in rows;
  }

  lemma PlacedByLineage(units: Units, q: Query, scopes: seq<UnitId>, r: Row)
    ensures var lineage := Lineage(units, Some(r.unit), {});
            PlacedBy(units, q, scopes)(r) <==>
            && Passes(q, r) && lineage.Ok? && InScope(lineage.value, q, scopes)
            && TargetIn(units, lineage.value, q.level).Some?
  {
    hide Lineage, Passes, InScope;
  }

  method SummarizeHierarchy(rows: seq<Row>, units: Units, q: Query, scopes: seq<UnitId>, le: (UnitId, UnitId) -> bool)
    returns (report: Result<seq<GroupRow<UnitId>>, HierarchyError>)
    ensures report.Ok? <==> Answerable(rows, units, q, scopes)
    ensures report.Ok? ==>
              && report.value == HierarchyOf(rows, units, q, scopes, le)
              && Shows(report.value, rows, CountingFor(units, q, scopes), q.from, q.to, le)
    ensures report.Err? ==> Explains(report.error, rows, units, q, scopes)
  {
    HierarchyShows(rows, units, q, scopes, le);
    hide Lineage, Passes, InScope, TargetIn, Shows, CountingFor, PlacedBy, ChainUp, Keys, Class, AggregateOf, Explains;
    if q.focus.Some? {
      if q.focus.value !in units {
        UnitExplains(q.focus.value, rows, units, q, scopes);
        return Err(UnitMissing(q.focus.value));
      }
      if Level(units[q.focus.value].unitType) > Level(q.level) {
        LevelExplains(rows, units, q, scopes);
        return Err(FocusBelowLevel);
      }
    }
    for n := 0 to |scopes|
      invariant forall i :: 0 <= i < n ==> scopes[i] in units
    {
      if scopes[n] !in units {
        UnitExplains(scopes[n], rows, units, q, scopes);
        return Err(UnitMissing(scopes[n]));
      }
    }
    PlacedEnds(rows, units, q, scopes);
    hide Placed, PlacedUpTo, Report;
    var groups := new Groups(TargetKey(units, q.level), q.from, q.to);
    for n := 0 to |rows|
      invariant groups.Valid() && groups.seen == PlacedUpTo(rows, n, units, q, scopes)
      invariant forall i :: 0 <= i < n && Passes(q, rows[i]) ==> Lineage(units, Some(rows[i].unit), {}).Ok?
    {
      var row := rows[n];
      PlacedStep(rows, n, units, q, scopes);
      PlacedByLineage(units, q, scopes, row);
      if Passes(q, row) {
        var lineage := ListLineage(units, row.unit);
        if lineage.Err? {
          LineageExplains(rows, n, units, q, scopes);
          return Err(BadLineage(lineage.error));
        }
        if InScope(lineage.value, q, scopes) && TargetIn(units, lineage.value, q.level).Some? {
          groups.Add(row);
        }
      }
    }
    var finished := groups.Finish(le);
    report := Ok(finished);
  }

  // In a forest.

  lemma LevelInjective(a: UnitType, b: UnitType)
    requires Level(a) == Level(b)
    ensures a == b
  {
  }

  lemma ChainUpIs(units: Units, id: UnitId)
    requires Forest(units) && id in units
    ensures Lineage(units, Some(id), {}) == Ok(ChainOf(units, id)) && ChainUp(units, id) == ChainOf(units, id)
  {
    LineageIff(units, id, ChainOf(units, id));
    hide Forest, Lineage, ChainOf;
  }

  lemma {:induction false} TargetAt(units: Units, chain: seq<UnitId>, level: UnitType, i: nat)
    requires (forall k :: 0 <= k < |chain| ==> chain[k] in units) && i <= |chain|
    requires forall k :: 0 <= k < i ==> units[chain[k]].unitType != level
    ensures i == |chain| ==> TargetIn(units, chain, level) == None
    ensures i < |chain| && units[chain[i]].unitType == level ==> TargetIn(units, chain, level) == Some(chain[i])
  {
    if i > 0 {
      assert forall k :: 0 <= k < |chain| - 1 ==> chain[1..][k] == chain[k + 1];
      TargetAt(units, chain[1..], level, i - 1);
    }
  }

  /**
   * A chain of the forest has one unit of each level up to its start: the target is found iff the level is above or
   * at it.
   */
  lemma TargetInForest(units: Units, id: UnitId, level: UnitType)
    requires Forest(units) && id in units
    ensures var chain, top := ChainOf(units, id), Level(units[id].unitType);
            TargetIn(units, chain, level) == if Level(level) <= top then Some(chain[top - Level(level)]) else None
  {
    var chain, top := ChainOf(units, id), Level(units[id].unitType);
    hide Forest, TargetIn;
    if Level(level) <= top {
      LevelInjective(units[chain[top - Level(level)]].unitType, level);
      TargetAt(units, chain, level, top - Level(level));
    } else {
      TargetAt(units, chain, level, |chain|);
    }
  }

  /** The target of a unit's level is that unit exactly below it. */
  lemma TargetIsAncestor(units: Units, id: UnitId, g: UnitId)
    requires Forest(units) && id in units && g in units
    ensures TargetIn(units, ChainOf(units, id), units[g].unitType) == Some(g) <==> g in ChainOf(units, id)
  {
    var chain, top := ChainOf(units, id), Level(units[id].unitType);
    TargetInForest(units, id, units[g].unitType);
    hide Forest, TargetIn;
    if g in chain {
      var k :| 0 <= k < |chain| && chain[k] == g;
      assert Level(units[chain[k]].unitType) == top - k;
    }
  }

  function NextLevel(t: UnitType): UnitType
    requires !t.Program?
  {
    match t
    case Institution => College
    case College => Department
    case Department => Program
  }

  /** Below a unit, a row has a target one level further down iff it is not the unit's own. */
  lemma ChildOrOwn(units: Units, id: UnitId, g: UnitId)
    requires Forest(units) && id in units && g in units && g in ChainOf(units, id) && !units[g].unitType.Program?
    ensures var child := TargetIn(units, ChainOf(units, id), NextLevel(units[g].unitType));
            && (child.None? <==> id == g)
            && (child.Some? ==> child.value in units && units[child.value].unitType == NextLevel(units[g].unitType))
  {
    var chain, top := ChainOf(units, id), Level(units[id].unitType);
    TargetInForest(units, id, NextLevel(units[g].unitType));
    var k :| 0 <= k < |chain| && chain[k] == g;
    hide Forest, TargetIn;
    assert Level(units[chain[k]].unitType) == top - k && chain[0] == id;
    if Level(NextLevel(units[g].unitType)) <= top {
      var c := chain[top - Level(NextLevel(units[g].unitType))];
      LevelInjective(units[c].unitType, NextLevel(units[g].unitType));
    }
  }

  lemma AncestorOfAncestor(units: Units, id: UnitId, g: UnitId, f: UnitId)
    requires Forest(units) && id in units && g in units && g in ChainOf(units, id) && f in ChainOf(units, g)
    ensures f in ChainOf(units, id)
  {
    WithinTransitive(units, units[id].tenantId, id, g, f);
  }

  /** On complete unit lists the report fails only for its own parameters. */
  lemma AnswerableInForest(rows: seq<Row>, units: Units, q: Query, scopes: seq<UnitId>)
    requires Forest(units) && forall r :: r in rows ==> r.unit in units
    ensures Answerable(rows, units, q, scopes) <==>
            && (q.focus.Some? ==> q.focus.value in units && Level(units[q.focus.value].unitType) <= Level(q.level))
            && (forall s :: s in scopes ==> s in units)
  {
    forall r | r in rows ensures Lineage(units, Some(r.unit), {}).Ok? {
      ChainUpIs(units, r.unit);
    }
    hide Lineage, Forest;
  }

  // Conservation.

  /** The rows that count towards unit `g`. */
  function UnderBy(units: Units, q: Query, scopes: seq<UnitId>, g: UnitId): Row -> bool {
    (r: Row) =>
      var chain := ChainUp(units, r.unit);
      Passes(q, r) && (scopes != [] ==> exists s :: s in scopes && s in chain) && g in chain
  }

  function Under(rows: seq<Row>, units: Units, q: Query, scopes: seq<UnitId>, g: UnitId): seq<Row> {
    Where(rows, UnderBy(units, q, scopes, g))
  }

  function AtUnit(g: UnitId): Row -> bool {
    (r: Row) => r.unit == g
  }

  function NotAtUnit(g: UnitId): Row -> bool {
    (r: Row) => r.unit != g
  }

  /** The rows of unit `g`'s group are those at or below `g`. */
  lemma {:induction false} GroupIsUnder(rows: seq<Row>, units: Units, q: Query, scopes: seq<UnitId>, g: UnitId)
    requires Forest(units) && (forall r :: r in rows ==> r.unit in units) && g in units
    requires q.level == units[g].unitType && (q.focus.Some? ==> q.focus.value in ChainOf(units, g))
    ensures Class(Placed(rows, units, q, scopes), TargetKey(units, q.level), g) == Under(rows, units, q, scopes, g)
  {
    forall r | r in rows
      ensures UnderBy(units, q, scopes, g)(r) <==>
          PlacedBy(units, q, scopes)(r) && HasKey(TargetKey(units, q.level), g)(r)
    {
      ChainUpIs(units, r.unit);
      TargetIsAncestor(units, r.unit, g);
      hide Forest, ChainUp, TargetIn, Passes;
      if g in ChainOf(units, r.unit) && q.focus.Some? {
        AncestorOfAncestor(units, r.unit, g, q.focus.value);
      }
      hide ChainOf;
    }
    hide Forest, PlacedBy, UnderBy, HasKey, TargetKey, Where;
    WhereTwice(rows, PlacedBy(units, q, scopes), HasKey(TargetKey(units, q.level), g), UnderBy(units, q, scopes, g));
  }

  /** One level down and focused on `g`, the rows that count are those strictly below `g`. */
  lemma ChildrenAreBelow(rows: seq<Row>, units: Units, q: Query, scopes: seq<UnitId>, g: UnitId)
    requires Forest(units) && (forall r :: r in rows ==> r.unit in units) && g in units && !units[g].unitType.Program?
    ensures Placed(rows, units, q.(level := NextLevel(units[g].unitType), focus := Some(g)), scopes)
            == Where(Under(rows, units, q, scopes, g), NotAtUnit(g))
  {
    var down := q.(level := NextLevel(units[g].unitType), focus := Some(g));
    forall r | r in rows
      ensures PlacedBy(units, down, scopes)(r) <==> UnderBy(units, q, scopes, g)(r) && NotAtUnit(g)(r)
    {
      BelowOne(units, q, scopes, g, r);
    }
    hide Forest, PlacedBy, UnderBy, NextLevel, Where;
    WhereTwice(rows, UnderBy(units, q, scopes, g), NotAtUnit(g), PlacedBy(units, down, scopes));
  }

  lemma BelowOne(units: Units, q: Query, scopes: seq<UnitId>, g: UnitId, r: Row)
    requires Forest(units) && r.unit in units && g in units && !units[g].unitType.Program?
    ensures var down := q.(level := NextLevel(units[g].unitType), focus := Some(g));
            PlacedBy(units, down, scopes)(r) <==> UnderBy(units, q, scopes, g)(r) && NotAtUnit(g)(r)
  {
    ChainUpIs(units, r.unit);
    assert Passes(q.(level := NextLevel(units[g].unitType), focus := Some(g)), r) <==> Passes(q, r);
    hide Forest, ChainUp, TargetIn, Passes, ChainOf;
    if g in ChainOf(units, r.unit) {
      ChildOrOwn(units, r.unit, g);
    }
    hide NextLevel;
  }

  lemma {:induction false} CountSplit(rows: seq<Row>, g: UnitId, p: Row -> bool)
    ensures CountIf(rows, p) == CountIf(Where(rows, NotAtUnit(g)), p) + CountIf(Where(rows, AtUnit(g)), p)
  {
    if rows != [] {
      CountSplit(rows[1..], g, p);
      var below, own := Where(rows[1..], NotAtUnit(g)), Where(rows[1..], AtUnit(g));
      assert ([rows[0]] + below)[1..] == below && [] + below == below;
      assert ([rows[0]] + own)[1..] == own && [] + own == own;
    }
  }

  /** Below `g` the key is a unit of the next level, at `g` it is `g`. */
  ghost predicate KeysApart(below: seq<Row>, own: seq<Row>, key: Row -> UnitId, g: UnitId) {
    (forall r :: r in below ==> key(r) != g) && (forall r :: r in own ==> key(r) == g)
  }

  lemma KeysAreApart(rows: seq<Row>, units: Units, q: Query, scopes: seq<UnitId>, g: UnitId)
    requires Forest(units) && (forall r :: r in rows ==> r.unit in units) && g in units && !units[g].unitType.Program?
    ensures var under := Under(rows, units, q, scopes, g);
            var key := TargetKey(units, NextLevel(units[g].unitType));
            KeysApart(Where(under, NotAtUnit(g)), Where(under, AtUnit(g)), key, g)
  {
    var key := TargetKey(units, NextLevel(units[g].unitType));
    forall r | r in Under(rows, units, q, scopes, g) ensures key(r) == g <==> r.unit == g {
      ChainUpIs(units, r.unit);
      ChildOrOwn(units, r.unit, g);
      hide Forest, ChainUp, TargetIn, ChainOf;
    }
    hide Forest, Under, TargetKey;
  }

  lemma PartsAssertions(under: seq<Row>, g: UnitId)
    ensures Assertions(under) == Assertions(Where(under, NotAtUnit(g))) + Assertions(Where(under, AtUnit(g)))
  {
    assert forall r :: r in under <==> r in Where(under, NotAtUnit(g)) || r in Where(under, AtUnit(g));
    hide Where;
  }

  lemma OneKeyParts(under: seq<Row>, key: Row -> UnitId, g: UnitId)
    requires KeysApart(Where(under, NotAtUnit(g)), Where(under, AtUnit(g)), key, g)
    ensures var below, own := Where(under, NotAtUnit(g)), Where(under, AtUnit(g));
            OneKey(under, key, AssertionOf()) <==>
                OneKey(below, key, AssertionOf()) && Assertions(below) * Assertions(own) == {}
  {
    var below, own, value := Where(under, NotAtUnit(g)), Where(under, AtUnit(g)), AssertionOf();
    assert forall r :: r in under <==> r in below || r in own;
    hide Where, AssertionOf;
    if OneKey(under, key, value) {
      forall x, y | x in below && y in own ensures value(x) != value(y) {
        assert x in under && y in under && key(x) != key(y);
      }
      assert forall a :: !(a in Values(below, value) && a in Values(own, value));
    } else if OneKey(below, key, value) && Values(below, value) * Values(own, value) == {} {
      forall x, y | x in under && y in under && value(x) == value(y) ensures key(x) == key(y) {
        assert value(x) in Values(below, value) * Values(own, value) || (x in below <==> y in below);
      }
    }
  }

  lemma PartsConserve(under: seq<Row>, key: Row -> UnitId, from: Option<Day>, to: Option<Day>, g: UnitId,
          le: (UnitId, UnitId) -> bool)
    requires KeysApart(Where(under, NotAtUnit(g)), Where(under, AtUnit(g)), key, g)
    ensures var below, own := Where(under, NotAtUnit(g)), Where(under, AtUnit(g));
            var children := Report(below, key, from, to, le);
            && (forall t ::
                  Sum(children, EventCount(t)) + CountIf(own, Counted(t, from, to))
                  == CountIf(under, Counted(t, from, to)))
            && Sum(children, IssuedCount()) + |Assertions(own)| >= |Assertions(under)|
            && (Sum(children, IssuedCount()) + |Assertions(own)| == |Assertions(under)| <==>
                OneKey(under, key, AssertionOf()))
  {
    var below, own := Where(under, NotAtUnit(g)), Where(under, AtUnit(g));
    forall t ensures Sum(Report(below, key, from, to, le), EventCount(t)) + CountIf(own, Counted(t, from, to))
                     == CountIf(under, Counted(t, from, to)) {
      EventsPartition(below, key, from, to, le, t);
      CountSplit(under, g, Counted(t, from, to));
    }
    OneKeyParts(under, key, g);
    hide Where, Report, KeysApart, OneKey, Counted, Sum, CountIf, Values;
    IssuedPartition(below, key, from, to, le);
    PartsAssertions(under, g);
    UnionSize(Assertions(below), Assertions(own));
    EmptySize(Assertions(below) * Assertions(own));
  }

  /**
   * The roll-up of `g` is conserved one level down: the children's rows, focused on `g`, together with what is
   * attributed to `g` itself, have `g`'s event counts; they have its issued count iff no assertion falls into two of
   * these parts.
   */
  lemma {:induction false} RollUpConserves(rows: seq<Row>, units: Units, q: Query, scopes: seq<UnitId>, g: UnitId,
          le: (UnitId, UnitId) -> bool)
    requires Forest(units) && (forall r :: r in rows ==> r.unit in units) && g in units && !units[g].unitType.Program?
    requires q.level == units[g].unitType && (q.focus.Some? ==> q.focus.value in ChainOf(units, g))
    ensures var whole := GroupOf(Placed(rows, units, q, scopes), TargetKey(units, q.level), q.from, q.to, g).engagement;
            var children := HierarchyOf(rows, units, q.(level := NextLevel(q.level), focus := Some(g)), scopes, le);
            var under := Under(rows, units, q, scopes, g);
            var own := Where(under, AtUnit(g));
            && (forall t ::
                  Sum(children, EventCount(t)) + CountIf(own, Counted(t, q.from, q.to)) == Get(whole.counts, t))
            && Sum(children, IssuedCount()) + |Assertions(own)| >= whole.issuedCount
            && (Sum(children, IssuedCount()) + |Assertions(own)| == whole.issuedCount <==>
                OneKey(under, TargetKey(units, NextLevel(q.level)), AssertionOf()))
  {
    var under, key := Under(rows, units, q, scopes, g), TargetKey(units, NextLevel(q.level));
    GroupIsUnder(rows, units, q, scopes, g);
    ChildrenAreBelow(rows, units, q, scopes, g);
    KeysAreApart(rows, units, q, scopes, g);
    EngagedMeans(under, q.from, q.to);
    PartsConserve(under, key, q.from, q.to, g, le);
    hide Forest, ChainOf, Under, Placed, TargetKey, Where, Report, Engaged, NextLevel, KeysApart, OneKey, Class,
        Get, Counted, CountIf, Sum, Values, IssuedCount, EventCount;
  }

  /** In particular if every assertion is attributed to one unit. */
  lemma {:induction false} RollUpConservesIssued(rows: seq<Row>, units: Units, q: Query, scopes: seq<UnitId>,
          g: UnitId, le: (UnitId, UnitId) -> bool)
    requires Forest(units) && (forall r :: r in rows ==> r.unit in units) && g in units && !units[g].unitType.Program?
    requires q.level == units[g].unitType && (q.focus.Some? ==> q.focus.value in ChainOf(units, g))
    requires forall r, s :: r in rows && s in rows && r.assertion == s.assertion ==> r.unit == s.unit
    ensures var whole := GroupOf(Placed(rows, units, q, scopes), TargetKey(units, q.level), q.from, q.to, g).engagement;
            var children := HierarchyOf(rows, units, q.(level := NextLevel(q.level), focus := Some(g)), scopes, le);
            var own := Where(Under(rows, units, q, scopes, g), AtUnit(g));
            Sum(children, IssuedCount()) + |Assertions(own)| == whole.issuedCount
  {
    RollUpConserves(rows, units, q, scopes, g, le);
    OneUnitOneKey(rows, Under(rows, units, q, scopes, g), units, NextLevel(q.level));
    hide *;
  }

  lemma OneUnitOneKey(rows: seq<Row>, part: seq<Row>, units: Units, level: UnitType)
    requires forall r, s :: r in rows && s in rows && r.assertion == s.assertion ==> r.unit == s.unit
    requires forall r :: r in part ==> r in rows
    ensures OneKey(part, TargetKey(units, level), AssertionOf())
  {
    hide TargetIn, ChainUp;
  }

  /** A unit has a row in the report iff anything counts for it, and then that row is its group. */
  lemma ReportHasGroup(rows: seq<Row>, key: Row -> UnitId, from: Option<Day>, to: Option<Day>,
          le: (UnitId, UnitId) -> bool, g: UnitId)
    ensures GroupOf(rows, key, from, to, g) in Report(rows, key, from, to, le) <==> exists r :: r in rows && key(r) == g
    ensures forall row :: row in Report(rows, key, from, to, le) ==> row == GroupOf(rows, key, from, to, row.key)
  {
    var ks, gs := Keys(rows, key), GroupRows(rows, key, from, to);
    assert forall row :: row in Report(rows, key, from, to, le) <==> row in gs;
    hide Report, Engaged, Keys;
    if g in ks {
      var i :| 0 <= i < |ks| && ks[i] == g;
      assert gs[i] == GroupOf(rows, key, from, to, g);
    }
  }
}
