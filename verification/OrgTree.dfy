/** Organisation units: the typed forest that creation and seeding build, and the walks up to its roots. */
module OrgTree {
  import opened Prelude

  type TenantId = nat

  /** A tenant's own institution has an identifier derived from the tenant's; all others are random. */
  datatype UnitId = InstitutionOf(tenantId: TenantId) | Generated(serial: nat)

  datatype UnitType = Institution | College | Department | Program

  datatype OrgUnit = OrgUnit(
    tenantId: TenantId, unitType: UnitType, slug: string, parent: Option<UnitId>, isActive: bool)

  type Units = map<UnitId, OrgUnit>

  const INSTITUTION_SLUG := "institution"

  function RequiredParentType(t: UnitType): Option<UnitType> {
    match t
    case Institution => None
    case College => Some(Institution)
    case Department => Some(College)
    case Program => Some(Department)
  }

  function Level(t: UnitType): nat {
    match t
    case Institution => 0
    case College => 1
    case Department => 2
    case Program => 3
  }

  datatype OrgError =
    | ParentNotAllowed | ParentRequired | ParentNotFound | WrongParentType | ParentInactive | SlugTaken

  predicate SlugUsed(units: Units, t: TenantId, slug: string) {
    exists u :: u in units && units[u].tenantId == t && units[u].slug == slug
  }

  /** A creation call; `id` is a fresh random identifier. */
  datatype NewUnit = NewUnit(id: UnitId, tenantId: TenantId, unitType: UnitType, slug: string, parent: Option<UnitId>)

  function Check(units: Units, n: NewUnit): Option<OrgError> {
    var required := RequiredParentType(n.unitType);
    if required.None? && n.parent.Some? then Some(ParentNotAllowed)
    else if required.Some? && n.parent.None? then Some(ParentRequired)
    else if n.parent.Some? && !(n.parent.value in units && units[n.parent.value].tenantId == n.tenantId) then
      Some(ParentNotFound)
    else if n.parent.Some? && units[n.parent.value].unitType != required.value then Some(WrongParentType)
    else if n.parent.Some? && !units[n.parent.value].isActive then Some(ParentInactive)
    else if SlugUsed(units, n.tenantId, n.slug) then Some(SlugTaken)
    else None
  }

  function Created(units: Units, n: NewUnit): Units {
    if Check(units, n).Some? then units
    else units[n.id := OrgUnit(n.tenantId, n.unitType, n.slug, n.parent, true)]
  }

  /** INSERT … ON CONFLICT DO NOTHING: the identifier or the slug may already be taken. */
  function Seeded(units: Units, t: TenantId): Units {
    if InstitutionOf(t) in units || SlugUsed(units, t, INSTITUTION_SLUG) then units
    else units[InstitutionOf(t) := OrgUnit(t, Institution, INSTITUTION_SLUG, None, true)]
  }

  datatype Op = CreateOp(unit: NewUnit) | SeedOp(tenantId: TenantId)

  function Step(units: Units, op: Op): Units {
    match op
    case CreateOp(n) => Created(units, n)
    case SeedOp(t) => Seeded(units, t)
  }

  /** Created identifiers are generated and new. */
  predicate Fresh(units: Units, ops: seq<Op>)
    decreases |ops|
  {
    ops == [] ||
    ((ops[0].CreateOp? ==> ops[0].unit.id.Generated? && ops[0].unit.id !in units) &&
        Fresh(Step(units, ops[0]), ops[1..]))
  }

  function Run(units: Units, ops: seq<Op>): Units
    decreases |ops|
  {
    if ops == [] then units else Run(Step(units, ops[0]), ops[1..])
  }

  // The invariant: parents are one level up in the same tenant.

  ghost predicate WellParented(units: Units, u: OrgUnit) {
    match RequiredParentType(u.unitType)
    case None => u.parent.None?
    case Some(t) =>
      u.parent.Some? && u.parent.value in units && units[u.parent.value].unitType == t
      && units[u.parent.value].tenantId == u.tenantId
  }

  ghost predicate Forest(units: Units) {
    && (forall u :: u in units ==> WellParented(units, units[u]))
    && (forall u :: u in units && u.InstitutionOf? ==>
        units[u].tenantId == u.tenantId && units[u].unitType == Institution)
  }

  ghost predicate SlugsUnique(units: Units) {
    forall u, v :: u in units && v in units ==>
        (units[u].tenantId == units[v].tenantId && units[u].slug == units[v].slug ==> u == v)
  }

  /** A unit is created iff it would be well parented, under an active parent, with a free slug. */
  lemma CreatedIff(units: Units, n: NewUnit)
    ensures Check(units, n).None? <==>
            && WellParented(units, OrgUnit(n.tenantId, n.unitType, n.slug, n.parent, true))
            && (n.parent.Some? && n.parent.value in units ==> units[n.parent.value].isActive)
            && !SlugUsed(units, n.tenantId, n.slug)
  {
  }

  /** The four levels, from the top, and the level each parent must have. */
  lemma LevelsOrdered()
    ensures Level(Institution) < Level(College) < Level(Department) < Level(Program)
    ensures forall t, p :: RequiredParentType(t) == Some(p) <==>
              (p, t) in {(Institution, College), (College, Department), (Department, Program)}
    ensures forall t, p :: RequiredParentType(t) == Some(p) <==> Level(p) + 1 == Level(t)
  {
  }

  ghost predicate SlugFree(units: Units, t: TenantId, slug: string) {
    forall u :: u in units && units[u].tenantId == t ==> units[u].slug != slug
  }

  /** An institution has no parent, any other unit an active one of its tenant, one level up. */
  ghost predicate ParentFits(units: Units, n: NewUnit) {
    match n.parent
    case None => n.unitType == Institution
    case Some(p) =>
      && p in units && units[p].tenantId == n.tenantId && units[p].isActive
      && (units[p].unitType, n.unitType) in {(Institution, College), (College, Department), (Department, Program)}
  }

  /** What each refusal says about the call. */
  ghost predicate ExplainsRefusal(e: OrgError, units: Units, n: NewUnit) {
    match e
    case ParentNotAllowed => n.unitType == Institution && n.parent.Some?
    case ParentRequired => n.unitType != Institution && n.parent.None?
    case SlugTaken => ParentFits(units, n) && !SlugFree(units, n.tenantId, n.slug)
    case ParentNotFound =>
      && n.unitType != Institution && n.parent.Some?
      && !(n.parent.value in units && units[n.parent.value].tenantId == n.tenantId)
    case _ =>
      && n.unitType != Institution && n.parent.Some?
      && n.parent.value in units && units[n.parent.value].tenantId == n.tenantId
      && var pair := (units[n.parent.value].unitType, n.unitType);
         var oneUp := pair in {(Institution, College), (College, Department), (Department, Program)};
         if e == WrongParentType then !oneUp else oneUp && !units[n.parent.value].isActive
  }

  lemma InsertKeepsForest(units: Units, id: UnitId, u: OrgUnit)
    requires Forest(units) && id !in units && WellParented(units, u)
    requires id.InstitutionOf? ==> u.tenantId == id.tenantId && u.unitType == Institution
    ensures Forest(units[id := u])
  {
  }

  lemma {:induction false} ForestAlways(units: Units, ops: seq<Op>)
    requires Forest(units) && SlugsUnique(units) && Fresh(units, ops)
    ensures Forest(Run(units, ops)) && SlugsUnique(Run(units, ops))
    decreases |ops|
  {
    if ops != [] {
      StepKeepsForest(units, ops[0]);
      hide Forest, SlugsUnique, Step;
      ForestAlways(Step(units, ops[0]), ops[1..]);
    }
  }

  lemma StepKeepsForest(units: Units, op: Op)
    requires Forest(units) && SlugsUnique(units)
    requires op.CreateOp? ==> op.unit.id.Generated? && op.unit.id !in units
    ensures Forest(Step(units, op)) && SlugsUnique(Step(units, op))
  {
    match op {
      case CreateOp(n) =>
        var u := OrgUnit(n.tenantId, n.unitType, n.slug, n.parent, true);
        if Check(units, n).None? {
          InsertKeepsForest(units, n.id, u);
        }
        hide Forest;
      case SeedOp(t) =>
        if Seeded(units, t) != units {
          InsertKeepsForest(units, InstitutionOf(t), OrgUnit(t, Institution, INSTITUTION_SLUG, None, true));
        }
        hide Forest;
    }
  }

  /** Seeding hands out the derived identifier in any case; the unit exists iff its slug is not another unit's. */
  lemma SeededExistsIff(units: Units, t: TenantId)
    requires SlugsUnique(units)
    ensures InstitutionOf(t) in Seeded(units, t) <==>
            InstitutionOf(t) in units || !SlugUsed(units, t, INSTITUTION_SLUG)
  {
  }

  /** An institution created under the slug of the tenant's own: seeding then hands out an identifier without a unit. */
  lemma SlugTakenBeforeSeeding(t: TenantId)
    ensures var create := CreateOp(NewUnit(Generated(0), t, Institution, INSTITUTION_SLUG, None));
            Fresh(map[], [create, SeedOp(t)]) && Run(map[], [create, SeedOp(t)]).Keys == {Generated(0)}
  {
    var create := CreateOp(NewUnit(Generated(0), t, Institution, INSTITUTION_SLUG, None));
    var units := Step(map[], create);
    assert units.Keys == {Generated(0)} && units[Generated(0)].slug == INSTITUTION_SLUG;
    assert SlugUsed(units, t, INSTITUTION_SLUG);
    assert [create, SeedOp(t)][1..] == [SeedOp(t)] && [SeedOp(t)][1..] == [];
    assert Run(units, [SeedOp(t)]) == Run(Step(units, SeedOp(t)), []) == units;
  }

  // Walking up.

  datatype LineageError = Cycle | Missing(id: UnitId)

  /** The walk of the reports, for any table of units, with the visited identifiers it carries along. */
  function Lineage(units: Units, at: Option<UnitId>, visited: set<UnitId>): Result<seq<UnitId>, LineageError>
    requires visited <= units.Keys
    decreases |units.Keys - visited|
  {
    if at.None? then Ok([])
    else if at.value in visited then Err(Cycle)
    else if at.value !in units then Err(Missing(at.value))
    else
      assert units.Keys - (visited + {at.value}) < units.Keys - visited by {
        SmallerRest(units.Keys, visited, at.value);
      }
      SubsetSize(units.Keys - (visited + {at.value}), units.Keys - visited, at.value);
      match Lineage(units, units[at.value].parent, visited + {at.value})
      case Ok(rest) => Ok([at.value] + rest)
      case Err(e) => Err(e)
  }

  lemma SmallerRest(all: set<UnitId>, visited: set<UnitId>, id: UnitId)
    requires id in all && id !in visited
    ensures all - (visited + {id}) < all - visited
  {
    assert id in all - visited && id !in all - (visited + {id});
  }

  lemma SubsetSize(small: set<UnitId>, large: set<UnitId>, id: UnitId)
    requires small < large && small == large - {id} && id in large
    ensures |small| < |large|
  {
  }

  /** A parent chain from `id` that ends in a root. */
  ghost predicate IsChain(units: Units, chain: seq<UnitId>, id: UnitId) {
    && chain != [] && chain[0] == id
    && (forall i :: 0 <= i < |chain| ==> chain[i] in units)
    && (forall i :: 0 <= i < |chain| - 1 ==> units[chain[i]].parent == Some(chain[i + 1]))
    && units[chain[|chain| - 1]].parent == None
  }

  lemma ChainTail(units: Units, chain: seq<UnitId>, i: nat)
    requires chain != [] && IsChain(units, chain, chain[0]) && i < |chain|
    ensures IsChain(units, chain[i..], chain[i])
  {
    var tail := chain[i..];
    assert forall k :: 0 <= k < |tail| ==> tail[k] == chain[i + k];
  }

  lemma ChainEnds(units: Units, chain: seq<UnitId>, id: UnitId)
    requires IsChain(units, chain, id)
    ensures units[id].parent == if |chain| > 1 then Some(chain[1]) else None
  {
    if |chain| > 1 {
      assert units[chain[0]].parent == Some(chain[0 + 1]);
    }
  }

  lemma {:induction false} ChainUnique(units: Units, a: seq<UnitId>, b: seq<UnitId>, id: UnitId)
    requires IsChain(units, a, id) && IsChain(units, b, id)
    ensures a == b
    decreases |a|
  {
    assert a == [id] + a[1..] && b == [id] + b[1..];
    ChainEnds(units, a, id);
    ChainEnds(units, b, id);
    if |a| > 1 && |b| > 1 {
      ChainTail(units, a, 1);
      ChainTail(units, b, 1);
      ChainUnique(units, a[1..], b[1..], a[1]);
    }
  }

  lemma ChainVisitsOnce(units: Units, chain: seq<UnitId>, id: UnitId, i: nat, j: nat)
    requires IsChain(units, chain, id) && i < |chain| && j < |chain| && chain[i] == chain[j]
    ensures i == j
  {
    ChainTail(units, chain, i);
    ChainTail(units, chain, j);
    ChainUnique(units, chain[i..], chain[j..], chain[i]);
    assert |chain[i..]| == |chain| - i && |chain[j..]| == |chain| - j;
  }

  lemma {:induction false} LineageIsChain(units: Units, id: UnitId, visited: set<UnitId>)
    requires visited <= units.Keys
    ensures var r := Lineage(units, Some(id), visited); r.Ok? ==> IsChain(units, r.value, id)
    ensures var r := Lineage(units, Some(id), visited); r.Err? && r.error.Missing? ==> r.error.id !in units
    decreases |units.Keys - visited|
  {
    if id !in visited && id in units && units[id].parent.Some? {
      SmallerRest(units.Keys, visited, id);
      SubsetSize(units.Keys - (visited + {id}), units.Keys - visited, id);
      LineageIsChain(units, units[id].parent.value, visited + {id});
      ChainCons(units, id, visited);
    }
  }

  lemma ChainCons(units: Units, id: UnitId, visited: set<UnitId>)
    requires visited <= units.Keys && id !in visited && id in units && units[id].parent.Some?
    requires var r := Lineage(units, units[id].parent, visited + {id}); r.Ok? ==>
        IsChain(units, r.value, units[id].parent.value)
    ensures var r := Lineage(units, Some(id), visited); r.Ok? ==> IsChain(units, r.value, id)
  {
    var r := Lineage(units, units[id].parent, visited + {id});
    if r.Ok? {
      var chain := [id] + r.value;
      assert forall i :: 1 <= i < |chain| ==> chain[i] == r.value[i - 1];
      assert Lineage(units, Some(id), visited) == Ok(chain);
    }
  }

  lemma {:induction false} ChainIsLineage(units: Units, chain: seq<UnitId>, id: UnitId, visited: set<UnitId>)
    requires visited <= units.Keys && IsChain(units, chain, id)
    requires forall i :: 0 <= i < |chain| ==> chain[i] !in visited
    ensures Lineage(units, Some(id), visited) == Ok(chain)
    decreases |chain|
  {
    assert chain == [id] + chain[1..];
    if |chain| > 1 {
      ChainTail(units, chain, 1);
      forall i | 0 <= i < |chain[1..]| ensures chain[1..][i] !in visited + {id} {
        if chain[i + 1] == id {
          ChainVisitsOnce(units, chain, id, 0, i + 1);
        }
      }
      ChainIsLineage(units, chain[1..], chain[1], visited + {id});
    }
  }

  /**
   * On any table, the walk returns exactly the one parent chain that ends in a root, if there is one, and throws
   * otherwise.
   */
  lemma LineageIff(units: Units, id: UnitId, chain: seq<UnitId>)
    ensures Lineage(units, Some(id), {}) == Ok(chain) <==> IsChain(units, chain, id)
  {
    LineageIsChain(units, id, {});
    if IsChain(units, chain, id) {
      ChainIsLineage(units, chain, id, {});
    }
  }

  function ChainOf(units: Units, id: UnitId): (chain: seq<UnitId>)
    requires Forest(units) && id in units
    ensures IsChain(units, chain, id)
    ensures |chain| == Level(units[id].unitType) + 1
    ensures forall i :: 0 <= i < |chain| ==>
              Level(units[chain[i]].unitType) == Level(units[id].unitType) - i &&
                  units[chain[i]].tenantId == units[id].tenantId
    decreases Level(units[id].unitType)
  {
    assert WellParented(units, units[id]);
    if units[id].parent.None? then [id] else
      var rest := ChainOf(units, units[id].parent.value);
      var chain := [id] + rest;
      assert forall i :: 1 <= i < |chain| ==> chain[i] == rest[i - 1];
      chain
  }

  /** The units of one tenant, the complete list the reports load. */
  function OfTenant(units: Units, t: TenantId): Units {
    map u | u in units && units[u].tenantId == t :: units[u]
  }

  lemma TenantForest(units: Units, t: TenantId)
    requires Forest(units)
    ensures Forest(OfTenant(units, t))
  {
    forall u | u in OfTenant(units, t) ensures WellParented(OfTenant(units, t), units[u]) {
      assert WellParented(units, units[u]);
    }
  }

  /**
   * On a tenant's complete list the walk never throws; it has depth + 1 units, one of each level from the start up to
   * the root.
   */
  lemma LineageInForest(units: Units, t: TenantId, id: UnitId)
    requires Forest(units) && id in OfTenant(units, t)
    ensures var r := Lineage(OfTenant(units, t), Some(id), {});
            && r.Ok? && IsChain(units, r.value, id) && |r.value| == Level(units[id].unitType) + 1
            && forall i :: 0 <= i < |r.value| ==> Level(units[r.value[i]].unitType) == Level(units[id].unitType) - i
                                                  && units[r.value[i]].tenantId == t
  {
    TenantForest(units, t);
    var own := OfTenant(units, t);
    var chain := ChainOf(own, id);
    LineageIff(own, id, chain);
    hide Forest, WellParented, Level, Lineage;
  }

  /** A `WITH RECURSIVE` query's ancestors of a unit, itself included. */
  predicate Within(units: Units, t: TenantId, target: UnitId, scope: UnitId)
    requires Forest(units)
  {
    target in units && units[target].tenantId == t && scope in ChainOf(units, target)
  }

  /** Scope carries down: what lies within a unit lies within everything that unit lies within. */
  lemma WithinTransitive(units: Units, t: TenantId, a: UnitId, b: UnitId, c: UnitId)
    requires Forest(units) && Within(units, t, a, b) && Within(units, t, b, c)
    ensures Within(units, t, a, c)
  {
    var chain := ChainOf(units, a);
    var i :| 0 <= i < |chain| && chain[i] == b;
    hide Forest, Level;
    ChainTail(units, chain, i);
    ChainUnique(units, chain[i..], ChainOf(units, b), b);
    hide IsChain;
    assert c in chain[i..];
  }

  /** Within a unit are the unit itself and what has its parent within it, and nothing else. */
  lemma WithinIff(units: Units, t: TenantId, target: UnitId, scope: UnitId)
    requires Forest(units)
    ensures Within(units, t, target, scope) <==>
            target in units && units[target].tenantId == t
            && (target == scope || (units[target].parent.Some? && Within(units, t, units[target].parent.value, scope)))
  {
    if target in units {
      assert WellParented(units, units[target]);
      hide Forest;
      if units[target].parent.Some? {
        assert ChainOf(units, target) == [target] + ChainOf(units, units[target].parent.value);
      } else {
        assert ChainOf(units, target) == [target];
      }
      hide ChainOf;
    }
  }

  class OrgUnits {
    var units: Units

    ghost predicate Valid()
      reads this
    {
      Forest(units) && SlugsUnique(units)
    }

    constructor ()
      ensures Valid() && units == map[]
    {
      units := map[];
    }

    method CreateUnit(n: NewUnit) returns (r: Result<UnitId, OrgError>)
      requires Valid() && n.id.Generated? && n.id !in units
      modifies this
      ensures Valid() && units == Created(old(units), n)
      ensures r.Ok? <==> ParentFits(old(units), n) && SlugFree(old(units), n.tenantId, n.slug)
      ensures r.Ok? ==> r.value == n.id
                        && units == old(units)[n.id := OrgUnit(n.tenantId, n.unitType, n.slug, n.parent, true)]
      ensures r.Err? ==> ExplainsRefusal(r.error, old(units), n) && units == old(units)
    {
      StepKeepsForest(units, CreateOp(n));
      hide Valid;
      var required := RequiredParentType(n.unitType);
      if required.None? && n.parent.Some? {
        return Err(ParentNotAllowed);
      }
      if required.Some? && n.parent.None? {
        return Err(ParentRequired);
      }
      if n.parent.Some? {
        var parent := n.parent.value;
        if parent !in units || units[parent].tenantId != n.tenantId {
          return Err(ParentNotFound);
        }
        if units[parent].unitType != required.value {
          return Err(WrongParentType);
        }
        if !units[parent].isActive {
          return Err(ParentInactive);
        }
      }
      if SlugUsed(units, n.tenantId, n.slug) {
        return Err(SlugTaken);
      }
      units := units[n.id := OrgUnit(n.tenantId, n.unitType, n.slug, n.parent, true)];
      r := Ok(n.id);
    }

    method EnsureInstitution(t: TenantId) returns (id: UnitId)
      requires Valid()
      modifies this
      ensures Valid() && units == Seeded(old(units), t) && id == InstitutionOf(t)
      ensures if id !in old(units) && SlugFree(old(units), t, "institution")
              then units == old(units)[id := OrgUnit(t, Institution, "institution", None, true)] else units == old(units)
    {
      StepKeepsForest(units, SeedOp(t));
      hide Valid;
      id := InstitutionOf(t);
      if id !in units && !SlugUsed(units, t, INSTITUTION_SLUG) {
        units := units[id := OrgUnit(t, Institution, INSTITUTION_SLUG, None, true)];
      }
    }
  }

  /** The walk as the reports do it, with a set of visited units. */
  method ListLineage(units: Units, id: UnitId) returns (r: Result<seq<UnitId>, LineageError>)
    ensures r == Lineage(units, Some(id), {})
  {
    hide IsChain;
    var lineage: seq<UnitId> := [];
    var visited: set<UnitId> := {};
    var current := Some(id);
    while current.Some?
      invariant visited <= units.Keys
      invariant Lineage(units, Some(id), {}) == After(lineage, Lineage(units, current, visited))
      decreases |units.Keys - visited|
    {
      if current.value in visited {
        return Err(Cycle);
      }
      if current.value !in units {
        return Err(Missing(current.value));
      }
      SmallerRest(units.Keys, visited, current.value);
      SubsetSize(units.Keys - (visited + {current.value}), units.Keys - visited, current.value);
      OneUp(units, current.value, visited, lineage);
      hide Lineage, After;
      visited := visited + {current.value};
      lineage := lineage + [current.value];
      current := units[current.value].parent;
    }
    assert lineage + [] == lineage;
    r := Ok(lineage);
  }

  /** The outcome of a walk that has already collected `lineage`. */
  function After(lineage: seq<UnitId>, r: Result<seq<UnitId>, LineageError>): (a: Result<seq<UnitId>, LineageError>)
    ensures lineage == [] ==> a == r
  {
    match r
    case Ok(rest) => assert [] + rest == rest; Ok(lineage + rest)
    case Err(e) => Err(e)
  }

  lemma OneUp(units: Units, at: UnitId, visited: set<UnitId>, lineage: seq<UnitId>)
    requires visited <= units.Keys && at in units && at !in visited
    ensures After(lineage, Lineage(units, Some(at), visited))
            == After(lineage + [at], Lineage(units, units[at].parent, visited + {at}))
  {
    var r := Lineage(units, units[at].parent, visited + {at});
    if r.Ok? {
      ConcatAssociative(lineage, [at], r.value);
    }
  }
}
