/** Delegated issuing authority: who may act for a unit, when, and on which templates. */
module Grants {
  import opened Prelude
  import opened StableSort
  import opened Tables
  import opened OrgTree

  type GrantId = nat
  type UserId = nat
  type TemplateId = nat
  type Time = int

  datatype Action = IssueBadge | RevokeBadge | ManageLifecycle

  /** No templates means every template. */
  datatype Grant = Grant(
    id: GrantId, tenantId: TenantId, delegate: UserId, unit: UnitId, actions: set<Action>, templates: seq<TemplateId>,
    startsAt: Time, endsAt: Time, revokedAt: Option<Time>, createdAt: Time)

  datatype Template = Template(tenantId: TenantId, ownerUnit: UnitId)

  /** The tables that granting only reads. */
  datatype ReadTables = ReadTables(members: set<(TenantId, UserId)>, units: Units, templates: map<TemplateId, Template>)

  type Directory = d: ReadTables | Forest(d.units) witness ReadTables({}, map[], map[])

  datatype GrantStatus = RevokedGrant | Scheduled | Expired | ActiveGrant

  function Status(g: Grant, now: Time): GrantStatus {
    if g.revokedAt.Some? then RevokedGrant
    else if now < g.startsAt then Scheduled
    else if now > g.endsAt then Expired
    else ActiveGrant
  }

  // Granting.

  datatype NewGrant = NewGrant(
    id: GrantId, tenantId: TenantId, delegate: UserId, unit: UnitId, actions: seq<Action>, templates: seq<TemplateId>,
    startsAt: Time, endsAt: Time, now: Time)

  datatype GrantError =
    | EmptyWindow | NoActions | MembershipNotFound | UnitNotFound | UnitInactive
    | TemplateNotFound(template: TemplateId) | TemplateOutOfScope(template: TemplateId) | Conflict(existing: GrantId)

  /** `Array.from(new Set(xs))` */
  function Distinct(xs: seq<TemplateId>): (r: seq<TemplateId>)
    ensures NoRepeats(r) && forall x :: x in r <==> x in xs
  {
    if xs == [] then [] else
      var rest := Distinct(xs[..|xs| - 1]);
      assert xs == xs[..|xs| - 1] + [xs[|xs| - 1]];
      if xs[|xs| - 1] in rest then rest else rest + [xs[|xs| - 1]]
  }

  function ById(): (TemplateId, TemplateId) -> bool {
    (a: TemplateId, b: TemplateId) => a <= b
  }

  /** The stored template list: sorted, each template once. */
  function NormalizedTemplates(xs: seq<TemplateId>): (r: seq<TemplateId>)
    ensures NoRepeats(r) && forall x :: x in r <==> x in xs
  {
    OrderByNoRepeats(Distinct(xs), ById());
    OrderBy(Distinct(xs), ById())
  }

  function Proposed(n: NewGrant): Grant {
    Grant(n.id, n.tenantId, n.delegate, n.unit, (set a | a in n.actions), NormalizedTemplates(n.templates),
          n.startsAt, n.endsAt, None, n.now)
  }

  function TemplateProblem(d: Directory, t: TenantId, unit: UnitId, templates: seq<TemplateId>): Option<GrantError> {
    if templates == [] then None
    else
      var id := templates[0];
      if !(id in d.templates && d.templates[id].tenantId == t) then Some(TemplateNotFound(id))
      else if !Within(d.units, t, d.templates[id].ownerUnit, unit) then Some(TemplateOutOfScope(id))
      else TemplateProblem(d, t, unit, templates[1..])
  }

  predicate SameKey(g: Grant, h: Grant) {
    g.tenantId == h.tenantId && g.delegate == h.delegate && g.unit == h.unit
  }

  /** The SELECT's half-open test: touching windows do not overlap. */
  predicate WindowsOverlap(g: Grant, h: Grant) {
    g.startsAt < h.endsAt && g.endsAt > h.startsAt
  }

  predicate ActionsOverlap(g: Grant, h: Grant) {
    exists a :: a in g.actions && a in h.actions
  }

  predicate TemplatesOverlap(g: Grant, h: Grant) {
    g.templates == [] || h.templates == [] || exists t :: t in g.templates && t in h.templates
  }

  predicate Conflicts(existing: Grant, g: Grant) {
    && SameKey(existing, g) && existing.revokedAt.None? && WindowsOverlap(existing, g)
    && ActionsOverlap(existing, g) && TemplatesOverlap(existing, g)
  }

  function FirstConflict(grants: seq<Grant>, g: Grant): (r: Option<Grant>)
    ensures r.None? <==> forall h :: h in grants ==> !Conflicts(h, g)
    ensures r.Some? ==> r.value in grants && Conflicts(r.value, g)
  {
    if grants == [] then None
    else if Conflicts(grants[0], g) then Some(grants[0])
    else FirstConflict(grants[1..], g)
  }

  /** Why a grant is refused, in the order of the checks. */
  function Problem(grants: seq<Grant>, d: Directory, n: NewGrant): Option<GrantError> {
    var g := Proposed(n);
    if n.endsAt <= n.startsAt then Some(EmptyWindow)
    else if g.actions == {} then Some(NoActions)
    else if (n.tenantId, n.delegate) !in d.members then Some(MembershipNotFound)
    else if !(n.unit in d.units && d.units[n.unit].tenantId == n.tenantId) then Some(UnitNotFound)
    else if !d.units[n.unit].isActive then Some(UnitInactive)
    else if TemplateProblem(d, n.tenantId, n.unit, g.templates).Some? then
      TemplateProblem(d, n.tenantId, n.unit, g.templates)
    else
      match FirstConflict(grants, g)
      case Some(h) => Some(Conflict(h.id))
      case None => None
  }

  function Granted(grants: seq<Grant>, d: Directory, n: NewGrant): seq<Grant> {
    if Problem(grants, d, n).Some? then grants else grants + [Proposed(n)]
  }

  /** Only the first revocation of a grant counts. */
  function Revoked(grants: seq<Grant>, t: TenantId, id: GrantId, at: Time): (r: seq<Grant>)
    ensures |r| == |grants|
    ensures forall i :: 0 <= i < |r| ==>
              r[i] == if grants[i].tenantId == t && grants[i].id == id && grants[i].revokedAt.None?
                      then grants[i].(revokedAt := Some(at)) else grants[i]
  {
    seq(|grants|, i requires 0 <= i < |grants| =>
      if grants[i].tenantId == t && grants[i].id == id && grants[i].revokedAt.None?
      then grants[i].(revokedAt := Some(at)) else grants[i])
  }

  datatype Op = GrantOp(d: Directory, n: NewGrant) | RevokeOp(tenant: TenantId, id: GrantId, at: Time)

  function Step(grants: seq<Grant>, op: Op): seq<Grant> {
    match op
    case GrantOp(d, n) => Granted(grants, d, n)
    case RevokeOp(t, id, at) => Revoked(grants, t, id, at)
  }

  function Run(grants: seq<Grant>, ops: seq<Op>): seq<Grant>
    decreases |ops|
  {
    if ops == [] then grants else Run(Step(grants, ops[0]), ops[1..])
  }

  // The invariant.

  /** Two grants that could both be used now share no template, and neither covers all. */
  ghost predicate Apart(g: Grant, h: Grant) {
    g.revokedAt.None? && h.revokedAt.None? && SameKey(g, h) && WindowsOverlap(g, h) && ActionsOverlap(g, h) ==>
      g.templates != [] && h.templates != [] && forall t :: !(t in g.templates && t in h.templates)
  }

  ghost predicate WellFormed(g: Grant) {
    g.startsAt < g.endsAt && g.actions != {} && NoRepeats(g.templates)
  }

  ghost predicate Compatible(grants: seq<Grant>) {
    && (forall i :: 0 <= i < |grants| ==> WellFormed(grants[i]))
    && (forall i, j :: 0 <= i < j < |grants| ==> Apart(grants[i], grants[j]))
  }

  lemma ApartSymmetric(g: Grant, h: Grant)
    ensures Apart(g, h) <==> Apart(h, g)
  {
  }

  /** The grant is what the call asked for, with each action and template once, not revoked. */
  ghost predicate AsRequested(g: Grant, n: NewGrant) {
    && g.id == n.id && g.tenantId == n.tenantId && g.delegate == n.delegate && g.unit == n.unit
    && g.startsAt == n.startsAt && g.endsAt == n.endsAt && g.revokedAt == None && g.createdAt == n.now
    && (forall a :: a in g.actions <==> a in n.actions)
    && (forall t :: t in g.templates <==> t in n.templates)
    && (forall i, j :: 0 <= i < j < |g.templates| ==> g.templates[i] < g.templates[j])
  }

  /** The existing grant clashes with the one asked for: same holder and unit, common time, action and template. */
  ghost predicate InTheWay(h: Grant, n: NewGrant) {
    && h.tenantId == n.tenantId && h.delegate == n.delegate && h.unit == n.unit && h.revokedAt == None
    && h.startsAt < n.endsAt && n.startsAt < h.endsAt
    && (exists a | a in h.actions :: a in n.actions)
    && (h.templates == [] || n.templates == [] || exists t | t in h.templates :: t in n.templates)
  }

  /** The template is the tenant's and owned within the unit. */
  ghost predicate Usable(d: Directory, n: NewGrant, id: TemplateId) {
    && id in d.templates && d.templates[id].tenantId == n.tenantId
    && Within(d.units, n.tenantId, d.templates[id].ownerUnit, n.unit)
  }

  /** The arguments that the checks before the templates let pass. */
  ghost predicate HolderAndUnit(d: Directory, n: NewGrant) {
    && n.startsAt < n.endsAt && n.actions != [] && (n.tenantId, n.delegate) in d.members
    && n.unit in d.units && d.units[n.unit].tenantId == n.tenantId && d.units[n.unit].isActive
  }

  lemma ProposedAsRequested(n: NewGrant)
    ensures AsRequested(Proposed(n), n)
  {
    var ts := NormalizedTemplates(n.templates);
    SortSorts(Distinct(n.templates), ById());
    forall i, j | 0 <= i < j < |ts| ensures ts[i] < ts[j] {
      assert ById()(ts[i], ts[j]) && ts[i] != ts[j];
    }
  }

  /** A conflict with a grant made as requested is one on the call's own terms. */
  lemma ConflictIsInTheWay(h: Grant, g: Grant, n: NewGrant)
    requires AsRequested(g, n)
    ensures Conflicts(h, g) <==> InTheWay(h, n)
  {
    assert g.templates == [] <==> n.templates == [] by {
      assert n.templates != [] ==> n.templates[0] in g.templates;
      assert g.templates != [] ==> g.templates[0] in n.templates;
    }
  }

  /** A grant is given iff its arguments hold up and no existing grant is in the way, nothing more. */
  lemma GrantedIff(grants: seq<Grant>, d: Directory, n: NewGrant)
    ensures Problem(grants, d, n).None? <==>
            && HolderAndUnit(d, n) && (forall id :: id in n.templates ==> Usable(d, n, id))
            && (forall h :: h in grants ==> !InTheWay(h, n))
  {
    var g := Proposed(n);
    ProposedAsRequested(n);
    FirstUnusable(d, n, g.templates);
    SameActions(g, n);
    forall h ensures Conflicts(h, g) <==> InTheWay(h, n) {
      ConflictIsInTheWay(h, g, n);
    }
    hide InTheWay, Conflicts, TemplateProblem, Proposed, Usable;
  }

  /** What each refusal says about the call; an error about a template names the first that is not usable. */
  ghost predicate Explains(e: GrantError, grants: seq<Grant>, d: Directory, n: NewGrant) {
    match e
    case EmptyWindow => n.endsAt <= n.startsAt
    case NoActions => n.startsAt < n.endsAt && n.actions == []
    case MembershipNotFound => n.startsAt < n.endsAt && n.actions != [] && (n.tenantId, n.delegate) !in d.members
    case UnitNotFound => !(n.unit in d.units && d.units[n.unit].tenantId == n.tenantId)
    case UnitInactive => n.unit in d.units && d.units[n.unit].tenantId == n.tenantId && !d.units[n.unit].isActive
    case TemplateNotFound(id) =>
      && HolderAndUnit(d, n) && id in n.templates && !(id in d.templates && d.templates[id].tenantId == n.tenantId)
      && forall k :: k in n.templates && k < id ==> Usable(d, n, k)
    case TemplateOutOfScope(id) =>
      && HolderAndUnit(d, n) && id in n.templates && id in d.templates && d.templates[id].tenantId == n.tenantId
      && !Usable(d, n, id) && forall k :: k in n.templates && k < id ==> Usable(d, n, k)
    case Conflict(existing) =>
      && HolderAndUnit(d, n) && (forall k :: k in n.templates ==> Usable(d, n, k))
      && exists h :: h in grants && h.id == existing && InTheWay(h, n)
  }

  lemma {:induction false} FirstUnusable(d: Directory, n: NewGrant, ts: seq<TemplateId>)
    requires forall i, j :: 0 <= i < j < |ts| ==> ts[i] < ts[j]
    ensures match TemplateProblem(d, n.tenantId, n.unit, ts)
            case None => forall k :: k in ts ==> Usable(d, n, k)
            case Some(TemplateNotFound(id)) =>
              && id in ts && !(id in d.templates && d.templates[id].tenantId == n.tenantId)
              && forall k :: k in ts && k < id ==> Usable(d, n, k)
            case Some(TemplateOutOfScope(id)) =>
              && id in ts && id in d.templates && d.templates[id].tenantId == n.tenantId && !Usable(d, n, id)
              && forall k :: k in ts && k < id ==> Usable(d, n, k)
            case _ => false
  {
    hide Within;
    if ts != [] {
      FirstUnusable(d, n, ts[1..]);
      assert forall k :: k in ts ==> k == ts[0] || k in ts[1..];
      assert forall k :: k in ts[1..] ==> ts[0] < k;
    }
  }

  lemma SameActions(g: Grant, n: NewGrant)
    requires AsRequested(g, n)
    ensures g.actions == {} <==> n.actions == []
  {
    assert n.actions != [] ==> n.actions[0] in g.actions;
    assert forall a :: a in g.actions ==> a in n.actions;
  }

  lemma RefusalExplained(grants: seq<Grant>, d: Directory, n: NewGrant)
    ensures Problem(grants, d, n).Some? ==> Explains(Problem(grants, d, n).value, grants, d, n)
  {
    var g := Proposed(n);
    ProposedAsRequested(n);
    FirstUnusable(d, n, g.templates);
    SameActions(g, n);
    hide InTheWay, Conflicts, TemplateProblem, Proposed, Usable, FirstConflict;
    var c := FirstConflict(grants, g);
    if c.Some? {
      ConflictIsInTheWay(c.value, g, n);
    }
  }

  /** A grant gives exactly the access asked for, on top of the access there was. */
  lemma AccessAfterGrant(grants: seq<Grant>, now: Directory, n: NewGrant, d: Directory, q: Query)
    requires Problem(grants, now, n).None?
    ensures HasAccess(Granted(grants, now, n), d, q) <==>
            || HasAccess(grants, d, q)
            || (&& q.tenantId == n.tenantId && q.user == n.delegate && Within(d.units, q.tenantId, q.unit, n.unit)
                && q.action in n.actions && (n.templates == [] || q.template in n.templates)
                && n.startsAt <= q.at <= n.endsAt)
  {
    var g := Proposed(n);
    ProposedAsRequested(n);
    hide Problem, Within, Proposed;
    assert g.templates == [] <==> n.templates == [] by {
      assert n.templates != [] ==> n.templates[0] in g.templates;
      assert g.templates != [] ==> g.templates[0] in n.templates;
    }
    assert Permits(d, g, q) <==>
        && q.tenantId == n.tenantId && q.user == n.delegate && Within(d.units, q.tenantId, q.unit, n.unit)
        && q.action in n.actions && (n.templates == [] || q.template in n.templates)
        && n.startsAt <= q.at <= n.endsAt;
    hide Permits;
    assert forall h :: h in grants + [g] <==> h in grants || h == g;
  }

  /** A revocation takes exactly the access of the grant it names. */
  lemma AccessAfterRevoke(grants: seq<Grant>, t: TenantId, id: GrantId, at: Time, d: Directory, q: Query)
    ensures HasAccess(Revoked(grants, t, id, at), d, q) <==>
            exists g :: g in grants && Permits(d, g, q) && !(g.tenantId == t && g.id == id)
  {
    var after := Revoked(grants, t, id, at);
    hide Within, Covers, Revoked;
    if HasAccess(after, d, q) {
      var h :| h in after && Permits(d, h, q);
      var i :| 0 <= i < |after| && after[i] == h;
      RevokedPermitsNothing(grants[i], t, id, at, d, q);
      assert grants[i] in grants;
    }
    if g :| g in grants && Permits(d, g, q) && !(g.tenantId == t && g.id == id) {
      var i :| 0 <= i < |grants| && grants[i] == g;
      assert after[i] == g;
    }
  }

  lemma RevokedPermitsNothing(g: Grant, t: TenantId, id: GrantId, at: Time, d: Directory, q: Query)
    ensures g.revokedAt.Some? ==> !Permits(d, g, q)
    ensures !Permits(d, g.(revokedAt := Some(at)), q)
  {
    hide Within;
  }

  /** A grant is usable between its ends, both included, until it is revoked. */
  lemma StatusIff(g: Grant, now: Time)
    requires g.startsAt < g.endsAt
    ensures Status(g, now) == RevokedGrant <==> g.revokedAt != None
    ensures Status(g, now) == Scheduled <==> g.revokedAt == None && now < g.startsAt
    ensures Status(g, now) == ActiveGrant <==> g.revokedAt == None && g.startsAt <= now <= g.endsAt
    ensures Status(g, now) == Expired <==> g.revokedAt == None && g.endsAt < now
  {
  }

  lemma GrantKeeps(grants: seq<Grant>, d: Directory, n: NewGrant)
    requires Compatible(grants)
    ensures Compatible(Granted(grants, d, n))
  {
    if Problem(grants, d, n).None? {
      var g := Proposed(n);
      assert WellFormed(g);
      forall i | 0 <= i < |grants| ensures Apart(grants[i], g) {
        assert grants[i] in grants && !Conflicts(grants[i], g);
      }
      hide Apart, Proposed, WellFormed, Problem;
    }
  }

  lemma RevokeKeeps(grants: seq<Grant>, t: TenantId, id: GrantId, at: Time)
    requires Compatible(grants)
    ensures Compatible(Revoked(grants, t, id, at))
  {
    var after := Revoked(grants, t, id, at);
    forall i, j | 0 <= i < j < |after| ensures Apart(after[i], after[j]) {
      assert Apart(grants[i], grants[j]);
    }
    forall i | 0 <= i < |after| ensures WellFormed(after[i]) {
      assert WellFormed(grants[i]);
    }
  }

  /**
   * No run of grants and revocations, with the read tables changing at will, lets two grants get in each other's way.
   */
  lemma {:induction false} CompatibleAlways(grants: seq<Grant>, ops: seq<Op>)
    requires Compatible(grants)
    ensures Compatible(Run(grants, ops))
    decreases |ops|
  {
    hide Compatible, Granted, Revoked;
    if ops != [] {
      match ops[0] {
        case GrantOp(d, n) => GrantKeeps(grants, d, n);
        case RevokeOp(t, id, at) => RevokeKeeps(grants, t, id, at);
      }
      CompatibleAlways(Step(grants, ops[0]), ops[1..]);
    }
  }

  /** The grant can be used for the action on the template at the instant; both ends of the window count. */
  predicate Covers(g: Grant, a: Action, template: TemplateId, at: Time) {
    && g.revokedAt.None? && g.startsAt <= at <= g.endsAt && a in g.actions
    && (g.templates == [] || template in g.templates)
  }

  /** Two grants of the same delegate and unit cover the same thing only where one ends and the other starts. */
  lemma CoveredTwice(grants: seq<Grant>, i: nat, j: nat, a: Action, template: TemplateId, at: Time)
    requires Compatible(grants) && i < |grants| && j < |grants| && i != j && SameKey(grants[i], grants[j])
    requires Covers(grants[i], a, template, at) && Covers(grants[j], a, template, at)
    ensures (grants[i].endsAt == at == grants[j].startsAt) || (grants[j].endsAt == at == grants[i].startsAt)
  {
    var g, h := grants[i], grants[j];
    assert WellFormed(g) && WellFormed(h);
    assert Apart(g, h) by {
      ApartSymmetric(g, h);
      hide Apart;
      assert i < j ==> Apart(g, h);
      assert j < i ==> Apart(h, g);
    }
    assert ActionsOverlap(g, h);
    assert !WindowsOverlap(g, h);
  }

  /** So never more than two do. */
  lemma CoveredAtMostTwice(grants: seq<Grant>, i: nat, j: nat, k: nat, a: Action, template: TemplateId, at: Time)
    requires Compatible(grants) && i < |grants| && j < |grants| && k < |grants|
    requires SameKey(grants[i], grants[j]) && SameKey(grants[i], grants[k])
    requires Covers(grants[i], a, template, at) && Covers(grants[j], a, template, at) &&
        Covers(grants[k], a, template, at)
    ensures i == j || i == k || j == k
  {
    assert WellFormed(grants[i]) && WellFormed(grants[j]) && WellFormed(grants[k]);
    if i != j && i != k && j != k {
      hide Compatible, Covers;
      CoveredTwice(grants, i, j, a, template, at);
      CoveredTwice(grants, i, k, a, template, at);
      CoveredTwice(grants, j, k, a, template, at);
      assert false;
    }
  }

  // Using a grant.

  datatype Query = Query(tenantId: TenantId, user: UserId, unit: UnitId, template: TemplateId, action: Action, at: Time)

  predicate Permits(d: Directory, g: Grant, q: Query) {
    && g.tenantId == q.tenantId && g.delegate == q.user && Covers(g, q.action, q.template, q.at)
    && Within(d.units, q.tenantId, q.unit, g.unit)
  }

  predicate Listed(g: Grant, q: Query) {
    g.tenantId == q.tenantId && g.delegate == q.user && g.revokedAt.None? && g.startsAt <= q.at && g.endsAt >= q.at
  }

  /** `ORDER BY starts_at ASC, created_at ASC` */
  predicate Earlier(g: Grant, h: Grant) {
    g.startsAt < h.startsAt || (g.startsAt == h.startsAt && g.createdAt <= h.createdAt)
  }

  function EarliestFirst(): (Grant, Grant) -> bool {
    (g: Grant, h: Grant) => Earlier(g, h)
  }

  ghost predicate HasAccess(grants: seq<Grant>, d: Directory, q: Query) {
    exists g :: g in grants && Permits(d, g, q)
  }

  /** Authority over a unit is authority over everything below it. */
  lemma AccessCarriesDown(grants: seq<Grant>, d: Directory, q: Query, below: UnitId)
    requires HasAccess(grants, d, q) && Within(d.units, q.tenantId, below, q.unit)
    ensures HasAccess(grants, d, q.(unit := below))
  {
    var g :| g in grants && Permits(d, g, q);
    WithinTransitive(d.units, q.tenantId, below, q.unit, g.unit);
    hide Within, Covers;
    assert Permits(d, g, q.(unit := below));
  }

  class GrantTable {
    /** In order of insertion. */
    var grants: seq<Grant>

    ghost predicate Valid()
      reads this
    {
      Compatible(grants) && forall i, j :: 0 <= i < j < |grants| ==> grants[i].id != grants[j].id
    }

    constructor ()
      ensures Valid() && grants == []
    {
      grants := [];
    }

    method Create(d: Directory, n: NewGrant) returns (r: Result<Grant, GrantError>)
      requires Valid() && forall g :: g in grants ==> g.id != n.id
      modifies this
      ensures Valid() && grants == Granted(old(grants), d, n)
      ensures r.Ok? <==>
              && HolderAndUnit(d, n) && (forall id :: id in n.templates ==> Usable(d, n, id))
              && (forall h :: h in old(grants) ==> !InTheWay(h, n))
      ensures r.Ok? ==> AsRequested(r.value, n) && grants == old(grants) + [r.value]
      ensures r.Err? ==> Explains(r.error, old(grants), d, n) && grants == old(grants)
    {
      GrantKeeps(grants, d, n);
      GrantedIff(grants, d, n);
      RefusalExplained(grants, d, n);
      ProposedAsRequested(n);
      hide Compatible, Within, Conflicts, InTheWay, Usable, Explains, HolderAndUnit, AsRequested;
      var g := Proposed(n);
      if n.endsAt <= n.startsAt {
        return Err(EmptyWindow);
      }
      if g.actions == {} {
        return Err(NoActions);
      }
      if (n.tenantId, n.delegate) !in d.members {
        return Err(MembershipNotFound);
      }
      if !(n.unit in d.units && d.units[n.unit].tenantId == n.tenantId) {
        return Err(UnitNotFound);
      }
      if !d.units[n.unit].isActive {
        return Err(UnitInactive);
      }
      var problem := CheckTemplates(d, n.tenantId, n.unit, g.templates);
      if problem.Some? {
        return Err(problem.value);
      }
      var conflict := FindConflict(grants, g);
      if conflict.Some? {
        return Err(Conflict(conflict.value.id));
      }
      grants := grants + [g];
      r := Ok(g);
    }

    /** Tells whether the grant was still in force; a missing grant is an error. */
    method Revoke(t: TenantId, id: GrantId, at: Time) returns (r: Option<bool>)
      requires Valid()
      modifies this
      ensures Valid() && grants == Revoked(old(grants), t, id, at)
      ensures r.None? <==> forall g :: g in old(grants) ==> !(g.tenantId == t && g.id == id)
      ensures r.Some? ==>
                exists g :: g in old(grants) && g.tenantId == t && g.id == id && (r.value <==> g.revokedAt.None?)
    {
      RevokeKeeps(grants, t, id, at);
      hide Compatible;
      var found := Where(grants, (g: Grant) => g.tenantId == t && g.id == id);
      assert found != [] ==> found[0] in found;
      r := if found == [] then None else Some(found[0].revokedAt.None?);
      grants := Revoked(grants, t, id, at);
    }

    /** Finds a grant iff one permits the action, and then the earliest of them, which is active. */
    method FindActive(d: Directory, q: Query) returns (r: Option<Grant>)
      ensures r.Some? <==> HasAccess(grants, d, q)
      ensures r.Some? ==> r.value in grants && Permits(d, r.value, q) && Status(r.value, q.at) == ActiveGrant
      ensures r.Some? ==>
                forall g :: g in grants && Permits(d, g, q) ==>
                  r.value.startsAt < g.startsAt || (r.value.startsAt == g.startsAt && r.value.createdAt <= g.createdAt)
    {
      var rows := OrderBy(Where(grants, (g: Grant) => Listed(g, q)), EarliestFirst());
      SortSorts(Where(grants, (g: Grant) => Listed(g, q)), EarliestFirst());
      ListedHasPermitting(grants, rows, d, q);
      hide Within, OrderBy, Where, Sorted, Earlier, EarliestFirst, Covers;
      var k := FirstUsable(rows, d, q);
      if k == |rows| {
        r := None;
      } else {
        FirstIsEarliest(rows, d, q, k);
        r := Some(rows[k]);
      }
    }
  }

  /** The loop over the listed grants, up to the first usable one. */
  method FirstUsable(rows: seq<Grant>, d: Directory, q: Query) returns (k: nat)
    requires forall g :: g in rows ==> Listed(g, q)
    ensures k <= |rows| && forall i :: 0 <= i < k ==> !Permits(d, rows[i], q)
    ensures k < |rows| ==> Permits(d, rows[k], q) && Status(rows[k], q.at) == ActiveGrant
  {
    hide Within;
    k := 0;
    while k < |rows|
      invariant k <= |rows| && forall i :: 0 <= i < k ==> !Permits(d, rows[i], q)
    {
      var g := rows[k];
      assert Listed(g, q);
      if q.action in g.actions && Within(d.units, q.tenantId, q.unit, g.unit)
         && (g.templates == [] || q.template in g.templates)
      {
        return;
      }
      k := k + 1;
    }
  }

  lemma ListedHasPermitting(grants: seq<Grant>, rows: seq<Grant>, d: Directory, q: Query)
    requires rows == OrderBy(Where(grants, (g: Grant) => Listed(g, q)), EarliestFirst())
    ensures forall g :: g in rows ==> g in grants && Listed(g, q)
    ensures forall g :: g in grants && Permits(d, g, q) ==> g in rows
  {
  }

  lemma FirstIsEarliest(rows: seq<Grant>, d: Directory, q: Query, k: nat)
    requires Sorted(rows, EarliestFirst()) && k < |rows| && forall i :: 0 <= i < k ==> !Permits(d, rows[i], q)
    ensures forall h :: h in rows && Permits(d, h, q) ==>
              rows[k].startsAt < h.startsAt || (rows[k].startsAt == h.startsAt && rows[k].createdAt <= h.createdAt)
  {
    hide Permits;
    forall h | h in rows && Permits(d, h, q)
      ensures rows[k].startsAt < h.startsAt || (rows[k].startsAt == h.startsAt && rows[k].createdAt <= h.createdAt)
    {
      var i :| 0 <= i < |rows| && rows[i] == h;
      assert i != k ==> EarliestFirst()(rows[k], rows[i]);
    }
  }

  method CheckTemplates(d: Directory, t: TenantId, unit: UnitId, templates: seq<TemplateId>)
    returns (r: Option<GrantError>)
    ensures r == TemplateProblem(d, t, unit, templates)
  {
    hide Within;
    for k := 0 to |templates|
      invariant TemplateProblem(d, t, unit, templates) == TemplateProblem(d, t, unit, templates[k..])
    {
      var id := templates[k];
      if !(id in d.templates && d.templates[id].tenantId == t) {
        return Some(TemplateNotFound(id));
      }
      if !Within(d.units, t, d.templates[id].ownerUnit, unit) {
        return Some(TemplateOutOfScope(id));
      }
    }
    r := None;
  }

  method FindConflict(grants: seq<Grant>, g: Grant) returns (r: Option<Grant>)
    ensures r == FirstConflict(grants, g)
  {
    for k := 0 to |grants|
      invariant FirstConflict(grants, g) == FirstConflict(grants[k..], g)
    {
      if SameKey(grants[k], g) && grants[k].revokedAt.None? && WindowsOverlap(grants[k], g) {
        if ActionsOverlap(grants[k], g) && TemplatesOverlap(grants[k], g) {
          return Some(grants[k]);
        }
      }
    }
    r := None;
  }
}
