/** The badge-rule tables: which version of a rule is in force. */
module RuleStore {
  import opened Prelude
  import opened ApprovalChain

  type TenantId = nat
  type RuleId = nat
  type VersionId = nat

  datatype Rule = Rule(tenantId: TenantId, activeVersionId: Option<VersionId>)

  datatype VersionRow = VersionRow(tenantId: TenantId, ruleId: RuleId, version: Version)

  datatype Tables = Tables(rules: map<RuleId, Rule>, versions: map<VersionId, VersionRow>)

  predicate RuleExists(s: Tables, t: TenantId, r: RuleId) {
    r in s.rules && s.rules[r].tenantId == t
  }

  predicate Belongs(row: VersionRow, t: TenantId, r: RuleId) {
    row.tenantId == t && row.ruleId == r
  }

  predicate HasVersion(s: Tables, t: TenantId, r: RuleId, id: VersionId) {
    id in s.versions && Belongs(s.versions[id], t, r)
  }

  predicate ActiveFor(s: Tables, t: TenantId, r: RuleId, id: VersionId) {
    HasVersion(s, t, r, id) && s.versions[id].version.status.Active?
  }

  // The statements, as functions from tables to tables.

  function ChangeVersion(versions: map<VersionId, VersionRow>, t: TenantId, r: RuleId, id: VersionId, c: Call)
    : map<VersionId, VersionRow>
  {
    if id in versions && Belongs(versions[id], t, r) then
      versions[id := versions[id].(version := Apply(versions[id].version, c))]
    else versions
  }

  function DeprecateOthers(versions: map<VersionId, VersionRow>, t: TenantId, r: RuleId, id: VersionId)
    : (w: map<VersionId, VersionRow>)
    ensures w.Keys == versions.Keys
  {
    map k | k in versions ::
      if Belongs(versions[k], t, r) && versions[k].version.status.Active? && k != id
      then versions[k].(version := Apply(versions[k].version, DeprecateCall)) else versions[k]
  }

  function PointRule(rules: map<RuleId, Rule>, t: TenantId, r: RuleId, id: VersionId): map<RuleId, Rule> {
    if r in rules && rules[r].tenantId == t then rules[r := rules[r].(activeVersionId := Some(id))] else rules
  }

  /** `rule` and `version` are fresh identifiers. */
  datatype StoreCall =
    | CreateRule(tenant: TenantId, rule: RuleId, version: VersionId, chain: Option<seq<Role>>)
    | CreateVersion(tenant: TenantId, rule: RuleId, version: VersionId, chain: Option<seq<Role>>)
    | ChangeStatus(tenant: TenantId, rule: RuleId, version: VersionId, call: Call)
    | Activate(tenant: TenantId, rule: RuleId, version: VersionId, actor: UserId, at: Time)

  /** No caller deprecates or activates a single version by itself. */
  predicate Allowed(s: Tables, c: StoreCall) {
    match c
    case CreateRule(_, rule, version, _) => rule !in s.rules && version !in s.versions
    case CreateVersion(_, _, version, _) => version !in s.versions
    case ChangeStatus(_, _, _, call) => call.SubmitCall? || call.DecideCall?
    case Activate(_, _, _, _, _) => true
  }

  function Step(s: Tables, c: StoreCall): Tables {
    match c
    case CreateRule(tenant, rule, version, chain) =>
      (match Create(chain)
       case Some(v) => Tables(s.rules[rule := Rule(tenant, None)], s.versions[version := VersionRow(tenant, rule, v)])
       case None => s)
    case CreateVersion(tenant, rule, version, chain) =>
      // the foreign key asks for the rule, not for the tenant
      if rule !in s.rules || Create(chain).None? then s
      else s.(versions := s.versions[version := VersionRow(tenant, rule, Create(chain).value)])
    case ChangeStatus(tenant, rule, version, call) =>
      s.(versions := ChangeVersion(s.versions, tenant, rule, version, call))
    case Activate(tenant, rule, version, actor, at) =>
      Tables(PointRule(s.rules, tenant, rule, version),
             ChangeVersion(DeprecateOthers(s.versions, tenant, rule, version), tenant, rule, version,
                 ActivateCall(actor, at)))
  }

  function RunStore(s: Tables, cs: seq<StoreCall>): Tables
    decreases |cs|
  {
    if cs == [] then s else RunStore(Step(s, cs[0]), cs[1..])
  }

  /** The JOIN from a rule over its pointer to its version. */
  function FindActive(s: Tables, t: TenantId, r: RuleId): Option<VersionId> {
    if RuleExists(s, t, r) && s.rules[r].activeVersionId.Some? && HasVersion(s, t, r, s.rules[r].activeVersionId.value)
    then s.rules[r].activeVersionId else None
  }

  // The invariant.

  ghost predicate SingleActive(s: Tables) {
    forall t, r, v, w :: ActiveFor(s, t, r, v) && ActiveFor(s, t, r, w) ==> v == w
  }

  /** The pointer is set iff there is an active version, and names it. */
  ghost predicate PointerNamesActive(s: Tables) {
    forall r :: r in s.rules ==>
      match s.rules[r].activeVersionId
      case Some(v) => ActiveFor(s, s.rules[r].tenantId, r, v)
      case None => forall v :: !ActiveFor(s, s.rules[r].tenantId, r, v)
  }

  ghost predicate ForeignKeys(s: Tables) {
    forall v :: v in s.versions ==> s.versions[v].ruleId in s.rules
  }

  ghost predicate Consistent(s: Tables) {
    SingleActive(s) && PointerNamesActive(s) && ForeignKeys(s)
  }

  ghost predicate ChainsWellShaped(s: Tables) {
    forall v :: v in s.versions ==> WellShaped(s.versions[v].version)
  }

  /** After an activation, exactly the activated version is active, if it is one of the rule's. */
  lemma ActivateLeaves(s: Tables, t: TenantId, r: RuleId, id: VersionId, actor: UserId, at: Time)
    ensures var w := Step(s, Activate(t, r, id, actor, at));
            && w.versions.Keys == s.versions.Keys && w.rules.Keys == s.rules.Keys
            && (forall v :: ActiveFor(w, t, r, v) <==> v == id && HasVersion(s, t, r, id))
            && (forall t', r', v :: t' != t || r' != r ==> (ActiveFor(w, t', r', v) <==> ActiveFor(s, t', r', v)))
            && (forall v :: v in s.versions ==> w.versions[v].tenantId == s.versions[v].tenantId
                                                && w.versions[v].ruleId == s.versions[v].ruleId)
  {
  }

  /** The exact condition: a rule's activation keeps the invariant iff the version named is one of that rule's. */
  lemma ActivateKeepsIff(s: Tables, t: TenantId, r: RuleId, id: VersionId, actor: UserId, at: Time)
    requires Consistent(s)
    ensures var w := Step(s, Activate(t, r, id, actor, at));
            && (Consistent(w) <==> (RuleExists(s, t, r) ==> HasVersion(s, t, r, id)))
            && SingleActive(w)
            && (RuleExists(s, t, r) ==> FindActive(w, t, r) == if HasVersion(s, t, r, id) then Some(id) else None)
  {
    var w := Step(s, Activate(t, r, id, actor, at));
    ActivateLeaves(s, t, r, id, actor, at);
    assert w.rules == PointRule(s.rules, t, r, id);
    hide Step, ActiveFor;
    assert ForeignKeys(w) && SingleActive(w);
    PointerAfterActivation(s, w, t, r, id);
    hide PointerNamesActive, SingleActive;
  }

  lemma PointerAfterActivation(s: Tables, w: Tables, t: TenantId, r: RuleId, id: VersionId)
    requires PointerNamesActive(s) && w.rules == PointRule(s.rules, t, r, id)
    requires forall v :: ActiveFor(w, t, r, v) <==> v == id && HasVersion(s, t, r, id)
    requires forall t', r', v :: t' != t || r' != r ==> (ActiveFor(w, t', r', v) <==> ActiveFor(s, t', r', v))
    ensures PointerNamesActive(w) <==> (RuleExists(s, t, r) ==> HasVersion(s, t, r, id))
  {
    hide ActiveFor, HasVersion;
    if RuleExists(s, t, r) {
      assert w.rules[r].activeVersionId == Some(id);
      assert PointerNamesActive(w) ==> ActiveFor(w, w.rules[r].tenantId, r, id);
    } else {
      assert w.rules == s.rules;
    }
  }

  /** Two rules, one version each: activating the second version for the first rule leaves that rule without any. */
  lemma MismatchedActivation(t: TenantId, actor: UserId, at: Time)
    ensures var s := RunStore(Tables(map[], map[]),
                              [CreateRule(t, 1, 1, None), CreateRule(t, 2, 2, None), Activate(t, 1, 1, actor, at)]);
            var after := Step(s, Activate(t, 1, 2, actor, at));
            && Consistent(s) && FindActive(s, t, 1) == Some(1)
            && RuleExists(after, t, 1) && after.rules[1].activeVersionId == Some(2) && FindActive(after, t, 1) == None
            && HasVersion(after, t, 1, 1) && after.versions[1].version.status.Deprecated?
  {
    var c1, c2, c3 := CreateRule(t, 1, 1, None), CreateRule(t, 2, 2, None), Activate(t, 1, 1, actor, at);
    var s0 := Tables(map[], map[]);
    RunThree(s0, c1, c2, c3);
    var s2 := Step(Step(s0, c1), c2);
    assert HasVersion(s2, t, 1, 1) && HasVersion(s2, t, 2, 2) && RuleExists(s2, t, 1) && s2.versions[2].ruleId == 2;
    var s3 := Step(s2, c3);
    ActivateLeaves(s2, t, 1, 1, actor, at);
    assert ActiveFor(s3, t, 1, 1) && RuleExists(s3, t, 1) && !HasVersion(s3, t, 1, 2);
    assert Consistent(s0);
    StepKeeps(s0, c1);
    StepKeeps(Step(s0, c1), c2);
    MismatchLeaves(s3, t, actor, at);
    hide Consistent, Step, FindActive;
    ActivateKeepsIff(s2, t, 1, 1, actor, at);
    ActivateKeepsIff(s3, t, 1, 2, actor, at);
  }

  lemma MismatchLeaves(s: Tables, t: TenantId, actor: UserId, at: Time)
    requires ActiveFor(s, t, 1, 1) && RuleExists(s, t, 1) && !HasVersion(s, t, 1, 2)
    ensures var after := Step(s, Activate(t, 1, 2, actor, at));
            && RuleExists(after, t, 1) && after.rules[1].activeVersionId == Some(2)
            && HasVersion(after, t, 1, 1) && after.versions[1].version.status.Deprecated?
  {
  }

  lemma RunThree(s: Tables, c1: StoreCall, c2: StoreCall, c3: StoreCall)
    ensures RunStore(s, [c1, c2, c3]) == Step(Step(Step(s, c1), c2), c3)
  {
    hide Step;
    assert [c1, c2, c3][1..] == [c2, c3] && [c2, c3][1..] == [c3] && [c3][1..] == [];
    assert RunStore(Step(Step(s, c1), c2), [c3]) == RunStore(Step(Step(Step(s, c1), c2), c3), []);
  }

  lemma StepKeeps(s: Tables, c: StoreCall)
    requires Consistent(s) && Allowed(s, c) && !c.Activate?
    ensures Consistent(Step(s, c))
  {
    var w := Step(s, c);
    StepKeepsActive(s, c);
    hide Step, ActiveFor;
    assert SingleActive(w);
  }

  /** Only activation makes a version active or takes that away. */
  lemma StepKeepsActive(s: Tables, c: StoreCall)
    requires PointerNamesActive(s) && ForeignKeys(s) && Allowed(s, c) && !c.Activate?
    ensures var w := Step(s, c);
            && ForeignKeys(w) && s.rules.Keys <= w.rules.Keys
            && (forall r :: r in s.rules ==> w.rules[r] == s.rules[r])
            && (forall r :: r in w.rules && r !in s.rules ==>
                (w.rules[r].activeVersionId == None && forall t, v :: !ActiveFor(w, t, r, v)))
            && (forall t, r, v :: r in s.rules ==> (ActiveFor(w, t, r, v) <==> ActiveFor(s, t, r, v)))
            && (forall t, r, v :: r !in s.rules ==> !ActiveFor(w, t, r, v))
  {
    if c.ChangeStatus? && HasVersion(s, c.tenant, c.rule, c.version) {
      NeverActivates(s.versions[c.version].version, c.call);
    }
    hide Apply, WellShaped;
  }

  lemma NeverActivates(v: Version, c: Call)
    requires c.SubmitCall? || c.DecideCall?
    ensures Apply(v, c).status.Active? <==> v.status.Active?
  {
  }

  /** Every activation is aimed at a version of the rule it names, or at no rule at all. */
  predicate AimedRight(s: Tables, cs: seq<StoreCall>)
    decreases |cs|
  {
    cs == [] ||
    (Allowed(s, cs[0])
     && (cs[0].Activate? && RuleExists(s, cs[0].tenant, cs[0].rule) ==>
         HasVersion(s, cs[0].tenant, cs[0].rule, cs[0].version))
     && AimedRight(Step(s, cs[0]), cs[1..]))
  }

  /** One active version per rule, named by the rule's pointer, in every such run; and every chain keeps its shape. */
  lemma {:induction false} ConsistentAlways(s: Tables, cs: seq<StoreCall>)
    requires Consistent(s) && AimedRight(s, cs)
    ensures Consistent(RunStore(s, cs))
    decreases |cs|
  {
    if cs != [] {
      var c := cs[0];
      hide Consistent, Step, RuleExists, HasVersion;
      if c.Activate? {
        ActivateKeepsIff(s, c.tenant, c.rule, c.version, c.actor, c.at);
      } else {
        StepKeeps(s, c);
      }
      ConsistentAlways(Step(s, c), cs[1..]);
    }
  }

  lemma StepKeepsShapes(s: Tables, c: StoreCall)
    requires ChainsWellShaped(s)
    ensures ChainsWellShaped(Step(s, c))
  {
    forall v, call | v in s.versions ensures WellShaped(Apply(s.versions[v].version, call)) {
      ApplyKeepsShape(s.versions[v].version, call);
    }
    if c.CreateRule? || c.CreateVersion? {
      assert Create(c.chain).Some? ==> WellShaped(Create(c.chain).value);
    }
    hide WellShaped, Apply, Create, Belongs;
  }

  /** Whatever is activated, no run spoils the approval chain of any version. */
  lemma {:induction false} ShapesAlways(s: Tables, cs: seq<StoreCall>)
    requires ChainsWellShaped(s)
    ensures ChainsWellShaped(RunStore(s, cs))
    decreases |cs|
  {
    if cs != [] {
      StepKeepsShapes(s, cs[0]);
      hide ChainsWellShaped, Step;
      ShapesAlways(Step(s, cs[0]), cs[1..]);
    }
  }

  /** The three columns the lookup joins and filters on. */
  lemma FindActiveIff(s: Tables, t: TenantId, r: RuleId, v: VersionId)
    ensures FindActive(s, t, r) == Some(v) <==>
            && r in s.rules && s.rules[r] == Rule(t, Some(v))
            && v in s.versions && s.versions[v].tenantId == t && s.versions[v].ruleId == r
  {
  }

  /** A draft nobody has touched, with one open step per role of the chain asked for. */
  ghost predicate DraftFor(v: Version, chain: Option<seq<Role>>) {
    var roles := if chain.Some? then chain.value else [Admin];
    && |v.steps| == |roles|
    && (forall i :: 0 <= i < |roles| ==> v.steps[i] == ChainStep(roles[i], Queued, None, None))
    && v == Version(VersionStatus.Draft, v.steps, None, None, None, None, [])
  }

  // What the calls on the tables do to one version.

  /** The calls of the approval model that a call on the tables makes on version v. */
  ghost function CallsOn(s: Tables, c: StoreCall, v: VersionId): seq<Call> {
    if !HasVersion(s, c.tenant, c.rule, v) then []
    else
      match c
      case ChangeStatus(_, _, version, call) => if v == version then [call] else []
      case Activate(_, _, version, actor, at) =>
        if v == version then [ActivateCall(actor, at)] else [DeprecateCall]
      case _ => []
  }

  ghost predicate AllAllowed(s: Tables, cs: seq<StoreCall>)
    decreases |cs|
  {
    cs == [] || (Allowed(s, cs[0]) && AllAllowed(Step(s, cs[0]), cs[1..]))
  }

  lemma RunOne(v: Version, c: Call)
    ensures Run(v, [c]) == Apply(v, c)
  {
    assert Run(Apply(v, c), [c][1..]) == Apply(v, c);
  }

  lemma StepOnVersion(s: Tables, c: StoreCall, v: VersionId)
    requires Allowed(s, c) && v in s.versions
    ensures v in Step(s, c).versions
    ensures Step(s, c).versions[v]
            == s.versions[v].(version := Run(s.versions[v].version, CallsOn(s, c, v)))
  {
    hide Apply, Create;
    match c {
      case ChangeStatus(_, _, _, call) =>
        RunOne(s.versions[v].version, call);
      case Activate(_, _, _, actor, at) =>
        RunOne(s.versions[v].version, ActivateCall(actor, at));
        DeprecationOnVersion(s.versions[v].version);
      case _ =>
    }
  }

  lemma DeprecationOnVersion(v: Version)
    ensures Run(v, [DeprecateCall]) == Apply(v, DeprecateCall)
    ensures !v.status.Active? ==> Apply(v, DeprecateCall) == v
  {
    RunOne(v, DeprecateCall);
  }

  lemma {:induction false} RunConcat(v: Version, cs: seq<Call>, ds: seq<Call>)
    ensures Run(v, cs + ds) == Run(Run(v, cs), ds)
    decreases |cs|
  {
    hide Apply;
    if cs == [] {
      assert cs + ds == ds;
    } else {
      RunConcat(Apply(v, cs[0]), cs[1..], ds);
      assert (cs + ds)[1..] == cs[1..] + ds;
    }
  }

  /** Whatever happens to the tables, each version undergoes a run of the approval model and keeps its owner. */
  lemma {:induction false} EachVersionRunsAlone(s: Tables, cs: seq<StoreCall>, v: VersionId) returns (calls: seq<Call>)
    requires AllAllowed(s, cs) && v in s.versions
    ensures v in RunStore(s, cs).versions
    ensures RunStore(s, cs).versions[v] == s.versions[v].(version := Run(s.versions[v].version, calls))
    decreases |cs|
  {
    calls := [];
    if cs != [] {
      var first := CallsOn(s, cs[0], v);
      StepOnVersion(s, cs[0], v);
      hide Step, Allowed, CallsOn;
      var rest := EachVersionRunsAlone(Step(s, cs[0]), cs[1..], v);
      RunConcat(s.versions[v].version, first, rest);
      calls := first + rest;
    }
  }

  /** A version stored for a chain is approved, in any run of the tables, only with that chain's approvals. */
  lemma StoredApprovalIsEarned(s: Tables, cs: seq<StoreCall>, v: VersionId, chain: Option<seq<Role>>)
    requires AllAllowed(s, cs) && v in s.versions && chain != Some([]) && DraftFor(s.versions[v].version, chain)
    ensures v in RunStore(s, cs).versions
    ensures var w := RunStore(s, cs).versions[v].version; var roles := if chain.Some? then chain.value else [Admin];
            && RolesAre(w, roles) && (w.status == ApprovedForUse ==> Earned(w, roles))
  {
    var calls := EachVersionRunsAlone(s, cs, v);
    assert Create(chain).value.steps == s.versions[v].version.steps;
    ApprovalIsEarned(chain, calls);
    hide RunStore, Run, Earned;
  }

  /** Under the invariant, looking a rule's version up over the pointer finds the active one iff there is one. */
  lemma FindActiveIsActive(s: Tables, t: TenantId, r: RuleId)
    requires Consistent(s) && RuleExists(s, t, r)
    ensures forall v: VersionId :: FindActive(s, t, r) == Some(v) <==> ActiveFor(s, t, r, v)
  {
    forall v: VersionId ensures FindActive(s, t, r) == Some(v) <==> ActiveFor(s, t, r, v) {
      assert s.rules[r].activeVersionId.Some? ==> ActiveFor(s, t, r, s.rules[r].activeVersionId.value);
    }
  }

  /** A row before and after an activation. */
  ghost predicate ActivationShows(v: VersionId, before: VersionRow, after: VersionRow, t: TenantId, r: RuleId,
                                  id: VersionId, actor: UserId, at: Time)
  {
    if before.tenantId != t || before.ruleId != r then after == before
    else if v == id then
      after == before.(version := before.version.(status := VersionStatus.Active, activatedBy := Some(actor),
                                  activatedAt := Some(at)))
    else if before.version.status == VersionStatus.Active then
      after == before.(version := before.version.(status := VersionStatus.Deprecated))
    else after == before
  }

  lemma ActivateShows(s: Tables, t: TenantId, r: RuleId, id: VersionId, actor: UserId, at: Time)
    ensures var w := Step(s, Activate(t, r, id, actor, at));
            && w.rules.Keys == s.rules.Keys && w.versions.Keys == s.versions.Keys
            && (forall k :: k in s.rules ==>
                  w.rules[k] == if k == r && s.rules[k].tenantId == t then Rule(t, Some(id)) else s.rules[k])
            && (forall v :: v in s.versions ==> ActivationShows(v, s.versions[v], w.versions[v], t, r, id, actor, at))
  {
  }

  datatype CreateError = EmptyChain | NoSuchRule

  /** The step a well-shaped pending version waits for, and what a decision does to it. */
  lemma PendingStep(s: Tables, id: VersionId, approve: bool, actor: UserId, role: Role, at: Time) returns (k: nat)
    requires ChainsWellShaped(s) && id in s.versions && s.versions[id].version.status.PendingApproval?
    ensures var v := s.versions[id].version;
            && PendingAt(v, k) && FirstPending(v.steps) == k && Initialized(v.steps) == v.steps
            && var w := ApprovalChain.Decide(v, approve, actor, role, at);
               if RoleSatisfiesMinimumRole(role, v.steps[k].requiredRole)
               then DecisionShows(v, w, k, approve, actor, role, at) else w == v
  {
    var v := s.versions[id].version;
    assert WellShaped(v);
    var p: nat :| PendingAt(v, p);
    k := p;
    PendingIndex(v.steps, k);
    DecideAt(v, k, approve, actor, role, at);
  }

  /** The tables as the functions of the source work on them, one UPDATE or INSERT after the other. */
  class Store {
    var rules: map<RuleId, Rule>
    var versions: map<VersionId, VersionRow>

    function Contents(): Tables
      reads this
    {
      Tables(rules, versions)
    }

    ghost predicate Valid()
      reads this
    {
      Consistent(Contents()) && ChainsWellShaped(Contents())
    }

    constructor ()
      ensures Valid() && rules == map[] && versions == map[]
    {
      rules, versions := map[], map[];
    }

    method NewRule(t: TenantId, rule: RuleId, version: VersionId, chain: Option<seq<Role>>)
      returns (r: Result<Version, CreateError>)
      requires Valid() && rule !in rules && version !in versions
      modifies this
      ensures Valid() && Contents() == Step(old(Contents()), CreateRule(t, rule, version, chain))
      ensures r.Err? <==> chain == Some([])
      ensures r.Err? ==> rules == old(rules) && versions == old(versions)
      ensures r.Ok? ==> DraftFor(r.value, chain) && rules == old(rules)[rule := Rule(t, None)]
                        && versions == old(versions)[version := VersionRow(t, rule, r.value)]
    {
      StepKeeps(Contents(), CreateRule(t, rule, version, chain));
      StepKeepsShapes(Contents(), CreateRule(t, rule, version, chain));
      hide Valid;
      match Create(chain) {
        case None =>
          r := Err(EmptyChain);
        case Some(v) =>
          rules := rules[rule := Rule(t, None)];
          versions := versions[version := VersionRow(t, rule, v)];
          r := Ok(v);
      }
    }

    method NewVersion(t: TenantId, rule: RuleId, version: VersionId, chain: Option<seq<Role>>)
      returns (r: Result<Version, CreateError>)
      requires Valid() && version !in versions
      modifies this
      ensures Valid() && Contents() == Step(old(Contents()), CreateVersion(t, rule, version, chain))
      ensures r.Ok? <==> chain != Some([]) && rule in rules
      ensures r.Err? ==> r.error == (if chain == Some([]) then EmptyChain else NoSuchRule) && versions == old(versions)
      ensures r.Ok? ==> DraftFor(r.value, chain)
                        && versions == old(versions)[version := VersionRow(t, rule, r.value)]
      ensures rules == old(rules)
    {
      StepKeeps(Contents(), CreateVersion(t, rule, version, chain));
      StepKeepsShapes(Contents(), CreateVersion(t, rule, version, chain));
      hide Valid;
      match Create(chain) {
        case None =>
          r := Err(EmptyChain);
        case Some(v) =>
          if rule !in rules {
            return Err(NoSuchRule);
          }
          versions := versions[version := VersionRow(t, rule, v)];
          r := Ok(v);
      }
    }

    /** Reset all steps, open the first, mark the version, log the submission. */
    method Submit(t: TenantId, rule: RuleId, id: VersionId, actor: Option<UserId>, role: Option<Role>, at: Time)
      returns (r: Option<Version>)
      requires Valid()
      modifies this
      ensures Valid() && Contents() == Step(old(Contents()), ChangeStatus(t, rule, id, SubmitCall(actor, role, at)))
      ensures r.Some? <==> && id in old(versions) && old(versions[id]).tenantId == t && old(versions[id]).ruleId == rule
                           && old(versions[id]).version.status in {VersionStatus.Draft, Refused}
      ensures r.Some? ==>
                && versions == old(versions)[id := VersionRow(t, rule, r.value)] && PendingAt(r.value, 0)
                && SubmissionShows(old(versions[id]).version, r.value, actor, role, at)
      ensures r.None? ==> versions == old(versions)
      ensures rules == old(rules)
    {
      ghost var c := ChangeStatus(t, rule, id, SubmitCall(actor, role, at));
      StepKeeps(Contents(), c);
      StepKeepsShapes(Contents(), c);
      hide Valid, WellShaped, Consistent, ChainsWellShaped, PendingAt, SubmissionShows;
      if !(id in versions && Belongs(versions[id], t, rule)) || !MaySubmit(versions[id].version) {
        return None;
      }
      var v := versions[id].version;
      SubmitOpens(v, actor, role, at);
      ghost var submitted := ApprovalChain.Submit(v, actor, role, at);
      v := v.(steps := Initialized(v.steps));
      v := v.(steps := seq(|v.steps|, i requires 0 <= i < |v.steps| => Requeued(v.steps[i])));
      v := v.(steps := v.steps[0 := v.steps[0].(status := StepStatus.Pending)]);
      v := v.(status := PendingApproval, approvedBy := None, approvedAt := None);
      v := v.(log := v.log + [LogEntry(0, Submitted, actor, role, at)]);
      assert v.steps == submitted.steps;
      assert v == submitted;
      versions := versions[id := versions[id].(version := v)];
      r := Some(v);
    }

    /** Decide the first pending step, then open the next one or settle the version, and log the decision. */
    method Decide(t: TenantId, rule: RuleId, id: VersionId, approve: bool, actor: UserId, role: Role, at: Time)
      returns (o: Outcome)
      requires Valid()
      modifies this
      ensures Valid()
      ensures Contents() == Step(old(Contents()), ChangeStatus(t, rule, id, DecideCall(approve, actor, role, at)))
      ensures o.NothingToDecide? <==>
              !(&& id in old(versions) && old(versions[id]).tenantId == t && old(versions[id]).ruleId == rule
                && old(versions[id]).version.status == PendingApproval)
      ensures !o.NothingToDecide? ==>
                var v := old(versions[id]).version;
                exists k: nat ::
                  && PendingAt(v, k)
                  && (o.DecisionTaken? <==> RoleSatisfiesMinimumRole(role, v.steps[k].requiredRole))
                  && (o.DecisionTaken? ==>
                        && id in versions && versions == old(versions)[id := VersionRow(t, rule, versions[id].version)]
                        && DecisionShows(v, versions[id].version, k, approve, actor, role, at))
      ensures !o.DecisionTaken? ==> versions == old(versions)
      ensures rules == old(rules)
    {
      ghost var c := ChangeStatus(t, rule, id, DecideCall(approve, actor, role, at));
      StepKeeps(Contents(), c);
      StepKeepsShapes(Contents(), c);
      hide Valid, WellShaped, Consistent, ChainsWellShaped;
      if !(id in versions && Belongs(versions[id], t, rule)) || !versions[id].version.status.PendingApproval? {
        return NothingToDecide;
      }
      var v := versions[id].version;
      ghost var pending := PendingStep(Contents(), id, approve, actor, role, at);
      ghost var decided := ApprovalChain.Decide(v, approve, actor, role, at);
      v := v.(steps := Initialized(v.steps));
      var k := FirstPending(v.steps);
      if k == |v.steps| {
        o := NothingToDecide;
      } else if !RoleSatisfiesMinimumRole(role, v.steps[k].requiredRole) {
        o := RoleTooLow;
      } else {
        o := DecisionTaken;
        if !approve {
          v := v.(steps := v.steps[k := Decided(v.steps[k], StepStatus.Rejected, actor, at)]);
          v := v.(status := Refused, approvedBy := None, approvedAt := None);
        } else {
          v := v.(steps := v.steps[k := Decided(v.steps[k], StepStatus.Approved, actor, at)]);
          if k + 1 == |v.steps| {
            v := v.(status := ApprovedForUse, approvedBy := Some(actor), approvedAt := Some(at));
          } else {
            v := v.(steps := v.steps[k + 1 := v.steps[k + 1].(status := StepStatus.Pending)]);
            v := v.(status := PendingApproval);
          }
        }
        v := v.(log := v.log + [LogEntry(k, if approve then Approve else Reject, Some(actor), Some(role), at)]);
      }
      assert v == decided;
      versions := versions[id := versions[id].(version := v)];
    }

    /**
     * Deprecate the rule's other active versions, activate this one, point the rule at it: three UPDATEs without a
     * check.
     */
    method ActivateVersion(t: TenantId, rule: RuleId, id: VersionId, actor: UserId, at: Time)
      requires ChainsWellShaped(Contents())
      modifies this
      ensures rules.Keys == old(rules).Keys && versions.Keys == old(versions).Keys
      ensures forall r :: r in rules ==>
                rules[r] == if r == rule && old(rules)[r].tenantId == t then Rule(t, Some(id)) else old(rules)[r]
      ensures forall v :: v in versions ==> ActivationShows(v, old(versions)[v], versions[v], t, rule, id, actor, at)
      ensures ChainsWellShaped(Contents()) && Contents() == Step(old(Contents()), Activate(t, rule, id, actor, at))
      ensures old(Valid()) ==>
                (Valid() <==> old(RuleExists(Contents(), t, rule) ==> HasVersion(Contents(), t, rule, id)))
    {
      ghost var before := Contents();
      if Consistent(before) {
        ActivateKeepsIff(before, t, rule, id, actor, at);
      }
      StepKeepsShapes(before, Activate(t, rule, id, actor, at));
      ActivateShows(before, t, rule, id, actor, at);
      hide Consistent, ChainsWellShaped, HasVersion, RuleExists, ActivationShows;
      versions := DeprecateOthers(versions, t, rule, id);
      if id in versions && Belongs(versions[id], t, rule) {
        versions := versions[id := versions[id].(version :=
          versions[id].version.(status := VersionStatus.Active, activatedBy := Some(actor), activatedAt := Some(at)))];
      }
      if rule in rules && rules[rule].tenantId == t {
        rules := rules[rule := rules[rule].(activeVersionId := Some(id))];
      }
    }
  }
}
