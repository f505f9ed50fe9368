/** One badge-rule version and its approval chain. */
module ApprovalChain {
  import opened Prelude

  type UserId = nat
  type Time = int

  datatype Role = Viewer | Issuer | Admin | Owner

  function Rank(role: Role): nat {
    match role
    case Viewer => 0
    case Issuer => 1
    case Admin => 2
    case Owner => 3
  }

  predicate RoleSatisfiesMinimumRole(actor: Role, required: Role) {
    Rank(actor) >= Rank(required)
  }

  /** Who may settle a step, role by role. */
  lemma RolesRanked(actor: Role)
    ensures RoleSatisfiesMinimumRole(actor, Viewer)
    ensures RoleSatisfiesMinimumRole(actor, Issuer) <==> actor in {Issuer, Admin, Owner}
    ensures RoleSatisfiesMinimumRole(actor, Admin) <==> actor in {Admin, Owner}
    ensures RoleSatisfiesMinimumRole(actor, Owner) <==> actor == Owner
  {
  }

  datatype StepStatus = Queued | Pending | Approved | Rejected

  /** The source's step number k is index k - 1 here. */
  datatype ChainStep = ChainStep(
    requiredRole: Role, status: StepStatus, decidedBy: Option<UserId>, decidedAt: Option<Time>)

  datatype VersionStatus = Draft | PendingApproval | ApprovedForUse | Active | Refused | Deprecated

  datatype Action = Submitted | Approve | Reject

  datatype LogEntry = LogEntry(
    step: nat, action: Action, actor: Option<UserId>, role: Option<Role>, occurredAt: Time)

  /** A version with its approval steps and approval events. */
  datatype Version = Version(
    status: VersionStatus, steps: seq<ChainStep>, approvedBy: Option<UserId>, approvedAt: Option<Time>,
    activatedBy: Option<UserId>, activatedAt: Option<Time>, log: seq<LogEntry>)

  datatype Outcome = NothingToDecide | RoleTooLow | DecisionTaken

  const DEFAULT_CHAIN: seq<Role> := [Admin]

  function QueuedSteps(chain: seq<Role>): (r: seq<ChainStep>)
    ensures |r| == |chain|
    ensures forall i :: 0 <= i < |chain| ==> r[i] == ChainStep(chain[i], Queued, None, None)
  {
    seq(|chain|, i requires 0 <= i < |chain| => ChainStep(chain[i], Queued, None, None))
  }

  /** A new version; an explicitly empty chain is refused. */
  function Create(chain: Option<seq<Role>>): (v: Option<Version>) {
    if chain == Some([]) then None
    else
      Some(Version(Draft, QueuedSteps(if chain.Some? then chain.value else DEFAULT_CHAIN), None, None, None, None, []))
  }

  /** Steps missing from the table are filled in before they are read. */
  function Initialized(steps: seq<ChainStep>): seq<ChainStep> {
    if steps == [] then QueuedSteps(DEFAULT_CHAIN) else steps
  }

  function Requeued(s: ChainStep): ChainStep {
    s.(status := Queued, decidedBy := None, decidedAt := None)
  }

  /** The steps a submission leaves: all queued again, the first one pending. */
  function Opened(steps: seq<ChainStep>): (r: seq<ChainStep>)
    requires steps != []
    ensures |r| == |steps|
    ensures r[0] == Requeued(steps[0]).(status := Pending)
    ensures forall i :: 1 <= i < |steps| ==> r[i] == Requeued(steps[i])
  {
    seq(|steps|, i requires 0 <= i < |steps| => Requeued(steps[i]))[0 := Requeued(steps[0]).(status := Pending)]
  }

  predicate MaySubmit(v: Version) { v.status.Draft? || v.status.Refused? }

  function Submit(v: Version, actor: Option<UserId>, role: Option<Role>, at: Time): Version {
    if !MaySubmit(v) then v
    else
      v.(status := PendingApproval, steps := Opened(Initialized(v.steps)), approvedBy := None, approvedAt := None,
         log := v.log + [LogEntry(0, Submitted, actor, role, at)])
  }

  /** Index of the first pending step, or the number of steps. */
  function FirstPending(steps: seq<ChainStep>): (k: nat)
    ensures k <= |steps| && forall i :: 0 <= i < k ==> !steps[i].status.Pending?
    ensures k < |steps| ==> steps[k].status.Pending?
  {
    if steps == [] || steps[0].status.Pending? then 0 else 1 + FirstPending(steps[1..])
  }

  function Decided(s: ChainStep, status: StepStatus, actor: UserId, at: Time): ChainStep {
    s.(status := status, decidedBy := Some(actor), decidedAt := Some(at))
  }

  /** The steps after the approval of step k: the next one, if any, is now pending. */
  function Advanced(steps: seq<ChainStep>, k: nat, actor: UserId, at: Time): (r: seq<ChainStep>)
    requires k < |steps|
    ensures |r| == |steps| && r[k] == Decided(steps[k], Approved, actor, at)
    ensures forall i :: 0 <= i < |steps| && i != k && i != k + 1 ==> r[i] == steps[i]
    ensures k + 1 < |steps| ==> r[k + 1] == steps[k + 1].(status := Pending)
  {
    var s := steps[k := Decided(steps[k], Approved, actor, at)];
    if k + 1 < |s| then s[k + 1 := s[k + 1].(status := Pending)] else s
  }

  function Judge(v: Version, role: Role): (o: Outcome) {
    var steps := Initialized(v.steps);
    var k := FirstPending(steps);
    if !v.status.PendingApproval? || k == |steps| then NothingToDecide
    else if !RoleSatisfiesMinimumRole(role, steps[k].requiredRole) then RoleTooLow
    else DecisionTaken
  }

  function Decide(v: Version, approve: bool, actor: UserId, role: Role, at: Time): Version {
    var steps := Initialized(v.steps);
    var k := FirstPending(steps);
    if !v.status.PendingApproval? then v
    else if !Judge(v, role).DecisionTaken? then v.(steps := steps)
    else
      var log := v.log + [LogEntry(k, if approve then Approve else Reject, Some(actor), Some(role), at)];
      if !approve then
        v.(status := Refused, steps := steps[k := Decided(steps[k], Rejected, actor, at)],
           approvedBy := None, approvedAt := None, log := log)
      else if k + 1 == |steps| then
        v.(status := ApprovedForUse, steps := Advanced(steps, k, actor, at),
           approvedBy := Some(actor), approvedAt := Some(at), log := log)
      else
        v.(steps := Advanced(steps, k, actor, at), log := log)
  }

  /** Every call that can touch a version. */
  datatype Call =
    | SubmitCall(actor: Option<UserId>, submitRole: Option<Role>, at: Time)
    | DecideCall(approve: bool, decider: UserId, role: Role, at: Time)
    | ActivateCall(activator: UserId, at: Time)
    | DeprecateCall

  /** Activation looks at no status; the activation of another version deprecates an active one. */
  function Apply(v: Version, c: Call): Version {
    match c
    case SubmitCall(actor, role, at) => Submit(v, actor, role, at)
    case DecideCall(approve, decider, role, at) => Decide(v, approve, decider, role, at)
    case ActivateCall(activator, at) => v.(status := Active, activatedBy := Some(activator), activatedAt := Some(at))
    case DeprecateCall => if v.status.Active? then v.(status := Deprecated) else v
  }

  function Run(v: Version, cs: seq<Call>): Version
    decreases |cs|
  {
    if cs == [] then v else Run(Apply(v, cs[0]), cs[1..])
  }

  // The shape of the chain, and what the log proves about it.

  ghost predicate IsOpen(s: ChainStep, status: StepStatus) {
    s.status == status && s.decidedBy == None && s.decidedAt == None
  }

  /** Approved steps, then one in `status`, then queued ones; nobody is recorded for an open step. */
  ghost predicate ChainAt(steps: seq<ChainStep>, k: nat, status: StepStatus) {
    && k < |steps|
    && (forall i :: 0 <= i < k ==> steps[i].status == Approved)
    && steps[k].status == status && (status == Pending ==> IsOpen(steps[k], Pending))
    && (forall i :: k < i < |steps| ==> IsOpen(steps[i], Queued))
  }

  ghost predicate AllQueued(steps: seq<ChainStep>) {
    steps != [] && forall i :: 0 <= i < |steps| ==> IsOpen(steps[i], Queued)
  }

  /** The entry settles step i, by the actor and at the time the step records, with a sufficient rank. */
  ghost predicate Settles(e: LogEntry, s: ChainStep, i: nat) {
    && e.step == i && e.actor == s.decidedBy && s.decidedBy.Some? && s.decidedAt == Some(e.occurredAt)
    && e.action == (if s.status == Approved then Approve else Reject)
    && e.role.Some? && RoleSatisfiesMinimumRole(e.role.value, s.requiredRole)
  }

  /** The log ends with a submission and then one approval of each of the first k steps, in order. */
  ghost predicate ApprovedInOrder(log: seq<LogEntry>, steps: seq<ChainStep>, k: nat) {
    && k <= |steps| && k < |log|
    && log[|log| - k - 1].action == Submitted
    && forall i :: 0 <= i < k ==> Settles(log[|log| - k + i], steps[i], i)
  }

  ghost predicate NotApproved(v: Version) {
    v.approvedBy == None && v.approvedAt == None
  }

  ghost predicate PendingAt(v: Version, k: nat) {
    NotApproved(v) && ChainAt(v.steps, k, Pending) && ApprovedInOrder(v.log, v.steps, k)
  }

  ghost predicate RefusedAt(v: Version, k: nat) {
    && NotApproved(v) && ChainAt(v.steps, k, Rejected) && v.log != []
    && Settles(v.log[|v.log| - 1], v.steps[k], k)
    && ApprovedInOrder(v.log[..|v.log| - 1], v.steps, k)
  }

  /** The approver of the last step is the version's. */
  ghost predicate ApprovedInFull(v: Version) {
    && v.steps != [] && (forall i :: 0 <= i < |v.steps| ==> v.steps[i].status == Approved)
    && ApprovedInOrder(v.log, v.steps, |v.steps|)
    && v.approvedBy == v.steps[|v.steps| - 1].decidedBy && v.approvedAt == v.steps[|v.steps| - 1].decidedAt
  }

  /** The shape that goes with an approval status. */
  ghost predicate Shape(v: Version, status: VersionStatus) {
    match status
    case Draft => NotApproved(v) && AllQueued(v.steps) && v.log == []
    case PendingApproval => exists k: nat :: PendingAt(v, k)
    case Refused => exists k: nat :: RefusedAt(v, k)
    case ApprovedForUse => ApprovedInFull(v)
    case _ => false
  }

  /** An active or deprecated version keeps the shape it was activated in. */
  ghost predicate WellShaped(v: Version) {
    if v.status.Active? || v.status.Deprecated? then
      Shape(v, Draft) || Shape(v, PendingApproval) || Shape(v, Refused) || Shape(v, ApprovedForUse)
    else
      Shape(v, v.status)
  }

  lemma PendingIndex(steps: seq<ChainStep>, k: nat)
    requires ChainAt(steps, k, Pending)
    ensures FirstPending(steps) == k && Initialized(steps) == steps
  {
    var j := FirstPending(steps);
    assert j <= k;
  }

  lemma ApprovalLogged(log: seq<LogEntry>, steps: seq<ChainStep>, k: nat, actor: UserId, role: Role, at: Time)
    requires k < |steps| && ApprovedInOrder(log, steps, k) && RoleSatisfiesMinimumRole(role, steps[k].requiredRole)
    ensures ApprovedInOrder(log + [LogEntry(k, Approve, Some(actor), Some(role), at)],
                            Advanced(steps, k, actor, at), k + 1)
  {
    var l := log + [LogEntry(k, Approve, Some(actor), Some(role), at)];
    var a := Advanced(steps, k, actor, at);
    hide Advanced, RoleSatisfiesMinimumRole;
    assert |l| - (k + 1) == |log| - k;
    forall i | 0 <= i < k + 1 ensures Settles(l[|l| - (k + 1) + i], a[i], i) {
      if i < k {
        assert l[|l| - (k + 1) + i] == log[|log| - k + i];
      }
    }
    assert l[|l| - (k + 1) - 1] == log[|log| - k - 1];
  }

  /** `w` is `v` after a decision on step k: the step, the next one, the status, the approver and the log entry. */
  ghost predicate DecisionShows(v: Version, w: Version, k: nat, approve: bool, actor: UserId, role: Role, at: Time) {
    && k < |v.steps| == |w.steps|
    && w.steps[k] == ChainStep(v.steps[k].requiredRole, if approve then Approved else Rejected, Some(actor), Some(at))
    && (forall i | 0 <= i < |v.steps| && i != k && i != k + 1 :: w.steps[i] == v.steps[i])
    && (k + 1 < |v.steps| ==>
          var next := v.steps[k + 1];
          w.steps[k + 1]
          == if approve then ChainStep(next.requiredRole, Pending, next.decidedBy, next.decidedAt) else next)
    && w.status == (if !approve then Refused else if k + 1 == |v.steps| then ApprovedForUse else PendingApproval)
    && w.approvedBy == (if approve && k + 1 == |v.steps| then Some(actor) else None)
    && w.approvedAt == (if approve && k + 1 == |v.steps| then Some(at) else None)
    && w.activatedBy == v.activatedBy && w.activatedAt == v.activatedAt
    && w.log == v.log + [LogEntry(k, if approve then Approve else Reject, Some(actor), Some(role), at)]
  }

  lemma DecisionOnPending(v: Version, k: nat, approve: bool, actor: UserId, role: Role, at: Time)
    requires v.status.PendingApproval? && NotApproved(v) && k < |v.steps|
    requires FirstPending(v.steps) == k && Initialized(v.steps) == v.steps
    ensures var w := Decide(v, approve, actor, role, at);
            if !RoleSatisfiesMinimumRole(role, v.steps[k].requiredRole) then w == v && Judge(v, role).RoleTooLow?
            else
              && Judge(v, role).DecisionTaken? && DecisionShows(v, w, k, approve, actor, role, at)
              && w.steps == if approve then Advanced(v.steps, k, actor, at)
                  else v.steps[k := Decided(v.steps[k], Rejected, actor, at)]
  {
  }

  /** What one decision does to a pending chain. */
  lemma DecideAt(v: Version, k: nat, approve: bool, actor: UserId, role: Role, at: Time)
    requires v.status.PendingApproval? && PendingAt(v, k)
    ensures var w := Decide(v, approve, actor, role, at);
            if !RoleSatisfiesMinimumRole(role, v.steps[k].requiredRole) then w == v && Judge(v, role).RoleTooLow?
            else
              && Judge(v, role).DecisionTaken? && DecisionShows(v, w, k, approve, actor, role, at)
              && (if !approve then Shape(w, Refused)
                  else if k + 1 == |v.steps| then Shape(w, ApprovedForUse)
                  else PendingAt(w, k + 1))
  {
    PendingIndex(v.steps, k);
    DecisionOnPending(v, k, approve, actor, role, at);
    hide FirstPending, Initialized, Decide, Judge;
    var w := Decide(v, approve, actor, role, at);
    if RoleSatisfiesMinimumRole(role, v.steps[k].requiredRole) {
      if approve {
        ApprovalLogged(v.log, v.steps, k, actor, role, at);
        hide Advanced;
      } else {
        RejectionLogged(v, k, actor, role, at);
        assert w.log[..|w.log| - 1] == v.log && RefusedAt(w, k);
      }
    }
  }

  lemma RejectionLogged(v: Version, k: nat, actor: UserId, role: Role, at: Time)
    requires PendingAt(v, k) && RoleSatisfiesMinimumRole(role, v.steps[k].requiredRole)
    ensures RefusedAt(v.(status := Refused, steps := v.steps[k := Decided(v.steps[k], Rejected, actor, at)],
                         approvedBy := None, approvedAt := None,
                         log := v.log + [LogEntry(k, Reject, Some(actor), Some(role), at)]), k)
  {
    var l := v.log + [LogEntry(k, Reject, Some(actor), Some(role), at)];
    assert l[..|l| - 1] == v.log;
    var s := v.steps[k := Decided(v.steps[k], Rejected, actor, at)];
    assert Settles(l[|l| - 1], s[k], k);
    hide Settles;
    assert forall i :: 0 <= i < k ==> s[i] == v.steps[i];
  }

  /** `w` is `v` after a submission: every step open again in its role, the first one pending, and a log entry. */
  ghost predicate SubmissionShows(v: Version, w: Version, actor: Option<UserId>, role: Option<Role>, at: Time) {
    && (v.steps == [] ==> w.steps == [ChainStep(Admin, Pending, None, None)])
    && (v.steps != [] ==>
          && |w.steps| == |v.steps| && w.steps[0] == ChainStep(v.steps[0].requiredRole, Pending, None, None)
          && forall i | 1 <= i < |v.steps| :: w.steps[i] == ChainStep(v.steps[i].requiredRole, Queued, None, None))
    && w.status == PendingApproval && NotApproved(w)
    && w.activatedBy == v.activatedBy && w.activatedAt == v.activatedAt
    && w.log == v.log + [LogEntry(0, Submitted, actor, role, at)]
  }

  /** A draft or rejected version can be submitted, and no other. */
  lemma SubmitOpens(v: Version, actor: Option<UserId>, role: Option<Role>, at: Time)
    ensures var w := Submit(v, actor, role, at);
            if v.status == Draft || v.status == Refused then SubmissionShows(v, w, actor, role, at) && PendingAt(w, 0)
            else w == v
  {
    if MaySubmit(v) {
      var w := Submit(v, actor, role, at);
      assert w.log[|w.log| - 1] == LogEntry(0, Submitted, actor, role, at);
      assert v.steps == [] ==> w.steps == [ChainStep(Admin, Pending, None, None)];
    }
  }

  lemma ApplyKeepsShape(v: Version, c: Call)
    requires WellShaped(v)
    ensures WellShaped(Apply(v, c))
  {
    hide Submit, Decide, PendingAt, RefusedAt, ApprovedInFull, AllQueued;
    match c {
      case SubmitCall(actor, role, at) =>
        SubmitKeepsShape(v, actor, role, at);
      case DecideCall(approve, decider, role, at) =>
        DecideKeepsShape(v, approve, decider, role, at);
      case ActivateCall(activator, at) =>
        SameChainSameShape(v, Apply(v, c));
      case DeprecateCall =>
        SameChainSameShape(v, Apply(v, c));
    }
  }

  lemma SubmitKeepsShape(v: Version, actor: Option<UserId>, role: Option<Role>, at: Time)
    requires WellShaped(v)
    ensures WellShaped(Submit(v, actor, role, at))
  {
    if MaySubmit(v) {
      SubmitOpens(v, actor, role, at);
      hide Submit, PendingAt;
    }
  }

  lemma DecideKeepsShape(v: Version, approve: bool, actor: UserId, role: Role, at: Time)
    requires WellShaped(v)
    ensures WellShaped(Decide(v, approve, actor, role, at))
  {
    if v.status.PendingApproval? {
      var k: nat :| PendingAt(v, k);
      DecideAt(v, k, approve, actor, role, at);
      hide Decide, PendingAt, RefusedAt, ApprovedInFull, Judge, RoleSatisfiesMinimumRole, Settles;
    }
  }

  lemma SameChainSameShape(v: Version, w: Version)
    requires WellShaped(v) && w.steps == v.steps && w.log == v.log
    requires w.approvedBy == v.approvedBy && w.approvedAt == v.approvedAt
    requires w.status.Active? || w.status.Deprecated? || w == v
    ensures WellShaped(w)
  {
    hide ChainAt, ApprovedInOrder, AllQueued;
    forall k: nat | PendingAt(v, k) ensures PendingAt(w, k) { }
    forall k: nat | RefusedAt(v, k) ensures RefusedAt(w, k) { }
    hide PendingAt, RefusedAt;
  }

  /** The chain keeps its shape, and an approved version its evidence, in every run. */
  lemma {:induction false} ShapeAlways(v: Version, cs: seq<Call>)
    requires WellShaped(v)
    ensures WellShaped(Run(v, cs))
    decreases |cs|
  {
    hide WellShaped, Apply;
    if cs != [] {
      ApplyKeepsShape(v, cs[0]);
      ShapeAlways(Apply(v, cs[0]), cs[1..]);
    }
  }

  ghost predicate RolesAre(v: Version, roles: seq<Role>) {
    |v.steps| == |roles| && forall i :: 0 <= i < |roles| ==> v.steps[i].requiredRole == roles[i]
  }

  lemma ApplyKeepsRoles(v: Version, c: Call, roles: seq<Role>)
    requires roles != [] && RolesAre(v, roles)
    ensures RolesAre(Apply(v, c), roles)
  {
  }

  /** No call gives a step another role, or adds or drops a step. */
  lemma {:induction false} RolesAlways(v: Version, cs: seq<Call>, roles: seq<Role>)
    requires roles != [] && RolesAre(v, roles)
    ensures RolesAre(Run(v, cs), roles)
    decreases |cs|
  {
    hide RolesAre, Apply;
    if cs != [] {
      ApplyKeepsRoles(v, cs[0], roles);
      RolesAlways(Apply(v, cs[0]), cs[1..], roles);
    }
  }

  /** The entry approves step i, which asks for `role`, and the step records it. */
  ghost predicate ApprovesFor(e: LogEntry, s: ChainStep, i: nat, role: Role) {
    && e.step == i && e.action == Approve && e.actor.Some?
    && e.role.Some? && RoleSatisfiesMinimumRole(e.role.value, role)
    && s == ChainStep(role, Approved, e.actor, Some(e.occurredAt))
  }

  /** The log ends with a submission and one approval per role, in order, each recorded in its step. */
  ghost predicate Earned(v: Version, roles: seq<Role>) {
    var n := |roles|;
    && |v.steps| == n && |v.log| > n && v.log[|v.log| - n - 1].action == Submitted
    && (forall i :: 0 <= i < n ==> ApprovesFor(v.log[|v.log| - n + i], v.steps[i], i, roles[i]))
    && v.approvedBy == v.log[|v.log| - 1].actor && v.approvedAt == Some(v.log[|v.log| - 1].occurredAt)
  }

  lemma ShapeIsEarned(v: Version, roles: seq<Role>)
    requires ApprovedInFull(v) && RolesAre(v, roles)
    ensures Earned(v, roles)
  {
    var n := |roles|;
    hide RoleSatisfiesMinimumRole;
    forall i | 0 <= i < n ensures ApprovesFor(v.log[|v.log| - n + i], v.steps[i], i, roles[i]) {
      assert Settles(v.log[|v.log| - n + i], v.steps[i], i);
    }
    assert Settles(v.log[|v.log| - n + (n - 1)], v.steps[n - 1], n - 1);
  }

  /**
   * In every run from creation the steps ask for the roles of the chain the version was created with, and approval is
   * reached only with an approval of each step in order since the last submission, by an actor of sufficient role,
   * whom the step records.
   */
  lemma ApprovalIsEarned(chain: Option<seq<Role>>, cs: seq<Call>)
    ensures Create(chain).None? <==> chain == Some([])
    ensures Create(chain).Some? ==>
              var v := Run(Create(chain).value, cs);
              var roles := if chain.Some? then chain.value else [Admin];
              && |v.steps| == |roles| > 0 && (forall i :: 0 <= i < |roles| ==> v.steps[i].requiredRole == roles[i])
              && (v.status == ApprovedForUse ==> Earned(v, roles))
  {
    if Create(chain).Some? {
      var v0 := Create(chain).value;
      var roles := if chain.Some? then chain.value else [Admin];
      assert WellShaped(v0) && RolesAre(v0, roles);
      ShapeAlways(v0, cs);
      RolesAlways(v0, cs, roles);
      var v := Run(v0, cs);
      hide Run, Create, RoleSatisfiesMinimumRole, Earned, ApprovedInFull;
      if v.status == ApprovedForUse {
        ShapeIsEarned(v, roles);
      }
    }
  }

  // How many decisions it takes.

  /** Every call is a decision that takes effect. */
  predicate AllTaken(v: Version, cs: seq<Call>)
    decreases |cs|
  {
    cs == [] ||
    (cs[0].DecideCall? && Judge(v, cs[0].role).DecisionTaken?
     && AllTaken(Apply(v, cs[0]), cs[1..]))
  }

  predicate AllApprove(cs: seq<Call>) {
    forall i :: 0 <= i < |cs| ==> cs[i].DecideCall? && cs[i].approve
  }

  /**
   * From a chain pending at step k, at most |steps| - k decisions can take effect, and they end in approval exactly
   * when there are that many and all of them approve.
   */
  lemma {:induction false} DecisionsToApproval(v: Version, k: nat, cs: seq<Call>)
    requires v.status.PendingApproval? && PendingAt(v, k) && AllTaken(v, cs)
    ensures |cs| <= |v.steps| - k
    ensures Run(v, cs).status.ApprovedForUse? <==> |cs| == |v.steps| - k && AllApprove(cs)
    decreases |cs|
  {
    if cs != [] {
      var c := cs[0];
      DecideAt(v, k, c.approve, c.decider, c.role, c.at);
      var w := Decide(v, c.approve, c.decider, c.role, c.at);
      hide PendingAt, RefusedAt, Shape, RoleSatisfiesMinimumRole, Decide;
      if c.approve && k + 1 < |v.steps| {
        DecisionsToApproval(w, k + 1, cs[1..]);
        AllApproveCons(cs);
      } else {
        NothingTaken(w, cs[1..]);
      }
    }
  }

  lemma AllApproveCons(cs: seq<Call>)
    requires cs != []
    ensures AllApprove(cs) <==> cs[0].DecideCall? && cs[0].approve && AllApprove(cs[1..])
  {
    if cs[0].DecideCall? && cs[0].approve && AllApprove(cs[1..]) {
      forall i | 0 <= i < |cs| ensures cs[i].DecideCall? && cs[i].approve {
        assert i > 0 ==> cs[i] == cs[1..][i - 1];
      }
    }
  }

  lemma NothingTaken(v: Version, cs: seq<Call>)
    requires !v.status.PendingApproval? && AllTaken(v, cs)
    ensures cs == []
  {
  }

  /** An owner can always take the next decision, so an all-owner run of approvals gets through. */
  lemma {:induction false} OwnerGetsThrough(v: Version, k: nat, cs: seq<Call>)
    requires v.status.PendingApproval? && PendingAt(v, k) && |cs| == |v.steps| - k
    requires AllApprove(cs) && forall i :: 0 <= i < |cs| ==> cs[i].role == Owner
    ensures AllTaken(v, cs) && Run(v, cs).status.ApprovedForUse?
    decreases |cs|
  {
    var c := cs[0];
    DecideAt(v, k, true, c.decider, c.role, c.at);
    var w := Decide(v, true, c.decider, c.role, c.at);
    hide PendingAt, Shape, Decide, Judge;
    if k + 1 < |v.steps| {
      OwnerGetsThrough(w, k + 1, cs[1..]);
    } else {
      assert cs[1..] == [];
      assert Run(w, cs[1..]) == w;
    }
  }
}
