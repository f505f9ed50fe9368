/** One message of the leased queue, and the four UPDATE statements that change it, as they land. */
module JobMessage {
  import opened Prelude

  type Id = nat
  type Token = nat
  type Time = int

  datatype Status = Pending | Processing | Completed | Failed

  datatype JobType =
    | IssueBadge | RevokeBadge | RebuildVerificationCache | ImportMigrationBatch | ImportLearnerRecordBatch

  /** The import batch a payload names, if its JSON parses as one. */
  datatype Batch = Batch(batchId: nat, source: nat, rowNumber: Option<int>)

  datatype Message = Message(
    id: Id, tenantId: nat, jobType: JobType, batch: Option<Batch>, idempotencyKey: nat,
    attemptCount: nat, maxAttempts: nat, availableAt: Time, leasedUntil: Option<Time>, leaseToken: Option<Token>,
    lastError: Option<nat>, completedAt: Option<Time>, failedAt: Option<Time>, status: Status,
    createdAt: Time, updatedAt: Time)

  /** A message as it is enqueued. */
  function Enqueued(id: Id, tenantId: nat, jobType: JobType, batch: Option<Batch>, idempotencyKey: nat,
          maxAttempts: nat, now: Time): Message {
    Message(id, tenantId, jobType, batch, idempotencyKey, 0, maxAttempts, now, None, None,
            None, None, None, Pending, now, now)
  }

  /** An UPDATE aimed at one message. The clock its caller read is part of the statement. */
  datatype Event =
    | Lease(token: Token, now: Time, until: Time)
    | Complete(token: Token, now: Time)
    | Fail(token: Token, now: Time, retryAt: Time, error: nat)
    | Retry(now: Time)

  /** The guard of the per-row lease UPDATE. It does not look at `status`. */
  predicate LeaseGuard(m: Message, now: Time) {
    && m.availableAt <= now
    && (m.leasedUntil.None? || m.leasedUntil.value <= now)
    && m.attemptCount < m.maxAttempts
  }

  /** The WHERE clause of the candidate SELECT. */
  predicate Candidate(m: Message, now: Time) {
    (m.status.Pending? || m.status.Processing?) && LeaseGuard(m, now)
  }

  /**
   * Neither the lease UPDATE nor the retry UPDATE looks at `status`: only the SELECT before it did. The retry UPDATE
   * looks at tenant and job type besides the identifier, which never change.
   */
  function Step(m: Message, e: Event): Message {
    match e
    case Lease(token, now, until) =>
      if LeaseGuard(m, now) then
        m.(status := Processing, attemptCount := m.attemptCount + 1,
           leasedUntil := Some(until), leaseToken := Some(token), updatedAt := now)
      else m
    case Complete(token, now) =>
      if m.leaseToken == Some(token) then
        m.(status := Completed, leasedUntil := None, leaseToken := None, lastError := None,
           completedAt := Some(now), updatedAt := now)
      else m
    case Fail(token, now, retryAt, error) =>
      if m.leaseToken == Some(token) then
        var spent := m.attemptCount >= m.maxAttempts;
        m.(status := if spent then Failed else Pending,
           availableAt := if spent then m.availableAt else retryAt,
           leasedUntil := None, leaseToken := None, lastError := Some(error),
           failedAt := if spent then Some(now) else None, updatedAt := now)
      else m
    case Retry(now) =>
      m.(status := Pending, attemptCount := 0, availableAt := now, leasedUntil := None, leaseToken := None,
         lastError := None, failedAt := None, updatedAt := now)
  }

  // What each UPDATE writes and what it leaves.

  /** The columns that no UPDATE writes. */
  ghost predicate SameJob(m: Message, w: Message) {
    && w.id == m.id && w.tenantId == m.tenantId && w.jobType == m.jobType && w.batch == m.batch
    && w.idempotencyKey == m.idempotencyKey && w.maxAttempts == m.maxAttempts && w.createdAt == m.createdAt
  }

  /** The message waits or its lease may have run out, its time has come, and it has attempts left. */
  ghost predicate Leasable(m: Message, now: Time) {
    && (m.status == Pending || m.status == Processing) && m.availableAt <= now
    && (m.leasedUntil == None || m.leasedUntil.value <= now) && m.attemptCount < m.maxAttempts
  }

  ghost predicate LeaseWrites(m: Message, w: Message, token: Token, now: Time, until: Time) {
    && SameJob(m, w) && w.status == Processing && w.attemptCount == m.attemptCount + 1
    && w.leasedUntil == Some(until) && w.leaseToken == Some(token) && w.updatedAt == now
    && w.availableAt == m.availableAt && w.lastError == m.lastError && w.completedAt == m.completedAt
    && w.failedAt == m.failedAt
  }

  ghost predicate CompleteWrites(m: Message, w: Message, now: Time) {
    && SameJob(m, w) && w.status == Completed && w.leasedUntil == None && w.leaseToken == None && w.lastError == None
    && w.completedAt == Some(now) && w.updatedAt == now
    && w.attemptCount == m.attemptCount && w.availableAt == m.availableAt && w.failedAt == m.failedAt
  }

  /** The attempts used up, the message has failed; else it waits for its retry time. */
  ghost predicate FailWrites(m: Message, w: Message, now: Time, retryAt: Time, error: nat) {
    && SameJob(m, w) && w.leasedUntil == None && w.leaseToken == None && w.lastError == Some(error)
    && w.updatedAt == now && w.attemptCount == m.attemptCount && w.completedAt == m.completedAt
    && (m.attemptCount >= m.maxAttempts ==>
          w.status == Failed && w.failedAt == Some(now) && w.availableAt == m.availableAt)
    && (m.attemptCount < m.maxAttempts ==> w.status == Pending && w.failedAt == None && w.availableAt == retryAt)
  }

  ghost predicate RetryWrites(m: Message, w: Message, now: Time) {
    && SameJob(m, w) && w.status == Pending && w.attemptCount == 0 && w.availableAt == now
    && w.leasedUntil == None && w.leaseToken == None && w.lastError == None && w.failedAt == None && w.updatedAt == now
    && w.completedAt == m.completedAt
  }

  /** The guards of the UPDATEs, and what the message is like after them. */
  lemma StepWrites(m: Message, e: Event)
    ensures Candidate(m, e.now) <==> Leasable(m, e.now)
    ensures match e
            case Lease(token, now, until) =>
              if m.availableAt <= now && (m.leasedUntil == None || m.leasedUntil.value <= now)
                 && m.attemptCount < m.maxAttempts
              then LeaseWrites(m, Step(m, e), token, now, until) else Step(m, e) == m
            case Complete(token, now) =>
              if m.leaseToken == Some(token) then CompleteWrites(m, Step(m, e), now) else Step(m, e) == m
            case Fail(token, now, retryAt, error) =>
              if m.leaseToken == Some(token) then FailWrites(m, Step(m, e), now, retryAt, error) else Step(m, e) == m
            case Retry(now) => RetryWrites(m, Step(m, e), now)
  {
  }

  function Run(m: Message, es: seq<Event>): Message
    decreases |es|
  {
    if es == [] then m else Run(Step(m, es[0]), es[1..])
  }

  lemma {:induction false} RunConcat(m: Message, es: seq<Event>, fs: seq<Event>)
    ensures Run(m, es + fs) == Run(Run(m, es), fs)
    decreases |es|
  {
    if es == [] {
      assert es + fs == fs;
    } else {
      RunConcat(Step(m, es[0]), es[1..], fs);
      assert (es + fs)[1..] == es[1..] + fs;
    }
  }

  predicate Finishes(e: Event, token: Token) {
    (e.Complete? || e.Fail?) && e.token == token
  }

  // Runs under which a message does not change.

  /** The message is the same at every moment of the run. */
  ghost predicate StandsStill(m: Message, es: seq<Event>) {
    forall k :: 0 <= k <= |es| ==> Run(m, es[..k]) == m
  }

  lemma {:induction false} RunStep(m: Message, es: seq<Event>, k: nat)
    requires k < |es|
    ensures Run(m, es[..k + 1]) == Run(Step(m, es[0]), es[1..][..k])
  {
    assert es[..k + 1][1..] == es[1..][..k];
  }

  /** That is so iff no statement of the run would change it. */
  lemma {:induction false} StandsStillIff(m: Message, es: seq<Event>)
    ensures StandsStill(m, es) <==> forall e :: e in es ==> Step(m, e) == m
    ensures StandsStill(m, es) ==> Run(m, es) == m
  {
    assert es[..|es|] == es;
    hide Step;
    if es != [] {
      var rest := es[1..];
      StandsStillIff(m, rest);
      assert forall e :: e in es <==> e == es[0] || e in rest;
      RunStep(m, es, 0);
      assert StandsStill(m, es) ==> Step(m, es[0]) == m;
      forall k | 0 <= k <= |rest| ensures Run(m, es[..k + 1]) == Run(Step(m, es[0]), rest[..k]) {
        RunStep(m, es, k);
      }
      if Step(m, es[0]) == m && StandsStill(m, rest) {
        forall k | 0 <= k <= |es| ensures Run(m, es[..k]) == m {
          assert k > 0 ==> Run(m, es[..k - 1 + 1]) == Run(m, rest[..k - 1]);
        }
      }
    }
  }

  /** What the SELECT of its call saw still holds when the UPDATE lands. */
  predicate Current(m: Message, e: Event) {
    (e.Lease? ==> Candidate(m, e.now)) && (e.Retry? ==> m.status.Failed?)
  }

  /** Every lease call and every retry call works like a single step. */
  predicate Atomic(m: Message, es: seq<Event>)
    decreases |es|
  {
    es == [] || (Current(m, es[0]) && Atomic(Step(m, es[0]), es[1..]))
  }

  /** Every retry call works like a single step, while lease calls interleave at will. */
  predicate RetriesAtomic(m: Message, es: seq<Event>)
    decreases |es|
  {
    es == [] || ((es[0].Retry? ==> Current(m, es[0])) && RetriesAtomic(Step(m, es[0]), es[1..]))
  }

  /** A message that stands still apart from retries is spared these, too, unless it has failed. */
  lemma {:induction false} NoRetryReaches(m: Message, es: seq<Event>)
    requires !m.status.Failed? && RetriesAtomic(m, es)
    requires forall e :: e in es && !e.Retry? ==> Step(m, e) == m
    ensures forall e :: e in es ==> !e.Retry?
  {
    if es != [] {
      assert es[0] in es;
      NoRetryReaches(m, es[1..]);
      assert forall e :: e in es ==> e == es[0] || e in es[1..];
    }
  }

  // Leases are exclusive.

  /** While a lease runs, the statements of the other workers that read a right clock. */
  predicate OfOthers(es: seq<Event>, token: Token, until: Time) {
    forall e :: e in es ==> !Finishes(e, token) && (e.Lease? ==> e.now < until)
  }

  /** The token is on the message at every moment of the run. */
  ghost predicate Holds(m: Message, token: Token, es: seq<Event>) {
    forall k :: 0 <= k <= |es| ==> Run(m, es[..k]).leaseToken == Some(token)
  }

  /**
   * With the SELECT and the UPDATEs of any number of lease calls interleaved at will, a worker granted a lease is the
   * only token holder at every moment before its end, until it finishes, provided retry calls are single steps; and
   * nothing about the message changes.
   */
  lemma LeaseIsExclusive(m: Message, grant: Event, es: seq<Event>)
    requires grant.Lease? && LeaseGuard(m, grant.now) && OfOthers(es, grant.token, grant.until)
    requires RetriesAtomic(Step(m, grant), es)
    ensures StandsStill(Step(m, grant), es) && Holds(Step(m, grant), grant.token, es)
  {
    NoRetryReaches(Step(m, grant), es);
    StandsStillIff(Step(m, grant), es);
  }

  /** With the UPDATEs of retry calls interleaved as well, exactly these take a running lease away. */
  lemma {:induction false} LeaseIsExclusiveIff(m: Message, grant: Event, es: seq<Event>)
    requires grant.Lease? && LeaseGuard(m, grant.now) && OfOthers(es, grant.token, grant.until)
    ensures var held := Step(m, grant);
            && (StandsStill(held, es) <==> forall e :: e in es ==> !e.Retry?)
            && (Holds(held, grant.token, es) <==> forall e :: e in es ==> !e.Retry?)
  {
    var held := Step(m, grant);
    StandsStillIff(held, es);
    HoldsIff(held, grant.token, grant.until, es);
  }

  lemma {:induction false} HoldsIff(m: Message, token: Token, until: Time, es: seq<Event>)
    requires m.status.Processing? && m.leaseToken == Some(token) && m.leasedUntil == Some(until)
    requires OfOthers(es, token, until)
    ensures Holds(m, token, es) <==> forall e :: e in es ==> !e.Retry?
  {
    if es != [] {
      var rest := es[1..];
      assert es[0] in es && forall e :: e in es <==> e == es[0] || e in rest;
      HoldsIff(m, token, until, rest);
      RunStep(m, es, 0);
      if !es[0].Retry? {
        assert Step(m, es[0]) == m;
        hide Step;
        forall k | 0 <= k <= |rest| ensures Run(m, es[..k + 1]) == Run(m, rest[..k]) {
          RunStep(m, es, k);
        }
        if Holds(m, token, rest) {
          forall k | 0 <= k <= |es| ensures Run(m, es[..k]).leaseToken == Some(token) {
            assert k > 0 ==> Run(m, es[..k - 1 + 1]) == Run(m, rest[..k - 1]);
          }
        }
      } else {
        assert Run(m, es[..0 + 1]).leaseToken == None;
      }
    }
  }

  /** A token that is not on the message and is never issued again can no longer change it. */
  lemma {:induction false} SupersededTokenIsPowerless(m: Message, token: Token, es: seq<Event>, e: Event)
    requires m.leaseToken != Some(token)
    requires forall f :: f in es ==> !(f.Lease? && f.token == token)
    requires Finishes(e, token)
    ensures Step(Run(m, es), e) == Run(m, es)
    decreases |es|
  {
    if es != [] {
      assert es[0] in es;
      SupersededTokenIsPowerless(Step(m, es[0]), token, es[1..], e);
    }
  }

  // Backing off after a failure.

  /**
   * A failure with attempts left makes the message pending, and a candidate at its retry time. Until then it is the
   * same at every moment iff no retry UPDATE lands; if retry calls are single steps, none does.
   */
  lemma BackoffHolds(m: Message, fail: Event, es: seq<Event>)
    requires fail.Fail? && m.leaseToken == Some(fail.token) && m.attemptCount < m.maxAttempts
    requires forall e :: e in es ==> (e.Lease? ==> e.now < fail.retryAt)
    ensures var r := Step(m, fail);
            && r.status.Pending? && r.lastError == Some(fail.error) && Candidate(r, fail.retryAt)
            && (StandsStill(r, es) <==> forall e :: e in es ==> !e.Retry?)
            && (RetriesAtomic(r, es) ==> StandsStill(r, es))
  {
    var r := Step(m, fail);
    StandsStillIff(r, es);
    assert forall e :: e in es && !e.Retry? ==> Step(r, e) == r;
    if RetriesAtomic(r, es) {
      NoRetryReaches(r, es);
    }
  }

  /** A failure on the last attempt is final until a retry, which then grants a full budget at once. */
  lemma LastFailureWaitsForRetry(m: Message, fail: Event, es: seq<Event>, now: Time)
    requires Consistent(m) && fail.Fail? && m.leaseToken == Some(fail.token) && m.attemptCount == m.maxAttempts
    ensures var r := Step(m, fail);
            && r.status.Failed? && r.failedAt == Some(fail.now)
            && (StandsStill(r, es) <==> forall e :: e in es ==> !e.Retry?)
            && Candidate(Step(r, Retry(now)), now) && Step(r, Retry(now)).attemptCount == 0
  {
    StandsStillIff(Step(m, fail), es);
  }

  // The attempt budget, with each lease call and each retry call taken as one step.

  predicate Consistent(m: Message) {
    && 1 <= m.maxAttempts && m.attemptCount <= m.maxAttempts
    && (m.status.Processing? <==> m.leaseToken.Some?)
    && (m.leaseToken.Some? <==> m.leasedUntil.Some?)
    && (m.status.Pending? ==> m.attemptCount < m.maxAttempts)
    && (m.status.Failed? ==> m.attemptCount == m.maxAttempts && m.failedAt.Some?)
    && (m.status.Processing? ==> m.attemptCount >= 1)
    && (m.status.Completed? ==> m.completedAt.Some?)
  }

  lemma {:induction false} ConsistentAlways(m: Message, es: seq<Event>)
    requires Consistent(m) && Atomic(m, es)
    ensures Consistent(Run(m, es))
    decreases |es|
  {
    if es != [] {
      ConsistentAlways(Step(m, es[0]), es[1..]);
    }
  }

  /** Lease statements since the last retry, on top of `before` earlier ones. */
  function LeasesSinceReset(m: Message, es: seq<Event>, before: nat): nat
    decreases |es|
  {
    if es == [] then before
    else
      LeasesSinceReset(Step(m, es[0]), es[1..],
                       if es[0].Retry? then 0
                       else if es[0].Lease? then before + 1 else before)
  }

  /** The stored count is the number of leases since enqueue or retry, and stays within the budget. */
  lemma {:induction false} AttemptsAreLeases(m: Message, es: seq<Event>)
    requires Consistent(m) && Atomic(m, es)
    ensures Run(m, es).attemptCount == LeasesSinceReset(m, es, m.attemptCount) <= m.maxAttempts
    decreases |es|
  {
    if es != [] {
      ConsistentAlways(m, [es[0]]);
      assert Run(m, [es[0]]) == Step(m, es[0]);
      AttemptsAreLeases(Step(m, es[0]), es[1..]);
    }
  }

  /** Completed is final, and only a retry leaves failed. */
  lemma {:induction false} TerminalStates(m: Message, es: seq<Event>)
    requires Consistent(m) && Atomic(m, es)
    ensures m.status.Completed? ==> Run(m, es) == m
    ensures m.status.Failed? && (forall e :: e in es ==> !e.Retry?) ==> Run(m, es) == m
  {
    if es != [] && (m.status.Completed? || (m.status.Failed? && forall e :: e in es ==> !e.Retry?)) {
      assert es[0] in es;
      assert Step(m, es[0]) == m;
      TerminalStates(m, es[1..]);
    }
  }

  // Finality, with the UPDATEs of any lease and retry calls interleaved at will.

  /** The UPDATE of a lease call finds a message without lease available and with attempts left. */
  predicate Reopens(m: Message, e: Event) {
    e.Lease? && m.availableAt <= e.now && m.attemptCount < m.maxAttempts
  }

  /** Completed is final iff no retry UPDATE lands and no lease UPDATE that finds attempts left. */
  lemma CompletedIsFinalIff(m: Message, es: seq<Event>)
    requires Consistent(m) && m.status.Completed?
    ensures StandsStill(m, es) <==> forall e :: e in es ==> !e.Retry? && !Reopens(m, e)
  {
    StandsStillIff(m, es);
  }

  /** Failed is final iff no retry UPDATE lands. */
  lemma FailedIsFinalIff(m: Message, es: seq<Event>)
    requires Consistent(m) && m.status.Failed?
    ensures StandsStill(m, es) <==> forall e :: e in es ==> !e.Retry?
  {
    StandsStillIff(m, es);
  }

  lemma RunSnoc(m: Message, es: seq<Event>, e: Event)
    ensures Run(m, es + [e]) == Step(Run(m, es), e)
  {
    RunConcat(m, es, [e]);
    assert Run(Run(m, es), [e]) == Step(Run(m, es), e);
  }

  /** Two workers select a new message; one leases and completes it, then the UPDATE of the other reopens it. */
  lemma StaleLeaseReopens(m: Message, now: Time)
    requires m == Enqueued(m.id, m.tenantId, m.jobType, m.batch, m.idempotencyKey, 2, now)
    ensures Candidate(m, now)
    ensures Run(m, [Lease(1, now, now + 5), Complete(1, now + 1)]).status.Completed?
    ensures Run(m, [Lease(1, now, now + 5), Complete(1, now + 1), Lease(2, now, now + 5)]).status.Processing?
  {
    var e1, e2, e3 := Lease(1, now, now + 5), Complete(1, now + 1), Lease(2, now, now + 5);
    assert Run(m, []) == m;
    hide Run;
    RunSnoc(m, [], e1);
    RunSnoc(m, [e1], e2);
    RunSnoc(m, [e1, e2], e3);
    assert [] + [e1] == [e1] && [e1] + [e2] == [e1, e2] && [e1, e2] + [e3] == [e1, e2, e3];
  }

  /** A new message fails on its only attempt, two retry calls select it, and the first of their UPDATEs lands. */
  function RetriedOnce(now: Time): seq<Event> {
    [Lease(1, now, now + 5), Fail(1, now + 1, now + 1, 0), Retry(now + 2)]
  }

  lemma RetriedOnceRuns(m: Message, now: Time)
    requires m == Enqueued(m.id, m.tenantId, m.jobType, m.batch, m.idempotencyKey, 1, now)
    ensures Run(m, RetriedOnce(now)[..2]).status.Failed?
    ensures var r := Run(m, RetriedOnce(now));
            && r.status.Pending? && r.leaseToken.None? && r.leasedUntil.None? && r.availableAt == now + 2
            && r.attemptCount == 0 && r.maxAttempts == 1
  {
    var e1, e2, e3 := Lease(1, now, now + 5), Fail(1, now + 1, now + 1, 0), Retry(now + 2);
    assert Run(m, []) == m;
    hide Run;
    RunSnoc(m, [], e1);
    RunSnoc(m, [e1], e2);
    RunSnoc(m, [e1, e2], e3);
    assert [] + [e1] == [e1] && [e1] + [e2] == [e1, e2] && [e1, e2] + [e3] == RetriedOnce(now);
    assert RetriedOnce(now)[..2] == [e1, e2];
  }

  /** A worker leases the message until 100, then the second retry UPDATE lands, and another worker leases it at 30. */
  lemma StaleRetryTakesLease(m: Message, now: Time)
    requires m == Enqueued(m.id, m.tenantId, m.jobType, m.batch, m.idempotencyKey, 1, now)
    ensures var granted := Run(m, RetriedOnce(now) + [Lease(2, now + 3, now + 100)]);
            var taken := Run(m, RetriedOnce(now) + [Lease(2, now + 3, now + 100)] + [Retry(now + 2)]
                                + [Lease(3, now + 30, now + 90)]);
            && granted.leaseToken == Some(2) && granted.leasedUntil == Some(now + 100)
            && taken.leaseToken == Some(3)
  {
    var before := RetriedOnce(now);
    RetriedOnceRuns(m, now);
    hide RetriedOnce;
    RunSnoc(m, before, Lease(2, now + 3, now + 100));
    RunSnoc(m, before + [Lease(2, now + 3, now + 100)], Retry(now + 2));
    RunSnoc(m, before + [Lease(2, now + 3, now + 100)] + [Retry(now + 2)], Lease(3, now + 30, now + 90));
  }

  /** Or the worker completes it, and the second retry UPDATE puts the completed message back among the candidates. */
  lemma StaleRetryReopens(m: Message, now: Time)
    requires m == Enqueued(m.id, m.tenantId, m.jobType, m.batch, m.idempotencyKey, 1, now)
    ensures var done := Run(m, RetriedOnce(now) + [Lease(2, now + 3, now + 100)] + [Complete(2, now + 15)]);
            var reopened := Run(m, RetriedOnce(now) + [Lease(2, now + 3, now + 100)] + [Complete(2, now + 15)]
                                   + [Retry(now + 2)]);
            done.status.Completed? && Candidate(reopened, now + 20)
  {
    var before := RetriedOnce(now);
    RetriedOnceRuns(m, now);
    hide RetriedOnce;
    RunSnoc(m, before, Lease(2, now + 3, now + 100));
    RunSnoc(m, before + [Lease(2, now + 3, now + 100)], Complete(2, now + 15));
    RunSnoc(m, before + [Lease(2, now + 3, now + 100)] + [Complete(2, now + 15)], Retry(now + 2));
  }

  ghost predicate LeasableWithoutRetry(m: Message) {
    exists es: seq<Event>, now: Time ::
      Atomic(m, es) && (forall e :: e in es ==> !e.Retry?) && Candidate(Run(m, es), now)
  }

  /** No run without retry revives a message that has used up its attempts. */
  lemma {:induction false} SpentStaysSpent(m: Message, es: seq<Event>, now: Time)
    requires Consistent(m) && Atomic(m, es) && (forall e :: e in es ==> !e.Retry?)
    requires !m.status.Pending? && !(m.status.Processing? && m.attemptCount < m.maxAttempts)
    ensures !Candidate(Run(m, es), now)
    decreases |es|
  {
    if es != [] {
      assert es[0] in es;
      ConsistentAlways(m, [es[0]]);
      assert Run(m, [es[0]]) == Step(m, es[0]);
      SpentStaysSpent(Step(m, es[0]), es[1..], now);
    }
  }

  /** Short of a retry, a message can be leased at some later time iff it is pending or still has attempts left. */
  lemma LeasableIff(m: Message)
    requires Consistent(m)
    ensures LeasableWithoutRetry(m) <==> m.status.Pending? || (m.status.Processing? && m.attemptCount < m.maxAttempts)
  {
    if m.status.Pending? || (m.status.Processing? && m.attemptCount < m.maxAttempts) {
      var now :=
        if m.leasedUntil.Some? && m.availableAt < m.leasedUntil.value then m.leasedUntil.value else m.availableAt;
      assert Run(m, []) == m && Candidate(Run(m, []), now);
    } else {
      forall es: seq<Event>, now: Time | Atomic(m, es) && forall e :: e in es ==> !e.Retry?
        ensures !Candidate(Run(m, es), now)
      {
        SpentStaysSpent(m, es, now);
      }
    }
  }

  /**
   * A message on its last attempt stays as it is, even after its lease ran out, iff its worker never reports back and
   * no retry UPDATE lands; if retry calls are single steps, none does.
   */
  lemma LastAttemptNeverExpires(m: Message, es: seq<Event>)
    requires Consistent(m) && m.status.Processing? && m.attemptCount == m.maxAttempts
    ensures StandsStill(m, es) <==> forall e :: e in es ==> !Finishes(e, m.leaseToken.value) && !e.Retry?
    ensures RetriesAtomic(m, es) && (forall e :: e in es ==> !Finishes(e, m.leaseToken.value)) ==> StandsStill(m, es)
  {
    StandsStillIff(m, es);
    if RetriesAtomic(m, es) && forall e :: e in es ==> !Finishes(e, m.leaseToken.value) {
      NoRetryReaches(m, es);
    }
  }
}

/** The `job_queue_messages` table and the functions that work on it. */
module JobQueue {
  import opened Prelude
  import opened StableSort
  import opened Tables
  import opened JobMessage

  const RETRY_LIST_LIMIT := 1000

  datatype EnqueueError = DuplicateIdempotencyKey

  datatype RetryResult = RetryResult(matched: nat, retried: nat, skippedNotFailed: nat)

  /** Which failed import messages to retry. */
  datatype RetryQuery = RetryQuery(
    tenantId: nat, jobType: JobType, batchId: nat, source: Option<nat>, rowNumbers: Option<set<int>>)

  function ByCreation(): (Message, Message) -> bool {
    (a: Message, b: Message) => a.createdAt <= b.createdAt
  }

  function ByCreationDescending(): (Message, Message) -> bool {
    (a: Message, b: Message) => b.createdAt <= a.createdAt
  }

  ghost predicate DistinctIds(rows: seq<Message>) {
    forall i, j :: 0 <= i < j < |rows| ==> rows[i].id != rows[j].id
  }

  predicate SameKey(a: Message, tenantId: nat, jobType: JobType, idempotencyKey: nat) {
    a.tenantId == tenantId && a.jobType == jobType && a.idempotencyKey == idempotencyKey
  }

  /** `UPDATE … WHERE id = ?`, the rest of the guard being part of the step. */
  function UpdateById(rows: seq<Message>, id: Id, e: Event): (r: seq<Message>)
    ensures |r| == |rows|
    ensures forall i :: 0 <= i < |rows| ==> r[i] == if rows[i].id == id then Step(rows[i], e) else rows[i]
  {
    seq(|rows|, i requires 0 <= i < |rows| => if rows[i].id == id then Step(rows[i], e) else rows[i])
  }

  /** The candidate SELECT of a lease call. */
  function Candidates(rows: seq<Message>, now: Time, limit: nat): (r: seq<Message>)
    ensures |r| <= limit
    ensures forall m :: m in r ==> m in rows && Candidate(m, now)
  {
    Limit(OrderBy(Where(rows, (m: Message) => Candidate(m, now)), ByCreation()), limit)
  }

  ghost function Ids(rows: seq<Message>): set<Id> {
    set m | m in rows :: m.id
  }

  /** The messages a retry call looks at: the newest ones of the tenant and type whose payload names the batch. */
  predicate Matches(m: Message, q: RetryQuery) {
    && m.batch.Some?
    && (q.source.None? || m.batch.value.source == q.source.value)
    && m.batch.value.batchId == q.batchId
    && (q.rowNumbers.None? ||
        (m.batch.value.rowNumber.Some? && m.batch.value.rowNumber.value in q.rowNumbers.value))
  }

  function Listed(rows: seq<Message>, q: RetryQuery): seq<Message> {
    Limit(OrderBy(Where(rows, (m: Message) => m.tenantId == q.tenantId && m.jobType == q.jobType),
                  ByCreationDescending()), RETRY_LIST_LIMIT)
  }

  lemma ListedMembers(rows: seq<Message>, q: RetryQuery)
    ensures forall m :: m in Listed(rows, q) ==> m in rows && m.tenantId == q.tenantId && m.jobType == q.jobType
  {
    var w := Where(rows, (m: Message) => m.tenantId == q.tenantId && m.jobType == q.jobType);
    var ordered := OrderBy(w, ByCreationDescending());
    hide Where, OrderBy;
    forall m | m in Listed(rows, q) ensures m in w {
      var k :| 0 <= k < |Listed(rows, q)| && Listed(rows, q)[k] == m;
      assert Listed(rows, q) <= ordered && ordered[k] == m;
    }
  }

  ghost predicate ConsistentTable(rows: seq<Message>) {
    DistinctIds(rows) && forall i :: 0 <= i < |rows| ==> Consistent(rows[i])
  }

  /** Every message whose id is listed has taken one step, and no other message has changed. */
  ghost predicate Stepped(before: seq<Message>, after: seq<Message>, ids: set<Id>, e: Event) {
    && |after| == |before|
    && forall i :: 0 <= i < |before| ==> after[i] == if before[i].id in ids then Step(before[i], e) else before[i]
  }

  // Interleaved statements of any number of workers.

  datatype Update = Update(id: Id, event: Event)

  function RunTable(rows: seq<Message>, us: seq<Update>): seq<Message>
    decreases |us|
  {
    if us == [] then rows else RunTable(UpdateById(rows, us[0].id, us[0].event), us[1..])
  }

  /** The statements aimed at one message. */
  function EventsFor(us: seq<Update>, id: Id): seq<Event> {
    if us == [] then [] else (if us[0].id == id then [us[0].event] else []) + EventsFor(us[1..], id)
  }

  /** However the workers' UPDATEs interleave, each message undergoes exactly the run of those aimed at it. */
  lemma {:induction false} EachMessageRunsAlone(rows: seq<Message>, us: seq<Update>)
    ensures |RunTable(rows, us)| == |rows|
    ensures forall i :: 0 <= i < |rows| ==> RunTable(rows, us)[i] == Run(rows[i], EventsFor(us, rows[i].id))
    decreases |us|
  {
    if us != [] {
      var u := us[0];
      var next := UpdateById(rows, u.id, u.event);
      EachMessageRunsAlone(next, us[1..]);
      forall i | 0 <= i < |rows| ensures RunTable(rows, us)[i] == Run(rows[i], EventsFor(us, rows[i].id)) {
        var rest := EventsFor(us[1..], rows[i].id);
        assert ([u.event] + rest)[1..] == rest && [] + rest == rest;
        assert next[i].id == rows[i].id;
      }
    }
  }

  lemma NothingStepped(rows: seq<Message>, e: Event)
    ensures Stepped(rows, rows, {}, e)
  {
  }

  lemma StepOneMore(before: seq<Message>, rows: seq<Message>, ids: set<Id>, id: Id, e: Event)
    requires Stepped(before, rows, ids, e) && id !in ids
    ensures Stepped(before, UpdateById(rows, id, e), ids + {id}, e)
  {
  }

  lemma SameIdSameRow(rows: seq<Message>, a: Message, b: Message)
    requires DistinctIds(rows) && a in rows && b in rows && a.id == b.id
    ensures a == b
  {
  }

  lemma SteppedValid(before: seq<Message>, after: seq<Message>, ids: set<Id>, e: Event)
    requires ConsistentTable(before) && Stepped(before, after, ids, e)
    requires forall i :: 0 <= i < |before| && before[i].id in ids ==> Current(before[i], e)
    ensures ConsistentTable(after)
  {
  }

  lemma CandidatesDistinct(rows: seq<Message>, now: Time, limit: nat)
    requires DistinctIds(rows)
    ensures var c := Candidates(rows, now, limit);
            && (forall i, j :: 0 <= i < j < |c| ==> c[i].id != c[j].id)
            && (forall m :: m in rows && m.id in Ids(c) ==> m in c)
  {
    var p := (m: Message) => Candidate(m, now);
    assert NoRepeats(rows);
    WhereNoRepeats(rows, p);
    OrderByNoRepeats(Where(rows, p), ByCreation());
    var c := Candidates(rows, now, limit);
    hide Candidates, Where;
    forall i, j | 0 <= i < j < |c| ensures c[i].id != c[j].id {
      assert c[i] != c[j];
      assert c[i] in rows && c[j] in rows;
    }
    forall m | m in rows && m.id in Ids(c) ensures m in c {
      var k :| k in c && k.id == m.id;
      SameIdSameRow(rows, m, k);
    }
  }

  /** After the updates, the new token marks exactly the candidates. */
  lemma TokenMarksCandidates(before: seq<Message>, after: seq<Message>, c: seq<Message>, e: Event)
    requires e.Lease? && Stepped(before, after, Ids(c), e)
    requires forall m :: m in before && m.id in Ids(c) ==> Candidate(m, e.now)
    requires forall m :: m in c ==> m in before
    requires forall m :: m in before ==> m.leaseToken != Some(e.token)
    ensures forall i :: 0 <= i < |after| ==> (after[i].leaseToken == Some(e.token) <==> after[i].id in Ids(c))
    ensures forall id :: id in Ids(c) ==> exists i :: 0 <= i < |after| && after[i].id == id
  {
    forall i | 0 <= i < |after| ensures after[i].leaseToken == Some(e.token) <==> after[i].id in Ids(c) {
      assert before[i] in before;
    }
    forall id | id in Ids(c) ensures exists i :: 0 <= i < |after| && after[i].id == id {
      var m :| m in c && m.id == id;
      var i :| 0 <= i < |before| && before[i] == m;
      assert after[i].id == id;
    }
  }

  /** A lease call fills its limit if it can, and never passes over an older candidate for a younger one. */
  lemma OldestFirst(rows: seq<Message>, now: Time, limit: nat, m: Message)
    requires m in rows && Candidate(m, now) && m !in Candidates(rows, now, limit)
    ensures |Candidates(rows, now, limit)| == limit
    ensures forall c :: c in Candidates(rows, now, limit) ==> c.createdAt <= m.createdAt
  {
    var w := Where(rows, (r: Message) => Candidate(r, now));
    var ordered := OrderBy(w, ByCreation());
    SortSorts(w, ByCreation());
    assert m in ordered;
    var k :| 0 <= k < |ordered| && ordered[k] == m;
    var c := Candidates(rows, now, limit);
    assert c == Limit(ordered, limit) && c <= ordered;
    PrefixMember(c, ordered, k);
    forall i | 0 <= i < |c| ensures c[i].createdAt <= m.createdAt {
      assert ByCreation()(ordered[i], ordered[k]);
    }
  }

  /** The final SELECT of a lease call. */
  function HeldBy(rows: seq<Message>, token: Token): seq<Message> {
    OrderBy(Where(rows, (m: Message) => m.leaseToken == Some(token)), ByCreation())
  }

  lemma HeldExactly(rows: seq<Message>, token: Token, ids: set<Id>)
    requires forall i :: 0 <= i < |rows| ==> (rows[i].leaseToken == Some(token) <==> rows[i].id in ids)
    requires forall id :: id in ids ==> exists i :: 0 <= i < |rows| && rows[i].id == id
    ensures var held := HeldBy(rows, token);
            && Ids(held) == ids && (forall i, j :: 0 <= i < j < |held| ==> held[i].createdAt <= held[j].createdAt)
            && forall m :: m in held <==> m in rows && m.leaseToken == Some(token)
  {
    var w := Where(rows, (m: Message) => m.leaseToken == Some(token));
    SortSorts(w, ByCreation());
    var held := HeldBy(rows, token);
    assert forall m :: m in held <==> m in w;
    forall i, j | 0 <= i < j < |held| ensures held[i].createdAt <= held[j].createdAt {
      assert ByCreation()(held[i], held[j]);
    }
    hide Where, Sorted, HeldBy;
    forall id | id in ids ensures id in Ids(held) {
      var i :| 0 <= i < |rows| && rows[i].id == id;
      assert rows[i] in held;
    }
  }

  // Which messages a call picks, said without the queries.

  /** Leasable messages, at most `limit`, and none that is left out is older than one of them. */
  ghost predicate OldestLeasable(chosen: seq<Message>, rows: seq<Message>, now: Time, limit: nat) {
    && NoRepeats(chosen) && |chosen| <= limit && (forall m :: m in chosen ==> m in rows && Leasable(m, now))
    && forall m :: m in rows && Leasable(m, now) && m !in chosen ==>
         |chosen| == limit && forall c :: c in chosen ==> c.createdAt <= m.createdAt
  }

  /** The messages of the tenant and type, at most 1000, and none that is left out is younger than one of them. */
  ghost predicate NewestOfType(listed: seq<Message>, rows: seq<Message>, q: RetryQuery) {
    && NoRepeats(listed) && |listed| <= 1000
    && (forall m :: m in listed ==> m in rows && m.tenantId == q.tenantId && m.jobType == q.jobType)
    && forall m :: m in rows && m.tenantId == q.tenantId && m.jobType == q.jobType && m !in listed ==>
         |listed| == 1000 && forall l :: l in listed ==> m.createdAt <= l.createdAt
  }

  /** The payload names the batch, and the source and one of the rows if these are asked for. */
  ghost predicate Named(m: Message, q: RetryQuery) {
    && m.batch != None && m.batch.value.batchId == q.batchId
    && (q.source != None ==> q.source == Some(m.batch.value.source))
    && (q.rowNumbers != None ==> m.batch.value.rowNumber != None && m.batch.value.rowNumber.value in q.rowNumbers.value)
  }

  /** Exactly the oldest leasable messages have taken the lease UPDATE. */
  ghost predicate OldestAreLeased(before: seq<Message>, after: seq<Message>, token: Token, now: Time, until: Time,
                                  limit: nat)
  {
    exists chosen ::
      && OldestLeasable(chosen, before, now, limit) && |after| == |before|
      && forall i :: 0 <= i < |after| ==>
           if before[i] in chosen then LeaseWrites(before[i], after[i], token, now, until) else after[i] == before[i]
  }

  /** Exactly the named messages among the newest that have failed have taken the retry UPDATE, and are counted. */
  ghost predicate NamedAreRetried(before: seq<Message>, after: seq<Message>, q: RetryQuery, now: Time, r: RetryResult) {
    exists listed ::
      && NewestOfType(listed, before, q) && |after| == |before|
      && r.matched == |set m | m in listed && Named(m, q) :: m.id|
      && r.retried == |set m | m in listed && Named(m, q) && m.status == Failed :: m.id|
      && forall i :: 0 <= i < |after| ==>
           if before[i] in listed && Named(before[i], q) && before[i].status == Failed
           then RetryWrites(before[i], after[i], now) else after[i] == before[i]
  }

  lemma CandidatesAreOldest(rows: seq<Message>, now: Time, limit: nat)
    requires DistinctIds(rows)
    ensures OldestLeasable(Candidates(rows, now, limit), rows, now, limit)
  {
    var c := Candidates(rows, now, limit);
    CandidatesDistinct(rows, now, limit);
    forall m ensures Candidate(m, now) <==> Leasable(m, now) {
      StepWrites(m, Retry(now));
    }
    forall m | m in rows && Candidate(m, now) && m !in c
      ensures |c| == limit && forall k :: k in c ==> k.createdAt <= m.createdAt
    {
      OldestFirst(rows, now, limit, m);
    }
    hide Candidates, Candidate, Leasable;
  }

  lemma LeasedChosen(before: seq<Message>, after: seq<Message>, c: seq<Message>, token: Token, now: Time, until: Time,
                     limit: nat)
    requires DistinctIds(before) && c == Candidates(before, now, limit)
    requires Stepped(before, after, Ids(c), Lease(token, now, until))
    ensures OldestAreLeased(before, after, token, now, until, limit)
  {
    CandidatesAreOldest(before, now, limit);
    CandidatesDistinct(before, now, limit);
    forall i | 0 <= i < |after|
      ensures if before[i] in c then LeaseWrites(before[i], after[i], token, now, until) else after[i] == before[i]
    {
      assert before[i] in before;
      StepWrites(before[i], Lease(token, now, until));
    }
  }

  /** Where a lease call stands after its UPDATEs. */
  lemma LeaseEnds(before: seq<Message>, after: seq<Message>, token: Token, now: Time, until: Time, limit: nat)
    requires ConsistentTable(before) && forall m :: m in before ==> m.leaseToken != Some(token)
    requires Stepped(before, after, Ids(Candidates(before, now, limit)), Lease(token, now, until))
    ensures ConsistentTable(after) && OldestAreLeased(before, after, token, now, until, limit)
    ensures var held := HeldBy(after, token);
            && Ids(held) == Ids(Candidates(before, now, limit))
            && (forall i, j :: 0 <= i < j < |held| ==> held[i].createdAt <= held[j].createdAt)
            && forall m :: m in held <==> m in after && m.leaseToken == Some(token)
  {
    var c, e := Candidates(before, now, limit), Lease(token, now, until);
    CandidatesDistinct(before, now, limit);
    LeasedChosen(before, after, c, token, now, until, limit);
    hide Candidates, Candidate, OldestAreLeased, HeldBy;
    forall i | 0 <= i < |before| && before[i].id in Ids(c) ensures Current(before[i], e) {
      assert before[i] in before && before[i] in c;
    }
    SteppedValid(before, after, Ids(c), e);
    TokenMarksCandidates(before, after, c, e);
    hide Stepped, ConsistentTable;
    HeldExactly(after, token, Ids(c));
  }

  lemma ListedAreNewest(rows: seq<Message>, q: RetryQuery)
    requires DistinctIds(rows)
    ensures NewestOfType(Listed(rows, q), rows, q)
  {
    var w := Where(rows, (m: Message) => m.tenantId == q.tenantId && m.jobType == q.jobType);
    var ordered := OrderBy(w, ByCreationDescending());
    SortSorts(w, ByCreationDescending());
    ListedDistinct(rows, q);
    ListedMembers(rows, q);
    var c := Listed(rows, q);
    assert c == Limit(ordered, 1000) && c <= ordered;
    forall m | m in w && m !in c ensures |c| == 1000 && forall l :: l in c ==> m.createdAt <= l.createdAt {
      var k :| 0 <= k < |ordered| && ordered[k] == m;
      PrefixMember(c, ordered, k);
      forall i | 0 <= i < |c| ensures m.createdAt <= c[i].createdAt {
        assert ByCreationDescending()(ordered[i], ordered[k]);
      }
    }
  }

  lemma RetriedListed(before: seq<Message>, after: seq<Message>, q: RetryQuery, now: Time, r: RetryResult)
    requires DistinctIds(before) && Stepped(before, after, RetryIds(Listed(before, q), q), Retry(now))
    requires r.matched == |NamedIds(Listed(before, q), q)| && r.retried == |RetryIds(Listed(before, q), q)|
    ensures NamedAreRetried(before, after, q, now, r)
  {
    var listed := Listed(before, q);
    ListedAreNewest(before, q);
    ListedMembers(before, q);
    forall m ensures Named(m, q) <==> Matches(m, q) { }
    assert NamedIds(listed, q) == set m | m in listed && Named(m, q) :: m.id;
    assert RetryIds(listed, q) == set m | m in listed && Named(m, q) && m.status == Failed :: m.id;
    hide Named, Matches, Listed;
    forall i | 0 <= i < |after|
      ensures if before[i] in listed && Named(before[i], q) && before[i].status == Failed
              then RetryWrites(before[i], after[i], now) else after[i] == before[i]
    {
      assert before[i] in before;
      if before[i].id in RetryIds(listed, q) {
        var m :| m in listed && Matches(m, q) && m.status.Failed? && m.id == before[i].id;
        SameIdSameRow(before, m, before[i]);
      }
      StepWrites(before[i], Retry(now));
    }
  }

  class Queue {
    /** In order of insertion. */
    var rows: seq<Message>

    ghost predicate Valid()
      reads this
    {
      ConsistentTable(rows)
    }

    constructor ()
      ensures Valid() && rows == []
    {
      rows := [];
    }

    /** `id` is a fresh random identifier. The table's constraints reject a repeated key and a budget below one. */
    method Enqueue(id: Id, tenantId: nat, jobType: JobType, batch: Option<Batch>, idempotencyKey: nat,
            maxAttempts: nat, now: Time)
      returns (r: Result<Message, EnqueueError>)
      requires Valid() && maxAttempts >= 1 && id !in Ids(rows)
      modifies this
      ensures Valid()
      ensures r.Err? <==> exists m :: m in old(rows) && m.tenantId == tenantId && m.jobType == jobType
                                      && m.idempotencyKey == idempotencyKey
      ensures r.Err? ==> r.error == DuplicateIdempotencyKey && rows == old(rows)
      ensures r.Ok? ==> rows == old(rows) + [r.value] && Leasable(r.value, now)
      ensures r.Ok? ==>
                && r.value.id == id && r.value.tenantId == tenantId && r.value.jobType == jobType
                && r.value.batch == batch && r.value.idempotencyKey == idempotencyKey
                && r.value.attemptCount == 0 && r.value.maxAttempts == maxAttempts && r.value.availableAt == now
                && r.value.leasedUntil == None && r.value.leaseToken == None && r.value.lastError == None
                && r.value.completedAt == None && r.value.failedAt == None
                && r.value.status == JobMessage.Status.Pending && r.value.createdAt == now && r.value.updatedAt == now
    {
      if exists m :: m in rows && SameKey(m, tenantId, jobType, idempotencyKey) {
        return Err(DuplicateIdempotencyKey);
      }
      var m := Enqueued(id, tenantId, jobType, batch, idempotencyKey, maxAttempts, now);
      rows := rows + [m];
      r := Ok(m);
    }

    /**
     * SELECT the candidates, UPDATE each, SELECT what carries the new token. `token` is a fresh random one.
     * Exactly the selected messages take the lease step, and exactly they are returned, oldest first.
     */
    method LeaseMessages(token: Token, now: Time, leaseSeconds: nat, limit: nat) returns (leased: seq<Message>)
      requires Valid() && forall m :: m in rows ==> m.leaseToken != Some(token)
      modifies this
      ensures Valid()
      ensures Stepped(old(rows), rows, Ids(Candidates(old(rows), now, limit)),
                      Lease(token, now, now + leaseSeconds * 1000))
      ensures Ids(leased) == Ids(Candidates(old(rows), now, limit))
      ensures forall m :: m in leased <==> m in rows && m.leaseToken == Some(token)
      ensures forall i, j :: 0 <= i < j < |leased| ==> leased[i].createdAt <= leased[j].createdAt
      ensures OldestAreLeased(old(rows), rows, token, now, now + leaseSeconds * 1000, limit)
    {
      var e := Lease(token, now, now + leaseSeconds * 1000);
      var candidates := Candidates(rows, now, limit);
      ghost var before := rows;
      CandidatesDistinct(rows, now, limit);
      NothingStepped(rows, e);
      hide Candidates, Candidate, OldestAreLeased, ConsistentTable, HeldBy, Stepped, UpdateById;
      for k := 0 to |candidates|
        invariant Stepped(before, rows, Ids(candidates[..k]), e)
      {
        StepOneMore(before, rows, Ids(candidates[..k]), candidates[k].id, e);
        assert Ids(candidates[..k + 1]) == Ids(candidates[..k]) + {candidates[k].id};
        rows := UpdateById(rows, candidates[k].id, e);
      }
      assert candidates[..|candidates|] == candidates;
      LeaseEnds(before, rows, token, now, now + leaseSeconds * 1000, limit);
      leased := HeldBy(rows, token);
    }

    method CompleteMessage(id: Id, token: Token, now: Time)
      requires Valid()
      modifies this
      ensures Valid() && Stepped(old(rows), rows, {id}, Complete(token, now))
      ensures |rows| == |old(rows)| && forall i :: 0 <= i < |rows| ==>
                var before := old(rows)[i];
                if before.id == id && before.leaseToken == Some(token) then CompleteWrites(before, rows[i], now)
                else rows[i] == before
    {
      var e := Complete(token, now);
      SteppedValid(rows, UpdateById(rows, id, e), {id}, e);
      rows := UpdateById(rows, id, e);
    }

    /** Returns the status it finds afterwards, unless the message is missing or still leased. */
    method FailMessage(id: Id, token: Token, now: Time, error: nat, retryDelaySeconds: nat)
      returns (status: Option<Status>)
      requires Valid()
      modifies this
      ensures Valid() && Stepped(old(rows), rows, {id}, Fail(token, now, now + retryDelaySeconds * 1000, error))
      ensures |rows| == |old(rows)| && forall i :: 0 <= i < |rows| ==>
                var before := old(rows)[i];
                if before.id == id && before.leaseToken == Some(token)
                then FailWrites(before, rows[i], now, now + retryDelaySeconds * 1000, error)
                else rows[i] == before
      ensures forall m :: m in rows && m.id == id ==> status == if m.leaseToken.Some? then None else Some(m.status)
      ensures id !in Ids(rows) ==> status == None
    {
      var e := Fail(token, now, now + retryDelaySeconds * 1000, error);
      SteppedValid(rows, UpdateById(rows, id, e), {id}, e);
      rows := UpdateById(rows, id, e);
      var found := Where(rows, (m: Message) => m.id == id);
      status := if found == [] || found[0].leaseToken.Some? then None else Some(found[0].status);
      assert found != [] ==> found[0] in found;
      forall m | m in rows && m.id == id ensures found != [] && m == found[0] {
        assert m in found;
        SameIdSameRow(rows, m, found[0]);
      }
    }

    /** Exactly the listed, matching, failed messages take the retry step. */
    method RetryFailedMessages(q: RetryQuery, now: Time) returns (r: RetryResult)
      requires Valid()
      modifies this
      ensures Valid()
      ensures Stepped(old(rows), rows, RetryIds(Listed(old(rows), q), q), Retry(now))
      ensures r.retried == |RetryIds(Listed(old(rows), q), q)| && r.matched == r.retried + r.skippedNotFailed
      ensures NamedAreRetried(old(rows), rows, q, now, r)
    {
      var e := Retry(now);
      var listed := Listed(rows, q);
      var matched, retried, skippedNotFailed := 0, 0, 0;
      ghost var before := rows;
      ListedDistinct(rows, q);
      NoneRetried(before, listed, q, now);
      hide Listed, NamedAreRetried, Matches, ConsistentTable, UpdateById, DistinctIds, RetriedUpTo, Stepped, RetryIds,
          NamedIds;
      for k := 0 to |listed|
        invariant RetriedUpTo(before, rows, listed, k, q, now, RetryResult(matched, retried, skippedNotFailed))
      {
        hide *;
        var row := listed[k];
        RetryOneMore(before, rows, listed, k, q, now, RetryResult(matched, retried, skippedNotFailed));
        if Matches(row, q) {
          matched := matched + 1;
          if row.status != Failed {
            skippedNotFailed := skippedNotFailed + 1;
          } else {
            rows := UpdateById(rows, row.id, e);
            retried := retried + 1;
          }
        }
      }
      r := RetryResult(matched, retried, skippedNotFailed);
      RetryEnds(before, rows, q, now, r);
    }
  }

  /** The messages in `seen` have been looked at. */
  ghost predicate RetriedOf(before: seq<Message>, after: seq<Message>, seen: seq<Message>, q: RetryQuery, now: Time,
                            r: RetryResult)
  {
    && Stepped(before, after, RetryIds(seen, q), Retry(now))
    && r.retried == |RetryIds(seen, q)| && r.matched == |NamedIds(seen, q)| == r.retried + r.skippedNotFailed
  }

  ghost predicate RetriedUpTo(before: seq<Message>, after: seq<Message>, listed: seq<Message>, k: nat, q: RetryQuery,
                              now: Time, r: RetryResult)
  {
    k <= |listed| && RetriedOf(before, after, listed[..k], q, now, r)
  }

  ghost function NamedIds(listed: seq<Message>, q: RetryQuery): set<Id> {
    set m | m in listed && Matches(m, q) :: m.id
  }

  ghost function RetryIds(listed: seq<Message>, q: RetryQuery): set<Id> {
    set m | m in listed && Matches(m, q) && m.status.Failed? :: m.id
  }

  lemma ListedDistinct(rows: seq<Message>, q: RetryQuery)
    requires DistinctIds(rows)
    ensures DistinctIds(Listed(rows, q))
  {
    var p := (m: Message) => m.tenantId == q.tenantId && m.jobType == q.jobType;
    assert NoRepeats(rows);
    WhereNoRepeats(rows, p);
    OrderByNoRepeats(Where(rows, p), ByCreationDescending());
    var c := Listed(rows, q);
    ListedMembers(rows, q);
    hide Listed, Where;
    forall i, j | 0 <= i < j < |c| ensures c[i].id != c[j].id {
      assert c[i] != c[j] && c[i] in rows && c[j] in rows;
    }
  }

  lemma RetryIdsFailed(rows: seq<Message>, q: RetryQuery)
    requires DistinctIds(rows)
    ensures forall i :: 0 <= i < |rows| && rows[i].id in RetryIds(Listed(rows, q), q) ==> rows[i].status.Failed?
  {
    ListedMembers(rows, q);
    hide Listed;
    forall i | 0 <= i < |rows| && rows[i].id in RetryIds(Listed(rows, q), q) ensures rows[i].status.Failed? {
      var m :| m in Listed(rows, q) && Matches(m, q) && m.status.Failed? && m.id == rows[i].id;
      SameIdSameRow(rows, m, rows[i]);
    }
  }

  lemma IdsAdd(done: seq<Message>, m: Message, q: RetryQuery)
    requires forall x :: x in done ==> x.id != m.id
    ensures m.id !in RetryIds(done, q) && m.id !in NamedIds(done, q)
    ensures var hit := Matches(m, q) && m.status.Failed?;
            && RetryIds(done + [m], q) == (if hit then RetryIds(done, q) + {m.id} else RetryIds(done, q))
            && |RetryIds(done + [m], q)| == |RetryIds(done, q)| + if hit then 1 else 0
    ensures var hit := Matches(m, q);
            && NamedIds(done + [m], q) == (if hit then NamedIds(done, q) + {m.id} else NamedIds(done, q))
            && |NamedIds(done + [m], q)| == |NamedIds(done, q)| + if hit then 1 else 0
  {
    hide Matches;
    assert forall x :: x in done + [m] <==> x in done || x == m;
  }

  lemma EarlierDiffer(listed: seq<Message>, k: nat)
    requires k < |listed| && DistinctIds(listed)
    ensures listed[..k + 1] == listed[..k] + [listed[k]]
    ensures forall x :: x in listed[..k] ==> x.id != listed[k].id
  {
  }

  lemma NoneRetried(rows: seq<Message>, listed: seq<Message>, q: RetryQuery, now: Time)
    ensures RetriedUpTo(rows, rows, listed, 0, q, now, RetryResult(0, 0, 0))
  {
    assert RetryIds(listed[..0], q) == {} == NamedIds(listed[..0], q);
  }

  function Counting(m: Message, q: RetryQuery, r: RetryResult): RetryResult {
    if !Matches(m, q) then r
    else if m.status.Failed? then RetryResult(r.matched + 1, r.retried + 1, r.skippedNotFailed)
    else RetryResult(r.matched + 1, r.retried, r.skippedNotFailed + 1)
  }

  lemma LookAtOne(before: seq<Message>, rows: seq<Message>, seen: seq<Message>, m: Message, q: RetryQuery, now: Time,
                  r: RetryResult)
    requires (forall x :: x in seen ==> x.id != m.id) && RetriedOf(before, rows, seen, q, now, r)
    ensures var next := if Matches(m, q) && m.status.Failed? then UpdateById(rows, m.id, Retry(now)) else rows;
            RetriedOf(before, next, seen + [m], q, now, Counting(m, q, r))
  {
    IdsAdd(seen, m, q);
    hide Matches, Stepped, RetryIds, NamedIds, UpdateById;
    if Matches(m, q) && m.status.Failed? {
      StepOneMore(before, rows, RetryIds(seen, q), m.id, Retry(now));
    }
  }

  /** What looking at one more message does, to the table and to the counters. */
  lemma RetryOneMore(before: seq<Message>, rows: seq<Message>, listed: seq<Message>, k: nat, q: RetryQuery, now: Time,
                     r: RetryResult)
    requires k < |listed| && RetriedUpTo(before, rows, listed, k, q, now, r) && DistinctIds(listed)
    ensures var m := listed[k];
            && (!Matches(m, q) ==> RetriedUpTo(before, rows, listed, k + 1, q, now, r))
            && (Matches(m, q) && m.status != Failed ==>
                  RetriedUpTo(before, rows, listed, k + 1, q, now,
                              RetryResult(r.matched + 1, r.retried, r.skippedNotFailed + 1)))
            && (Matches(m, q) && m.status == Failed ==>
                  RetriedUpTo(before, UpdateById(rows, m.id, Retry(now)), listed, k + 1, q, now,
                              RetryResult(r.matched + 1, r.retried + 1, r.skippedNotFailed)))
  {
    EarlierDiffer(listed, k);
    LookAtOne(before, rows, listed[..k], listed[k], q, now, r);
    hide Matches, RetriedOf, UpdateById;
  }

  /** Where a retry call stands after its UPDATEs. */
  lemma RetryEnds(before: seq<Message>, after: seq<Message>, q: RetryQuery, now: Time, r: RetryResult)
    requires ConsistentTable(before)
    requires RetriedUpTo(before, after, Listed(before, q), |Listed(before, q)|, q, now, r)
    ensures Stepped(before, after, RetryIds(Listed(before, q), q), Retry(now))
    ensures r.retried == |RetryIds(Listed(before, q), q)| && r.matched == r.retried + r.skippedNotFailed
    ensures ConsistentTable(after) && NamedAreRetried(before, after, q, now, r)
  {
    WholeList(Listed(before, q));
    RetryIdsFailed(before, q);
    hide Listed, RetryIds, NamedIds, NamedAreRetried, Stepped;
    SteppedValid(before, after, RetryIds(Listed(before, q), q), Retry(now));
    RetriedListed(before, after, q, now, r);
  }

  lemma WholeList(rows: seq<Message>)
    ensures rows[..|rows|] == rows
  {
  }
}
