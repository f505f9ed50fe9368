# Verified model of the CredTrail core

CredTrail issues, revokes and reports on verifiable badges. This project models the parts of it that hold state machines,
aggregations and encoders, and proves what they keep. `dafny verify dfyconfig.toml` verifies all of it.

| module (file) | what it models |
|---|---|
| `JobMessage`, `JobQueue` (JobQueue.dfy) | the leased job queue: one message under the four UPDATE statements that change it, as they land, and the table with its five operations |
| `ApprovalChain` (Approval.dfy), `RuleStore` | approval chains of badge-rule versions, and which version of a rule is in force |
| `LifecycleLedger`, `Lifecycle` (Lifecycle.dfy) | suspension, expiry and revocation of assertions with their event log |
| `OrgTree` | organisation units: creation, seeding, lineage walk, recursive scope query |
| `Grants` | delegated issuing authority: granting, revoking, looking up |
| `OwnershipHistory`, `Ownership` (Ownership.dfy) | ownership transfers, snapshots at issuance, backfilled attribution |
| `ReportRows`, `Grouping`, `Reports`, `TrendTotals`, `Hierarchy` | engagement counts, comparison, daily trend, roll-ups along the tree |
| `Radix`, `Base58` (Base58.dfy), `Base64Url`, `KeyCodec` | the encoders and the multibase key codec (draft-msporny-base58-03 sections 3 and 4, RFC 4648 section 5) |
| `Unicode`, `JsonString`, `JsonValue`, `CanonicalJson`, `DataIntegrity` | canonical JSON (string escapes of RFC 8259 section 7), signing payload, data-integrity proofs |
| `JsonText` | a reader of JSON without white space after RFC 8259, which printed texts are held against |
| `BatchedJoin` | the batched join of the authentication adapter |
| `Prelude`, `StableSort`, `Tables`, `Partition` | shared types, sorting, result sets, and counting over keyed lists |

Tables are sequences of rows in insertion order or maps from identifiers to rows, a SQL statement is one step, and an
operation of several statements is a method that takes these steps one after the other. What an operation does is also
written as a function, its method is proved equal to that function, and the theorems are about arbitrary runs of the
functions. What a call leaves and what an error means is stated once more in terms of the call and the tables alone,
without these functions; encoders are held against readers written after the RFCs, and alphabets, names and limits
against literals. ISO timestamps in one UTC format are integers, days are integers, and JavaScript strings are sequences
of UTF-16 code units where their contents matter and numbers where only their identity does. Clocks, random identifiers
and lease tokens are parameters; where the program draws a random identifier, the model asks for one that is not in use.
The key comparison of `localeCompare` is a parameter too, with the properties a theorem needs stated as its hypotheses.

## What the proofs found

- Base58: for input of zero bytes only, the encoder emits one `1` too many and the decoder one zero byte too many, because
  both start from the digit 0. The round trips hold exactly for all other input (`Base58.DecodeEncode`, `Base58.EncodeDecode`).
  A signature of zero bytes only would therefore not verify (`DataIntegrity.SignThenVerify`).
- Job queue: neither the UPDATE of a lease call nor that of a retry call looks at `status`; only the SELECT before it does.
  A stale lease UPDATE reopens a completed message that has attempts left (`JobMessage.StaleLeaseReopens`). A stale retry
  UPDATE takes a running lease away, so that two workers hold the message (`JobMessage.StaleRetryTakesLease`), and puts a
  completed message back among the candidates (`JobMessage.StaleRetryReopens`). Exactly when this happens is stated by
  `JobMessage.LeaseIsExclusiveIff` and `JobMessage.CompletedIsFinalIff`. A message on its last attempt whose worker never
  reports back is neither leased again nor failed (`JobMessage.LastAttemptNeverExpires`).
- Rule versions: activation does not check that the version belongs to the rule and `active_version_id` has no foreign key.
  A mismatch deprecates the version in force and leaves the pointer dangling (`RuleStore.ActivateKeepsIff`, with a run in `RuleStore.MismatchedActivation`).
- Lifecycle: a backdated transition is reported as done although the state does not show it (`LifecycleLedger.TransitionShowsIff`, `LifecycleLedger.BackdatedTransition`).
- Ownership: the backfill asks for 5000 ownership events, but the listing clamps to 500, so attribution can fall back to
  the present owner (`OwnershipHistory.BackfillAgreesIff`, with a run in `OwnershipHistory.LostAfter500`).
- Organisation units: seeding returns the derived institution identifier even when another unit has taken the slug
  `institution` and nothing was inserted (`OrgTree.SeededExistsIff`, with a run in `OrgTree.SlugTakenBeforeSeeding`).
- Trend: with date bounds the exported trend function counts events in range even of assertions issued outside it, the
  engagement report does not (`TrendTotals.TrendAgainstEngagement`, with an input in `TrendTotals.StrayClick`). The listing
  query in front of both only selects assertions issued in range, and on its rows they agree (`TrendTotals.ListedTrendTotals`).
- Batched join: the row limit is multiplied into one global limit, so one key with many matches can starve another
  (`BatchedJoin.JoinAgreesIff`, with an input in `BatchedJoin.GlobalLimitStarves`).

## Model

| member | source | states |
|---|---|---|
| `JobMessage.LeaseIsExclusive` | packages/db/src/index.ts:17463-17534 | With the candidate SELECT and every per-row UPDATE of any number of lease calls interleaved at will, and each retry UPDATE finding the message still failed, a message granted until U keeps its token and does not change at any moment before U until its holder finishes, worker clocks being no later than real time |
| `JobMessage.LeaseIsExclusiveIff` | packages/db/src/index.ts:17463-17724 | With the UPDATEs of retry calls interleaved as well, the grantee is the token holder at every moment, and the message unchanged, iff no retry UPDATE lands |
| `JobMessage.StaleRetryTakesLease` | packages/db/src/index.ts:17697-17717 | A message that failed on its only attempt is selected by two retry calls; after the first UPDATE a worker leases it until 100, the second UPDATE lands, and another worker holds it at 30 |
| `JobMessage.SupersededTokenIsPowerless` | packages/db/src/index.ts:17536-17600 | Complete or fail with a token the message no longer carries, and that is never issued again, changes nothing after any run |
| `JobQueue.EachMessageRunsAlone` | packages/db/src/index.ts:17489-17717 | However the UPDATEs of any number of workers interleave on the table, each message undergoes exactly the run of the statements aimed at it, so the results about one message hold for every message of the table |
| `JobMessage.ConsistentAlways` | packages/db/src/index.ts:17463-17843 | With each lease call and each retry call as one step, in every run: processing iff a token is held iff a lease end is set, pending implies attempts left, failed implies attempts used up |
| `JobMessage.AttemptsAreLeases` | packages/db/src/index.ts:17463-17843 | With each lease call and each retry call as one step, `attempt_count` is the number of leases since enqueue or the last retry, and never exceeds `max_attempts` |
| `JobMessage.TerminalStates` | packages/db/src/index.ts:17536-17843 | With each lease call and each retry call as one step, completed is never left, and failed by a retry only |
| `JobMessage.BackoffHolds` | packages/db/src/index.ts:17558-17600 | A failure with attempts left makes the message pending and a candidate at its retry time; until then it is unchanged at every moment iff no retry UPDATE lands, which none does when each finds the message still failed |
| `JobMessage.LastFailureWaitsForRetry` | packages/db/src/index.ts:17558-17724 | A failure on the last attempt leaves the message unchanged at every moment of any run iff no retry UPDATE lands; a retry makes it a candidate at once with no attempts counted |
| `JobMessage.LeasableIff` | packages/db/src/index.ts:17463-17499 | Short of a retry, some run of single-step lease calls leads to a lease iff the message is pending or still processing with attempts left |
| `JobMessage.LastAttemptNeverExpires` | packages/db/src/index.ts:17463-17499 | A message on its last attempt is unchanged at every moment of any run, although its lease runs out, iff its worker never reports back and no retry UPDATE lands |
| `JobMessage.StaleLeaseReopens` | packages/db/src/index.ts:17489-17510 | Two workers select a new message; one leases and completes it, then the UPDATE of the other puts it back into processing |
| `JobMessage.CompletedIsFinalIff` | packages/db/src/index.ts:17463-17843 | With the UPDATEs of any lease and retry calls interleaved at will, a completed message is unchanged at every moment iff no retry UPDATE lands and no lease UPDATE that finds it available with attempts left |
| `JobMessage.FailedIsFinalIff` | packages/db/src/index.ts:17463-17843 | A failed message is unchanged at every moment iff no retry UPDATE lands |
| `JobMessage.StaleRetryReopens` | packages/db/src/index.ts:17697-17717 | As for the lease taken away, but the worker completes the message first: the second retry UPDATE makes the completed message a pending candidate |
| `JobMessage.StandsStillIff` | packages/db/src/index.ts:17489-17717 | A message is unchanged at every moment of a run iff none of its statements would change it |
| `JobMessage.StepWrites` | packages/db/src/index.ts:17489-17717 | What each of the four UPDATEs asks for, writes and leaves, column by column |
| `JobQueue.OldestFirst` | packages/db/src/index.ts:17463-17488 | A lease call that leaves a candidate out has filled its limit, with messages no younger than the one left out |
| `JobQueue.CandidatesDistinct` | packages/db/src/index.ts:17463-17488 | The candidates have distinct identifiers and are the only messages with these identifiers |
| `JobQueue.Queue.Enqueue` | packages/db/src/index.ts:17397-17461 | Refused iff a message has the tenant, type and idempotency key; otherwise exactly one pending message is appended with what the call gave, no attempts, no lease and the call's time, leasable at once |
| `JobQueue.Queue.LeaseMessages` | packages/db/src/index.ts:17463-17534 | Exactly the oldest leasable messages up to the limit take the lease UPDATE, column by column, no other message changes, and exactly the messages with the new token are returned, oldest first |
| `JobQueue.Queue.CompleteMessage` | packages/db/src/index.ts:17536-17556 | Exactly the named message, and only if it carries the token, is completed: its columns afterwards are given, all others are unchanged |
| `JobQueue.Queue.FailMessage` | packages/db/src/index.ts:17558-17600 | Exactly the named message, and only if it carries the token, fails: back to pending at its retry time, or failed for good if its attempts are used up; the status found afterwards is returned unless the message is missing or leased |
| `JobQueue.Queue.RetryFailedMessages` | packages/db/src/index.ts:17663-17724 | Among the newest 1000 messages of the tenant and type, exactly the failed ones whose payload names the batch, source and rows are reset; matched and retried are the numbers of those named and of those reset |
| `ApprovalChain.ShapeAlways` | packages/db/src/index.ts:11459-11755 | In every run of submit, decide, activate and deprecate the chain keeps the shape of its status: all queued; approved* pending queued*; approved* rejected queued*; all approved; and the event log keeps the matching evidence |
| `ApprovalChain.ApprovalIsEarned` | packages/db/src/index.ts:11572-11755 | In every run from creation the steps ask for the roles of the chain given at creation (an admin if none is given), position by position, and approval is reached only if the log ends with a submission and one approval of every step in order, by an actor whose role suffices for that step of the chain, recorded in the step; the approver and the time are those of the last |
| `ApprovalChain.RolesAlways` | packages/db/src/index.ts:11489-11504 | No run of calls gives a step another role, or adds or drops a step |
| `ApprovalChain.RolesRanked` | packages/db/src/index.ts:4995-5007 | Which roles satisfy which: a viewer step anybody, an issuer step all but viewers, an admin step admins and owners, an owner step owners only |
| `ApprovalChain.DecisionsToApproval` | packages/db/src/index.ts:11572-11755 | From a chain pending at step k at most n - k decisions can take effect, and they end in approval iff there are n - k and all approve |
| `ApprovalChain.OwnerGetsThrough` | packages/db/src/index.ts:11572-11755 | Conversely n - k approvals by owners all take effect and end in approval |
| `ApprovalChain.DecideAt` | packages/db/src/index.ts:11572-11755 | What one decision does to a pending chain: refused for rank and unchanged, or the step, the next step, the status, the approver and the log entry it leaves, given field by field, with the shape of a rejected, approved or still pending chain |
| `ApprovalChain.SubmitOpens` | packages/db/src/index.ts:11459-11570 | Exactly drafts and rejected versions can be submitted: every step is open again in its role, the first pending, the approver cleared, the submission logged |
| `RuleStore.ConsistentAlways` | packages/db/src/index.ts:11252-11843 | In every run whose activations name a version of their rule, a rule has at most one active version, and `active_version_id` is set iff there is one and names it |
| `RuleStore.ActivateKeepsIff` | packages/db/src/index.ts:11757-11843 | An activation keeps that invariant iff the version named belongs to the rule named (or no such rule exists); otherwise the pointer dangles and the lookup finds nothing; two active versions never arise |
| `RuleStore.MismatchedActivation` | packages/db/src/index.ts:11757-11843 | A run from empty tables: two rules with one version each; activating the second version for the first rule deprecates the version in force and the lookup of the first rule finds nothing |
| `RuleStore.ActivateLeaves` | packages/db/src/index.ts:11757-11843 | After an activation exactly the activated version of the rule is active, if it is one of the rule, and every other rule is untouched |
| `RuleStore.ShapesAlways` | packages/db/src/index.ts:11252-11843 | Whatever is activated, no run spoils the approval chain of any version |
| `RuleStore.EachVersionRunsAlone` | packages/db/src/index.ts:11252-11843 | Whatever happens to the tables, each version undergoes a run of the approval model and stays with its rule, so the results about one version hold for every stored one |
| `RuleStore.StoredApprovalIsEarned` | packages/db/src/index.ts:11252-11843 | In any run of the tables, a version stored for a chain is approved only with the approvals that chain asks for |
| `RuleStore.FindActiveIsActive` | packages/db/src/index.ts:11025-11083 | Under the invariant the lookup over the pointer returns a version iff it is the active one |
| `RuleStore.FindActiveIff` | packages/db/src/index.ts:11025-11083 | The three columns the lookup joins and filters on |
| `RuleStore.Store.NewRule` | packages/db/src/index.ts:11252-11361 | Refused iff the chain is explicitly empty; otherwise exactly one rule without active version and one untouched draft are added, with one open step per role of the chain asked for |
| `RuleStore.Store.NewVersion` | packages/db/src/index.ts:11363-11457 | Succeeds iff the chain is not explicitly empty and the rule exists, with the stated error otherwise; adds exactly one untouched draft with the chain asked for |
| `RuleStore.Store.Submit` | packages/db/src/index.ts:11459-11570 | Succeeds iff the version exists under that tenant and rule and is draft or rejected; its row afterwards is given field by field, every other row is unchanged |
| `RuleStore.Store.Decide` | packages/db/src/index.ts:11572-11755 | Nothing to decide unless the version is pending; otherwise taken iff the role suffices for the pending step, and then the row afterwards is given field by field; no other row changes |
| `RuleStore.Store.ActivateVersion` | packages/db/src/index.ts:11757-11843 | The three UPDATEs row by row: which version becomes active with actor and time, which are deprecated, which pointer is set, everything else unchanged; the class invariant is kept iff the version belongs to the rule |
| `LifecycleLedger.RevokedForever` | packages/db/src/index.ts:15630-15795 | Once `revoked_at` is set, no run of transitions and revocations with any timestamps changes the ledger, and the state is revoked |
| `LifecycleLedger.AllowedIff` | packages/db/src/index.ts:4963-4971 | Every change of state is allowed except out of revoked and from expired to suspended |
| `LifecycleLedger.PathAlways` | packages/db/src/index.ts:15630-15795 | With increasing transition times the events form a path from active along allowed edges with only its last edge into revoked, at the revocation time, and the resolved state is revoked if marked and else the end of the path |
| `LifecycleLedger.OneRevocation` | packages/db/src/index.ts:15630-15795 | Such a path has at most one event into revoked, and none follows it |
| `LifecycleLedger.TransitionShowsIff` | packages/db/src/index.ts:15630-15795 | A transition reported as done is visible in the resolved state iff it is the revocation or its event is not sorted behind the latest |
| `LifecycleLedger.BackdatedTransition` | packages/db/src/index.ts:15630-15795 | A backdated resumption is reported as done, and the assertion stays suspended |
| `LifecycleLedger.ProjectionsAgree` | packages/db/src/index.ts:5009-5074 | The record-level projection, the summary projection of the joined row and the reporting projection never disagree |
| `LifecycleLedger.LatestAfterInsert` | packages/db/src/index.ts:15474-15514 | A new event becomes the latest iff it does not sort behind the one before |
| `Lifecycle.Assertions.RecordTransition` | packages/db/src/index.ts:15630-15795 | Errors exactly for a missing or superfluous actor or an unknown assertion; otherwise the resolved state decides between already there, not allowed, and one event with the state before, the target, reasons, source, actor and time of the call; a transition into revoked stores its time and adds one revocation row; no other assertion changes |
| `Lifecycle.Assertions.RecordRevocation` | packages/db/src/index.ts:17845-17906 | The first revocation time is stored and kept, and the result tells whether it was there before; a revocation row with that time is added unless its identifier, key or assertion is taken; there is at most one per assertion and it carries the stored time |
| `Lifecycle.Assertions.ResolveState` | packages/db/src/index.ts:15612-15628 | State, source, reason code, reason and time of an existing assertion, from its revocation mark and its last event by transition time, creation time and identifier |
| `Lifecycle.LatestOfTable` | packages/db/src/index.ts:15474-15518 | The latest event found for an assertion is its last by transition time, then creation time, then identifier, and there is none iff it has no event |
| `Lifecycle.RevokedResolves` | packages/db/src/index.ts:15695-15719 | A marked assertion resolves to revoked, so the already-revoked branch inside a transition is never taken |
| `OrgTree.ForestAlways` | packages/db/src/index.ts:14718-14810 | Any run of creation and seeding keeps parents exactly one type level up in the same tenant, and slugs unique per tenant |
| `OrgTree.CreatedIff` | packages/db/src/index.ts:14718-14810 | A unit is created iff it would be well parented in its tenant, under an active parent if any, with a free slug |
| `OrgTree.LevelsOrdered` | packages/db/src/index.ts:14718-14760 | Institution, college, department, program, from the top; a parent is exactly one level up |
| `OrgTree.LineageInForest` | packages/db/src/index.ts:5575-5596 | On a complete tenant list the lineage walk never throws, has depth + 1 units, one of each level from the start up to the root |
| `OrgTree.LineageIff` | packages/db/src/index.ts:5575-5596 | On any list the walk returns exactly the one parent chain that ends in a root, if there is one, and throws otherwise |
| `OrgTree.ListLineage` | packages/db/src/index.ts:5575-5596 | The loop with its visited set computes that walk and terminates on every list, cyclic ones included |
| `OrgTree.SeededExistsIff` | packages/db/src/index.ts:13369-13410 | After seeding, the identifier handed out belongs to a unit iff it did before or the slug `institution` was free |
| `OrgTree.SlugTakenBeforeSeeding` | packages/db/src/index.ts:13369-13410 | A run from an empty table: an institution created under the slug `institution`, then seeding, leaves the identifier handed out without a unit |
| `OrgTree.WithinTransitive` | packages/db/src/index.ts:13746-13790 | Scope is transitive along the ancestors of the recursive query |
| `OrgTree.WithinIff` | packages/db/src/index.ts:13746-13790 | Within a scope are the scoped unit and what has its parent within it, and nothing else |
| `OrgTree.OrgUnits.CreateUnit` | packages/db/src/index.ts:14718-14810 | Creates iff the parent fits (none for an institution, else an active unit of the tenant one level up) and the slug is free; then exactly one active unit with the type, slug and parent asked for is added; each refusal says what is wrong with the call |
| `OrgTree.OrgUnits.EnsureInstitution` | packages/db/src/index.ts:13369-13410 | Inserts an active institution with slug `institution` unless identifier or slug is taken, changes nothing else, and returns the derived identifier in any case |
| `Grants.CompatibleAlways` | packages/db/src/index.ts:14030-14292 | In every run of grants and revocations, with the read tables changing at will, two unrevoked grants of the same tenant, delegate and unit with overlapping windows and common actions have nonempty disjoint template lists |
| `Grants.GrantedIff` | packages/db/src/index.ts:14076-14192 | A grant is given iff its window and actions are not empty, member and active unit exist, the templates are the tenant's and owned within the unit, and no unrevoked grant of the same tenant, delegate and unit shares time, an action and a template; nothing that would be harmless is refused |
| `Grants.CoveredTwice` | packages/db/src/index.ts:14030-14292 | Two such grants cover the same action and template at an instant only where one ends and the other starts |
| `Grants.CoveredAtMostTwice` | packages/db/src/index.ts:14030-14292 | Never do three |
| `Grants.AccessCarriesDown` | packages/db/src/index.ts:14532-14621 | Authority at a unit is authority at every unit within it |
| `Grants.AccessAfterGrant` | packages/db/src/index.ts:14076-14292 | Access afterwards is access before, or what was asked for: that delegate, a unit within the unit, a requested action, a covered template, an instant in the window |
| `Grants.AccessAfterRevoke` | packages/db/src/index.ts:14384-14476 | Access afterwards is access through some other grant |
| `Grants.StatusIff` | packages/db/src/index.ts:4926-4957 | Revoked iff marked, else scheduled, active or expired as the instant is before, in or after the closed window |
| `Grants.GrantTable.FindActive` | packages/db/src/index.ts:14532-14612 | Returns a grant iff one permits the action, and then an earliest permitting one by start and creation time, whose computed status is active |
| `Grants.GrantTable.Create` | packages/db/src/index.ts:14076-14292 | Succeeds in exactly that case; then one grant is appended with the tenant, delegate, unit and window asked for, exactly the actions asked for and exactly the templates asked for, sorted and each once; otherwise nothing changes and the error names the first check that fails |
| `Grants.GrantTable.Revoke` | packages/db/src/index.ts:14384-14476 | Sets the revocation time once; tells a missing grant, a first and a repeated revocation apart |
| `Grants.CheckTemplates` | packages/db/src/index.ts:14110-14129 | The first template that is missing or out of scope decides the error |
| `Grants.FindConflict` | packages/db/src/index.ts:14131-14192 | The first conflicting grant is found iff there is one |
| `OwnershipHistory.ChainedAlways` | packages/db/src/index.ts:15268-15354 | After any transfers with any timestamps consecutive events chain from-to, every transfer changes the owner, and the owner is the last event target |
| `OwnershipHistory.BackfillAgreesIff` | packages/db/src/index.ts:16321-16406 | With increasing transfer times, backfilling an issue time at or after creation gives the unit a snapshot at that time would have stored iff fewer than 500 transfers have been recorded since, or the present owner is that unit |
| `OwnershipHistory.LostAfter500` | packages/db/src/index.ts:16365-16403 | An assertion issued at the creation of a template is attributed to the creating unit up to 499 handovers, and to the present owner from the 500th on |
| `OwnershipHistory.BackfilledFrom` | packages/db/src/index.ts:5076-5114 | Attribution takes the last event not after the issue time iff it is among the newest 500, and else the present owner |
| `OwnershipHistory.BackfilledShows` | packages/db/src/index.ts:5076-5114 | For any timestamps: of the newest 500 events by time and identifier, the last one not after the issue time names the unit; the present owner does if there is none |
| `OwnershipHistory.QueryLimitIs` | packages/db/src/index.ts:15225 | Any limit asked for is brought into the range from 1 to 500 |
| `OwnershipHistory.SplitReplay` | packages/db/src/index.ts:15268-15354 | Replaying the transfers until t gives exactly the events not after t, a prefix of the whole history |
| `OwnershipHistory.OrderOfIncreasing` | packages/db/src/index.ts:15221-15266 | With increasing times the newest-first listing is the reversed history |
| `OwnershipHistory.BeforeCreation` | packages/db/src/index.ts:5076-5114 | For an issue time before the creation the present owner stands in |
| `OwnershipHistory.BackdatedTransferDisagrees` | packages/db/src/index.ts:5076-5114 | With a backdated transfer the history attributes to a unit that is no longer the owner |
| `Ownership.Registry.CreateTemplate` | packages/db/src/index.ts:14972-15055 | A template of an existing unit starts with one event without origin to that unit; for an unknown unit nothing changes |
| `Ownership.Registry.TransferOwnership` | packages/db/src/index.ts:15268-15354 | Errors for a missing template or unit, reports whether ownership changed, and then changes owner and history together, by one event from the old to the new owner |
| `Ownership.Registry.CreateAssertion` | packages/db/src/index.ts:17100-17165 | A new assertion is attributed to the owner of the moment |
| `Ownership.Registry.Backfill` | packages/db/src/index.ts:16321-16406 | Exactly the assertions without attribution get the one their template history yields, which is given without the function that computes it; the count returned is their number |
| `Hierarchy.RollUpConserves` | packages/db/src/index.ts:5605-5725 | For a unit g, the rows of its children one level down with focus g and the events attributed to g itself add up to the event counts of g; their issued counts add up to at least the one of g, and exactly iff no assertion falls into two of these parts |
| `Hierarchy.RollUpConservesIssued` | packages/db/src/index.ts:5605-5725 | In particular the issued counts add up when each assertion has one organisation unit |
| `Hierarchy.GroupIsUnder` | packages/db/src/index.ts:5605-5725 | The group of a unit consists of exactly the passing rows at or below it |
| `Hierarchy.ChildrenAreBelow` | packages/db/src/index.ts:5605-5725 | One level down and focused on g, exactly the rows strictly below g count |
| `Hierarchy.AnswerableInForest` | packages/db/src/index.ts:5605-5640 | On a complete unit list the report is refused only for an unknown focus or scope or a focus below the level |
| `Hierarchy.ReportHasGroup` | packages/db/src/index.ts:5658-5725 | A unit has a row iff something counts for it, and the row is its group |
| `Hierarchy.SummarizeHierarchy` | packages/db/src/index.ts:5605-5725 | The loop over rows, lineages and a map of groups yields the report iff it is answerable; it shows one row for each unit of the level that some row counts for, with the numbers of those rows, most issued first; each refusal says what is wrong |
| `Hierarchy.HierarchyShows` | packages/db/src/index.ts:5605-5725 | The same about the report as a function: a row counts for the first unit of the level on its parent chain, if the filters, the focus and a scope on that chain let it |
| `Grouping.GroupsPartition` | packages/db/src/index.ts:5492-5560 | Event counts of the groups add up to the ungrouped ones, issued counts iff no assertion falls into two groups |
| `Reports.ComparisonPartitions` | packages/db/src/index.ts:5492-5560 | The comparison report against the engagement report for the same filters |
| `Reports.ComparisonShows` | packages/db/src/index.ts:5492-5560 | One row for each template, or unit, of a row that the filters select, with the numbers of those rows, most issued first |
| `TrendTotals.TrendAgainstEngagement` | packages/db/src/index.ts:5433-5490 | Trend totals are at least the engagement counts; the issued total is equal iff each assertion has one issue day, an event total iff no such event in the range belongs to an assertion issued outside it |
| `TrendTotals.StrayClick` | packages/db/src/index.ts:5433-5490 | An assertion issued on day 1 and shared on day 5: with both bounds at day 5 the trend counts the click and the engagement does not |
| `TrendTotals.ListedTrendTotals` | packages/db/src/index.ts:16632-16700 | On rows with the issue day in range, as the listing query selects them, all totals agree whatever the bounds |
| `TrendTotals.UnboundedTrendTotals` | packages/db/src/index.ts:5433-5490 | Without date bounds the trend is always given and its totals are the engagement counts, given one issue day per assertion |
| `TrendTotals.TrendIsGapFree` | packages/db/src/index.ts:5319-5334 | The rows of a trend are consecutive days, each once, and with both bounds given exactly the days between them |
| `TrendTotals.TrendShows` | packages/db/src/index.ts:5433-5490 | Every day from the first (the bound, else the earliest that occurs, else the other bound) to the last, with the distinct assertions issued and the events of each kind on it; empty or refused only where this range is |
| `Reports.DaysAreConsecutive` | packages/db/src/index.ts:5319-5334 | The date series collected day by day is consecutive, without repetition, and holds exactly the days between the bounds |
| `Reports.BuildDateSeries` | packages/db/src/index.ts:5319-5334 | The loop collects that series, or refuses bounds the wrong way round |
| `TrendTotals.DayBucketMeans` | packages/db/src/index.ts:5433-5490 | A bucket holds the distinct assertions issued and the events that occurred on its day |
| `TrendTotals.RangeFits` | packages/db/src/index.ts:5336-5368 | On the days that occur in the rows the resolved range is the range of the filters |
| `ReportRows.EngagedMeans` | packages/db/src/index.ts:5386-5402 | Issued counts are distinct assertions, event counts are events in range; the share rate times the issued count is the number of assertions with a share click in range, the claim rate times it the number with a claim or wallet acceptance in range; both lie between 0 and 1 |
| `ReportRows.AggregateMeans` | packages/db/src/index.ts:5240-5256 | After a pass over the rows the sets hold the distinct assertions, those with a share click and those with a claim or wallet acceptance in range, and the counters the events in range |
| `ReportRows.EngagedMeasures` | packages/db/src/index.ts:5370-5402 | The same for the rows of any selection, field by field and without the functions that compute it |
| `ReportRows.RateInUnit` | packages/db/src/index.ts:5386-5402 | A rate lies between 0 and 1, and is 1 iff every issued assertion is engaged |
| `Reports.SummarizeEngagement` | packages/db/src/index.ts:5404-5431 | The pass over the rows computes the engagement of exactly the rows with the template, unit, lifecycle state and issue day asked for |
| `Reports.SummarizeComparison` | packages/db/src/index.ts:5492-5560 | The pass over the rows with a map of groups computes the ranked groups of exactly these rows |
| `Reports.SummarizeTrend` | packages/db/src/index.ts:5433-5490 | Buckets for the date series, one pass over the rows and the buckets in order of insertion compute the trend, or the empty-range error |
| `Grouping.Groups.Add` | packages/db/src/index.ts:5521-5538 | One row goes to the aggregate of its own group, created at first need |
| `Grouping.Groups.Finish` | packages/db/src/index.ts:5540-5560 | The groups, most issued first |
| `Base58.DecodeEncode` | packages/core-domain/src/index.ts:200-284 | Decoding an encoding gives the bytes back iff they are empty or have a nonzero byte; an all-zero string comes back two bytes longer |
| `Base58.EncodedMeans` | packages/core-domain/src/index.ts:200-233 | The text is over the alphabet and is in base 58 the number the bytes are in base 256, with a leading `1` for each leading zero byte; all-zero bytes give one `1` more |
| `Base58.DecodedMeans` | packages/core-domain/src/index.ts:235-284 | And back, for a text over the alphabet |
| `Base58.AlphabetIsLiteral` | packages/core-domain/src/index.ts:151 | The characters, in order, are the base58btc alphabet |
| `Base58.EncodeDecode` | packages/core-domain/src/index.ts:200-284 | Decoding succeeds iff all characters are in the alphabet; encoding what it gives returns the text iff it is empty or has a character other than `1` |
| `Base58.AllOnesDecodeToZeros` | packages/core-domain/src/index.ts:235-284 | A text of ones decodes to bytes that start with zero |
| `Base58.EncodeStep` | packages/core-domain/src/index.ts:207-220 | The inner loops multiply the digit array by 256 and add the byte, with digits below 58 |
| `Base58.DecodeStep` | packages/core-domain/src/index.ts:242-268 | The inner loops multiply the byte array by 58 and add the index, with bytes below 256 |
| `Base58.MulAddValue` | packages/core-domain/src/index.ts:207-268 | In any base, the digit loops turn the representation of v into the one of v times `mul` plus the carry |
| `Base58.EncodeDigits` | packages/core-domain/src/index.ts:205-220 | The digit array holds the base-58 digits of the whole number |
| `Base58.DecodeBytes` | packages/core-domain/src/index.ts:240-268 | The byte array holds the base-256 digits of the whole number, unless a character is outside the alphabet |
| `Base58.Base58Encode` | packages/core-domain/src/index.ts:200-233 | The loops compute the change of base with leading zeros kept |
| `Base58.Base58Decode` | packages/core-domain/src/index.ts:235-284 | The loops compute the change of base back, or throw |
| `Radix.ConvertRoundTrip` | packages/core-domain/src/index.ts:200-284 | A change of base and back is the identity iff the digit string is empty or has a nonzero digit |
| `Radix.ReprUnique` | packages/core-domain/src/index.ts:200-284 | A digit string without leading zero is the only one of its value |
| `Base64Url.UrlRoundTrip` | packages/core-domain/src/index.ts:176-198 | Decoding and encoding again returns the text iff it is canonical unpadded base64url |
| `Base64Url.SextetsMean` | packages/core-domain/src/index.ts:176-184 | Three octets and their four groups are the same 24-bit number, a short last group being filled with zero bits |
| `Base64Url.AlphabetIsLiteral` | packages/core-domain/src/index.ts:176-198 | A to Z, a to z, 0 to 9, then + and / or, in the URL form, - and _ |
| `Base64Url.EncodesCanonical` | packages/core-domain/src/index.ts:176-184 | Encodings are canonical and decode to the bytes they came from |
| `Base64Url.PaddingCancels` | packages/core-domain/src/index.ts:186-198 | The padding that is put back is the padding that the platform decoder removes |
| `Base64Url.SpaceIsSkipped` | packages/core-domain/src/index.ts:186-198 | The platform decoder skips white space anywhere in the text |
| `Base64Url.ToBase64Url` | packages/core-domain/src/index.ts:176-184 | The buffer loop and the replacements compute the base64url text |
| `Base64Url.FromBase64Url` | packages/core-domain/src/index.ts:186-198 | The replacements and the buffer loop compute the bytes, or throw |
| `KeyCodec.KeyRoundTrip` | packages/core-domain/src/index.ts:871-892 | Decoding an encoded key returns `x` iff `x` is canonical unpadded base64url of at least one byte |
| `KeyCodec.MultibaseRoundTrip` | packages/core-domain/src/index.ts:871-892 | Every multibase text the decoder accepts is the one its result encodes to |
| `KeyCodec.EncodedKeyMeans` | packages/core-domain/src/index.ts:871-878 | Behind a `z`, the encoding is the base58 of 0xed 0x01 and the key |
| `KeyCodec.DecodedKeyMeans` | packages/core-domain/src/index.ts:880-892 | Accepted are exactly the texts of that form with at least one key byte, and the result is the base64url of the key |
| `CanonicalJson.CanonicalIffSameMeaning` | packages/core-domain/src/index.ts:286-324 | With a comparator that separates distinct keys, two values have the same text iff they mean the same, objects being maps |
| `CanonicalJson.CanonicalInjective` | packages/core-domain/src/index.ts:286-324 | With any total comparator, equal texts mean equal values |
| `CanonicalJson.OrderIndependentIff` | packages/core-domain/src/index.ts:286-324 | Insertion order never shows in the text iff the comparator separates distinct keys |
| `CanonicalJson.CanonicalizeIsRender` | packages/core-domain/src/index.ts:286-324 | Rejected are exactly the values with an undefined or non-finite part; sorting while printing is printing the sorted value |
| `CanonicalJson.CanonicalReads` | packages/core-domain/src/index.ts:286-324 | A reader of RFC 8259 takes the canonical text, whatever follows it, for a value that means the same, with the keys of every object in the comparator's order; only behind a number a delimiter must follow |
| `CanonicalJson.RenderReads` | packages/core-domain/src/index.ts:286-324 | Printed values read back as they are |
| `CanonicalJson.ErrorNamesPart` | packages/core-domain/src/index.ts:286-324 | The error thrown names a kind of part that the value contains |
| `JsonValue.NumberUnitsAre` | packages/core-domain/src/index.ts:295-301 | Digits, signs, the point and the exponent letter are the code units a printed number is made of |
| `CanonicalJson.RenderPrefix` | packages/core-domain/src/index.ts:286-324 | A printed value other than a number can be cut off any text that continues it in only one way |
| `CanonicalJson.ObjectTextPrefix` | packages/core-domain/src/index.ts:471-475 | Canonical objects form a prefix code, so `credential.proof` splits in only one way |
| `CanonicalJson.CanonicalWellFormed` | packages/core-domain/src/index.ts:286-324 | Canonical text has no lone surrogates, so its octets determine it |
| `JsonString.QuotePrefix` | packages/core-domain/src/index.ts:286-324 | A quoted string can be cut off any text that continues it in only one way |
| `JsonString.QuoteReads` | packages/core-domain/src/index.ts:303-320 | A reader of string literals after section 7 of RFC 8259 takes a printed string, whatever follows it, for that string |
| `JsonString.SpellingOfText` | packages/core-domain/src/index.ts:303-320 | Of the possible spellings this one is printed: the short escape where there is one, a lower-case four-digit escape for other controls and lone surrogates, and every other unit as it is |
| `Unicode.Utf8Injective` | packages/core-domain/src/index.ts:471-475 | On well-formed text the text encoder loses nothing |
| `Unicode.Utf8Reads` | packages/core-domain/src/index.ts:471-475 | A reader of UTF-8 after section 4 of RFC 3629 gets any text back with U+FFFD for each lone surrogate |
| `Unicode.WellFormedIff` | packages/core-domain/src/index.ts:471-475 | Well-formed text is text without lone surrogates, which needs no such replacement |
| `Unicode.Utf8NotInjective` | packages/core-domain/src/index.ts:471-475 | On ill-formed text it does |
| `DataIntegrity.PayloadSplits` | packages/core-domain/src/index.ts:471-475 | Equal signing payloads mean equal canonical credentials without proof and equal canonical proof options |
| `DataIntegrity.PayloadReads` | packages/core-domain/src/index.ts:434-475 | The signed octets, read as UTF-8, are a JSON object with exactly the credential's properties other than `proof` and `__proto__`, a full stop, a JSON value that means the proof options, and nothing more |
| `DataIntegrity.SignedIff` | packages/core-domain/src/index.ts:770-822 | Signing succeeds iff there is a payload and the key is of the suite's kind; the result is the covered properties and a proof whose six properties are spelled out |
| `DataIntegrity.VerifiesIff` | packages/core-domain/src/index.ts:824-869 | A credential verifies iff its proof is well formed, its suite known, the key of that kind, and the signature one of the rebuilt payload |
| `DataIntegrity.PayloadMeans` | packages/core-domain/src/index.ts:471-475 | Equal signing payloads mean equal credentials without proof and equal proof options, objects being maps; with a separating comparator also conversely |
| `DataIntegrity.SignThenVerify` | packages/core-domain/src/index.ts:770-869 | A signed credential verifies, even if it already carried a proof, whenever the signature has a nonzero byte or is empty; with an ideal scheme it otherwise does not |
| `DataIntegrity.TamperEvident` | packages/core-domain/src/index.ts:770-869 | With the proof of the signer attached, an object verifies iff it means the same credential, for an ideal scheme |
| `DataIntegrity.UnsignedOfSigned` | packages/core-domain/src/index.ts:434-446 | Attaching a proof, or replacing one, leaves what is signed unchanged |
| `DataIntegrity.UnsignedCredential` | packages/core-domain/src/index.ts:434-446 | The loop copies every property but `proof` and `__proto__`, in order |
| `BatchedJoin.OneToOneAgrees` | apps/api-worker/src/auth/better-auth-runtime.ts:244-297 | A one-to-one join gives every row what the nested loop gives |
| `BatchedJoin.BatchedMeans` | apps/api-worker/src/auth/better-auth-runtime.ts:259-294 | What a row is given, in positions of the table: the first match, or the first matches among the first candidates, their number being the row limit (100 by default) times the number of rows with a key |
| `BatchedJoin.NestedLoopMeans` | apps/api-worker/src/auth/better-auth-runtime.ts:244-297 | What the nested loop gives: the first match, or as many first ones as the row limit allows |
| `BatchedJoin.WithinLimitAgrees` | apps/api-worker/src/auth/better-auth-runtime.ts:244-297 | If no key has more matches than the row limit, the global limit is not reached and every row gets exactly its matches in table order |
| `BatchedJoin.OneToManyAgreesIff` | apps/api-worker/src/auth/better-auth-runtime.ts:244-297 | A row gets what the nested loop gives iff in the table every match of it beyond the global limit of candidates has as many matches before it as a row may have |
| `BatchedJoin.JoinAgreesIff` | apps/api-worker/src/auth/better-auth-runtime.ts:244-297 | A one-to-many join gives every row what the nested loop gives iff every candidate beyond the global limit has as many of its key before it as a row may have |
| `BatchedJoin.GlobalLimitStarves` | apps/api-worker/src/auth/better-auth-runtime.ts:244-297 | With one match allowed per row, a second match of one key can leave another key without any |
| `BatchedJoin.CountPerKey` | apps/api-worker/src/auth/better-auth-runtime.ts:266-283 | m keys with at most n rows each have at most n * m rows |
| `BatchedJoin.AttachJoinedRows` | apps/api-worker/src/auth/better-auth-runtime.ts:244-297 | The nested loops write into every output row, for every join: one to one, the first record in table order whose column equals the row's non-null key, null iff there is none; one to many, the row's first matches in table order among the candidates within the global limit |

## Left out

- Table creation, retries after a missing table, row mappers, `rowsWritten` results: schema plumbing.
- JSON-LD canonicalisation, Ed25519Signature2020, WebCrypto and fetching: unseen libraries; a signature scheme is an abstract sign and verify pair.
- HTTP routes, schemas of requests, OAuth, LTI, SSO, learner records, HTML pages: single-branch checks, remote calls or presentation.
- CanonicalJson.CanonicalInjective: the rendering of a number is a given text, so negative zero and non-finite numbers are not told apart from what they print as; an integer-like key keeps its place in the insertion order, which only matters for a comparator that does not separate keys.
- DataIntegrity.SignThenVerify: the checks of the key's shape are one test per kind of key, and asynchronous rejection is not modelled.
- JobQueue.Queue.LeaseMessages: one call is one step here; interleaved lease and retry calls are covered per message in JobMessage. Job types, budgets below one and payload parsing are limited by types, a precondition that the table's constraint enforces, and an optional batch.
- Grants.GrantTable.Create: one step; two creations that interleave between the conflict query and the insert are not modelled, and neither is the log of grant events. Rows that tie in start and creation time come in insertion order, where SQL leaves their order open.
- Grants.CompatibleAlways: about creation and revocation as single steps, for the same reason.
- Lifecycle.Assertions.RecordTransition: one step; `updated_at` columns, trimming of reasons and malformed dates or reason codes are left out, and the tables are those of one tenant.
- Grants.GrantTable.Revoke: the revoking user, the reason and the revocation event are left out, because the event rests on a count of written rows that not every database adapter reports.
- RuleStore.Store.Decide: version numbers, labels, comments and `updated_at` columns are left out; submit, decide and activate are single steps.
- OrgTree.OrgUnits.CreateUnit: no function of the source deactivates, moves or deletes a unit, so runs contain none; ON DELETE clauses are left out.
- Ownership.Registry.TransferOwnership: the tables are those of one tenant, every statement being filtered by tenant; reasons and governance metadata are left out, and so is the upsert of templates, which keeps the owner.
- Reports.SummarizeTrend: date bounds are whole days; trimming, time-of-day parts of bounds and the Gregorian calendar are left out.
- Hierarchy.SummarizeHierarchy: display names, and the executive roll-up built from several hierarchy reports, are left out.
- The overview counts per lifecycle state: one pass of counters over the same projection, an easy member.
- BatchedJoin.AttachJoinedRows: a query without ORDER BY returns rows in table order; a join on a column that an earlier join has written is left out, and so are the SQL texts that `whereClauseToSql` and `listRows` build.
- Floating point: rates are exact quotients.
