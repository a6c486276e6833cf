# A verified model of the approval, login and catalogue logic of ovirt-backup

The server of this repository guards dangerous actions by votes, slows down password guessing, remembers
logins started at an external provider, offers and imports backup points found on a storage, elects a
leader among its instances, restarts a hung child process, and keeps one record of identity settings.
This project models those parts in Dafny and proves what they promise over every run.

Code that changes fields and maps step by step is modelled by classes and loops: `ApprovalServer.Server`,
`LoginLimiter.Limiter`, `StartedLogins.Pending`, `CatalogImport.Selection`, `Leadership.Process`,
`IdentityServer.Handlers`, and the loops of the scan, the process supervisor and the client address.
Each method is proved to do what a step function says, and the theorems are about runs of those step
functions: a run is a row of states in which every next state follows from the one before by a step. What a step
function does is stated a second time without it, in terms of the stored rows: for an accepted call the whole new
state, for a refused one that nothing changes (`ApprovalEffects`, `IdentityEffects`, `CatalogParents.StatusExactlyWhen`).

| files | part of the system |
|---|---|
| `Text.dfy`, `Sizes.dfy` | trimming, splitting and joining; sizes of sets and maps |
| `Approvals.dfy`, `ApprovalServer.dfy` | the approval protocol: its state, its steps, and the handlers and passes that take them |
| `ApprovalRuns.dfy`, `ApprovalHistory.dfy`, `ApprovalUse.dfy`, `ApprovalQuorum.dfy` | what every run keeps, where requests, votes and actions come from, how long an approval is good, and when a quorum can be reached |
| `ApprovalEffects.dfy`, `ApprovalOrigins.dfy` | what each step changes in terms of the stored rows alone, and where votes, groups and revocations come from |
| `ApprovalOutage.dfy`, `DelegationTokens.dfy`, `DelegationRuns.dfy` | unreadable tables, delegation tokens, revoked delegations |
| `Eviction.dfy`, `LoginLimiter.dfy`, `LimiterRuns.dfy`, `LimiterBound.dfy`, `StartedLogins.dfy` | the two bounded tables and their ideal counterparts |
| `CatalogScan.dfy`, `CatalogVisit.dfy`, `CatalogOffer.dfy`, `CatalogOrder.dfy`, `CatalogParents.dfy`, `CatalogIndifference.dfy` | scanning a storage, finding contradictions, offering points, and what the visiting order decides |
| `CatalogImport.dfy`, `CatalogCases.dfy` | importing points in chain order, and the scan and the import together |
| `Leadership.dfy`, `ServiceSupervisor.dfy` | the leader lock with any number of instances, and the parent of the service process |
| `Identity.dfy`, `IdentityServer.dfy`, `IdentityRuns.dfy`, `IdentityEffects.dfy` | the identity settings and the sessions that depend on them |
| `ClientAddress.dfy` | the address a forwarded request is attributed to |

## Where the code differs from what one would expect

- Escalation changes the group of an overdue request and leaves its deadline where it was, so the next
  deadline pass closes it, however soon it comes (`ApprovalHistory.EscalatedIsOverdue`,
  `ApprovalHistory.EscalationGrantsNoTime`).
- A comment at internal/api/approvals.go:55-56 says that an unreadable policy table does not weaken the
  protection. It does exactly when the stored row is stricter than the catalogue
  (`ApprovalOutage.OutageWeakensExactlyWhen`); and a guarded action then runs without a vote exactly when the
  catalogue does not guard it or the default group is not ready. An unreadable group table always has that
  effect, alone or together with the policies (`ApprovalOutage.OutageLiftsGuardExactlyWhen`).
- Both bounded tables use the empty key as "nothing found", so an entry under the empty key is never dropped by
  force. A failed login with a blank name puts such an entry into the table of the login limiter, which then has
  no bound at all: `LimiterBound.BlankNameOverflows` gives a run for every size in which nothing but the blank
  name could have been dropped. `LimiterBound.SafeExactlyWhen` and `LimiterBound.RunBoundedExactlyWhen` say
  exactly when the bound of 4096 holds, for one failure and for a whole run. In the table of started logins the
  empty key does not occur: its only caller passes a fresh random token (internal/api/oidc.go:306-312), which is
  what `StartedLogins.TableIsBounded` asks for.
- A leadership check that fails while the lock is still held marks the handle as lost, and releasing a lost
  handle neither unlocks nor closes the connection. An attempt whose answer is lost after the grant, and an unlock
  that fails after a failed start, put a session that has the lock back into the connection pool. In all three cases
  the lock is held by a session no instance refers to, and in every run of the model that happens in no other way
  (`Leadership.OrphanedExactlyWhen`). Until the session ends, or the pool hands it out for another attempt, nobody
  leads (`Leadership.OrphanBlocksAll`); after a failed check only the end of the session helps
  (`Leadership.DroppedForGood`).
- What the scan offers can depend on the order the prefixes are visited in. The order decides which manifests of a run
  are put in conflict (`CatalogOrder.OrderIndifferentExactlyWhen`, `CatalogCases.OrderMatters`), which manifest
  stands for a run as a parent (`CatalogParents.StandingIndifferentExactlyWhen`, `CatalogCases.OrderMattersToParents`),
  and whether a parent the registry contradicts is refused to a child, which happens only to children visited after it
  (`CatalogCases.OrderMattersToChildren`). Taken together, the offers of a scan are the same in every order exactly
  when every candidate that some order offers has only equal manifests in its run and a parent no order takes away
  (`CatalogIndifference.OffersIndifferentExactlyWhen`, `CatalogCases.ScanIndifferentExactlyWhen`). What is offered
  never disagrees.
- A manifest that names its own run as parent is offered (`CatalogCases.OwnParentIsOffered`), and selecting it recurses
  without end. The recursion ends exactly when the entry does not lead into a circle
  (`CatalogImport.RecursionEndsExactlyWhen`), and then within as many steps as there are entries
  (`CatalogImport.EndsWithinTheCatalog`). Growing chain indexes rule circles out.
- The scan does not count a missing parent as a broken one, so it offers entries the import always refuses
  (`CatalogCases.OfferedButRefused`). `CatalogImport.AcceptedExactlyWhen` says which are accepted: those whose scanned
  ancestors are all fit, whose topmost ancestor has its parent on the storage or none, and whose chain ends.
- Giving a role to a single user does not check the subject for control characters, which the access policy does;
  the check of the configuration refuses line breaks and NUL only (internal/config/config.go:952-955).
  Once such a grant is written (`IdentityRuns.TabIsWritten`), no change of the settings that inherits the grants is
  accepted (`IdentityRuns.InheritingIsRefused`); `IdentityRuns.GrantsValidExactlyWhen` says that this is the only way
  to such grants.
- Hops written in front of a forwarded header are ignored exactly when the walk stops inside the header; if
  every hop is a trusted proxy, the leftmost one is returned and a hop in front of it would be believed
  (`ClientAddress.PrefixIsIgnoredExactlyWhen`).

## Model

| member | source | states |
|---|---|---|
| Approvals.PolicyFor | internal/api/approvals.go:39-79 | The policy in force always has a positive quorum, timeout and veto window and names a group, whatever is stored; with no row, or an unreadable table, it is the catalogue default |
| ApprovalEffects.PolicyInForce | internal/api/approvals.go:39-79 | Every usable field of a readable row is the one in force, and the default of two approvals, three days, one day and the group approvers is otherwise |
| ApprovalEffects.Catalogue | internal/model/approval.go:63-88 | Which actions are guarded from the start; the ones that can be vetoed are exactly those the due pass can carry out |
| ApprovalOutage.OutageWeakensExactlyWhen | internal/api/approvals.go:53-59 | An unreadable policy table lowers the level, the quorum or the window of an action if and only if its stored row is stricter than the catalogue |
| ApprovalOutage.StrictRowIsLost | internal/api/approvals.go:53-59 | Three signatures asked for deleting a backup: during an outage none is |
| ApprovalOutage.OutageLiftsGuardExactlyWhen | internal/api/approvals.go:213-237 | A guarded action runs without a vote when the groups cannot be read, alone or together with the policies; when only the policies cannot, if and only if the catalogue does not guard it or its default group is not ready |
| ApprovalServer.CountApprovals | internal/model/approval.go:235-243 | The counting loop yields the number of approving votes |
| ApprovalServer.ValidateGroupMembers | internal/api/handlers_approvals.go:301-338 | The loop accepts exactly the lists with at least two different known members after trimming, and returns them without repeats in their first order |
| ApprovalServer.Server.PolicyFor | internal/api/approvals.go:39-79 | Overwriting the default field by field, over the stored rows in any order, gives the policy in force |
| ApprovalServer.Server.SetApprovalPolicy | internal/api/handlers_approvals.go:45-90 | A policy outside the catalogue or with a quorum below two is refused, any other replaces the row of its action and nothing else |
| ApprovalEffects.PolicySet | internal/api/handlers_approvals.go:45-90 | A policy is stored if and only if its action is in the catalogue and a quorum is of two at least; otherwise nothing changes |
| ApprovalServer.Server.SaveGroup | internal/api/handlers_approvals.go:226-281 | A valid member list replaces the group and nothing else; an invalid one changes nothing |
| ApprovalEffects.GroupStored | internal/api/handlers_approvals.go:226-338 | A group is stored if and only if it has a title, every non-blank name is a known user and two differ; it then lists the trimmed names without repeats in the order they first occur, and otherwise nothing changes |
| ApprovalServer.Server.GuardAction | internal/api/approvals.go:213-251 | Runs, opens or refuses as the step says; a request is opened exactly when the guard applies, no approval and no override is given and the reason is long enough; the answer says whether exactly one action was done |
| ApprovalEffects.NotHeld | internal/api/approvals.go:213-237 | An action whose policy asks for no vote, or whose group cannot be read or is too small, runs at once and nothing else changes |
| ApprovalEffects.HeldWithApproval | internal/api/approvals.go:239-307 | A held action with an approval runs if and only if the named request describes it and is approved, or scheduled with the time come, and uses it up if it succeeds; otherwise nothing changes |
| ApprovalEffects.HeldWithOverride | internal/api/approvals.go:315-359 | A held action runs past the vote if and only if a reason of twenty characters is given; the override is recorded then, and the action logged if it succeeds |
| ApprovalEffects.HeldOtherwise | internal/api/approvals.go:380-410 | Any other held action becomes a request with every field as the policy in force and the call say, if and only if a reason of ten characters is given |
| ApprovalServer.Server.ExecuteApproved | internal/api/approvals.go:254-307 | Executes only what was voted on, in an executable state, and uses the request up only when the action succeeded |
| ApprovalServer.Server.ExecuteBreakGlass | internal/api/approvals.go:315-359 | An override is recorded before the action, also when the action then fails |
| ApprovalServer.Server.OpenApprovalRequest | internal/api/approvals.go:380-438 | The request carries the policy of the moment; at veto level one approval is enough |
| ApprovalServer.Server.CastVote | internal/api/approvals.go:507-610 | Accepts exactly the votes every check lets through, and then moves the request and the delegation as the step says |
| ApprovalEffects.PersonalVote | internal/api/approvals.go:507-605 | A vote in person by a member other than the requester who has not voted is recorded as theirs; the request moves by the number of approvals, and nothing else changes |
| ApprovalEffects.DelegatedVote | internal/api/approvals.go:516-605 | A vote with the token and the password of a delegation in force, both matching, by its delegate and covering the group, is recorded as the delegator's and counted in the delegation |
| ApprovalEffects.OtherVote | internal/api/approvals.go:507-565 | Any other vote changes nothing |
| ApprovalEffects.CountIs | internal/model/approval.go:235-243 | Counting one by one gives the number of approving votes |
| ApprovalOrigins.DelegatedVotesWereProven | internal/api/delegations.go:90-133 | In every run each vote cast for somebody else goes back to a call that presented the token of a delegation in force from the voter to the caller and covering the group, with a password, both of which matched |
| ApprovalServer.Server.Decide | internal/api/approvals.go:574-602 | A rejection closes; the quorum approves, or schedules after the veto window in force; below the quorum the state stays |
| ApprovalServer.Server.CancelApproval | internal/api/handlers_approvals.go:166-207 | Accepted exactly from the requester or a current group member while not final; a scheduled request becomes vetoed, any other rejected |
| ApprovalEffects.Cancelling | internal/api/handlers_approvals.go:166-207 | A cancel is accepted if and only if the request is undecided and the actor is its requester or listed in a readable group of that name; it then becomes vetoed if it was scheduled and rejected otherwise, and any other cancel changes nothing |
| ApprovalOrigins.CancelChangesExactlyWhen | internal/api/handlers_approvals.go:166-207 | In every run a cancel changes the state if and only if that holds |
| ApprovalServer.Server.SweepApprovals | internal/api/approvals.go:664-697 | Whatever order the overdue requests come in, each is escalated or closed by its policy and all others stay |
| ApprovalServer.SweptStepByStep | internal/api/approvals.go:664-697 | What the pass makes of a request is what a deadline step of its own makes of it |
| ApprovalEffects.DeadlineReached | internal/api/approvals.go:664-697 | An overdue request is escalated if and only if it has not been and the policy in force names a fallback, and its group is then that fallback; otherwise it is closed and keeps its group |
| ApprovalOrigins.GroupGoesBack | internal/api/approvals.go:664-697 | In every run the group of a request is the one of the policy it was opened under until its one escalation, and then the fallback of the policy in force at that moment |
| ApprovalServer.SweepIsARunOfSteps | internal/api/approvals.go:664-697 | One pass over any repetition-free list of requests is the row of single deadline steps, and its result does not depend on the order |
| ApprovalServer.Server.SweepDueApprovals | internal/api/autoexecute.go:105-122 | The pass attempts every due request once, each attempt being one due step |
| ApprovalServer.DueIsARunOfSteps | internal/api/autoexecute.go:105-122 | The due pass is the row of due steps in the order the requests are read |
| ApprovalServer.Server.ExecuteDueApproval | internal/api/autoexecute.go:125-195 | Success or a vanished object closes the request as executed, a failure keeps it scheduled with the retry time |
| ApprovalEffects.DueDone | internal/api/autoexecute.go:125-165 | A due action that is done is logged once, as the request describes it, and the request is executed |
| ApprovalEffects.DueGone | internal/api/autoexecute.go:125-165 | When there is nothing left to act on the request is closed as executed and nothing is logged |
| ApprovalEffects.DueFailed | internal/api/autoexecute.go:167-195 | A failure is noted and tried again a quarter of an hour later; applying a retention policy without parameters always fails |
| ApprovalEffects.NotDue | internal/api/autoexecute.go:105-122 | A request that is not scheduled, not yet due or not for an executor is left alone |
| ApprovalServer.Server.HandOver | internal/api/handlers_delegations.go:33-134 | A delegation is stored exactly when every check of the handler passes |
| ApprovalEffects.HandingOver | internal/api/handlers_delegations.go:33-159 | A delegation is stored, as asked for, if and only if the delegate is another known user, the password has ten bytes, the time is positive and at most thirty days, and the delegator is in the group or, without one, in some group |
| ApprovalOrigins.EveryHandoverWasAllowed | internal/api/handlers_delegations.go:33-159 | In every run each stored delegation goes back to a handover that met all those conditions and describes it |
| ApprovalServer.Server.Revoke | internal/api/handlers_delegations.go:186-215 | Only the delegator or an administrator revokes, and a revoked delegation keeps its time |
| ApprovalEffects.Revoking | internal/api/handlers_delegations.go:186-215 | A delegation is revoked if and only if its delegator or an administrator asks, and once |
| ApprovalOrigins.OnlyTheirOwnersRevoke | internal/api/handlers_delegations.go:186-215 | In every run each revocation was made by the delegator or an administrator at the recorded time |
| ApprovalEffects.Purging | internal/api/approvals.go:648-658 | A delegation is forgotten once it ran out more than a week ago, and not before |
| DelegationRuns.RevokedCarriesNoVote | internal/api/delegations.go:90-133 | In every run no vote is cast under a revoked delegation before its prefix, by then free, is handed out anew |
| DelegationRuns.RevokingStopsVotes | internal/api/handlers_delegations.go:186-215 | A revocation by the delegator or an administrator has that effect from the next step on |
| ApprovalRuns.UnanimousCount | internal/model/approval.go:235-243 | The count equals the number of votes exactly when all of them approve |
| ApprovalRuns.TallyIsGood | internal/api/approvals.go:574-602 | One more accepted vote keeps the votes fair and the state in line with them |
| ApprovalRuns.StepKeepsGood | internal/api/approvals.go:213-697 | Every step of the protocol keeps the invariant over requests, log, groups and delegations |
| ApprovalRuns.RunsAreGood | internal/api/approvals.go:213-697 | The invariant holds in every state of every run |
| ApprovalHistory.StepMoves | internal/api/approvals.go:254-697 | A step changes a stored request in one of five listed ways or not at all |
| ApprovalHistory.RequestsOnlyMoveForward | internal/model/approval.go:162-169 | Over any run what was put to the vote never changes, votes are never lost, and a closed request stays as it is |
| ApprovalHistory.EveryRequestWasOpened | internal/api/approvals.go:380-438 | Every request was opened at some step, with the quorum, level and deadline of the policy then in force |
| ApprovalHistory.EveryVoteWasCast | internal/api/approvals.go:507-610 | Every vote on a request was accepted by an earlier voting step on that request |
| ApprovalHistory.EveryVoteIsLegitimate | internal/api/approvals.go:516-556 | The voter was then in the group of the request and was not the requester; a vote cast for somebody else had a usable delegation from voter to caster covering the group, and the caster was not the requester |
| ApprovalHistory.GrantedMeansQuorum | internal/api/approvals.go:380-610 | A request that is approved, scheduled or executed has at least the quorum fixed at its opening, in approving votes of different people other than the requester, and no rejecting vote |
| ApprovalHistory.OnlyTheDelegatorDelegates | internal/api/handlers_delegations.go:33-159 | Every stored delegation was made by its delegator, who was then a voter, and ends at most thirty days later |
| ApprovalHistory.VetoWindowIsWaitedOut | internal/api/approvals.go:587-600 | A veto-level request is not ready before the positive window in force at its latest vote has passed, through any number of retries |
| ApprovalHistory.NoEarlyExecution | internal/api/approvals.go:272-285 | No action is done on a veto-level request, by hand or by the due pass, before the window of its latest approving vote has passed |
| ApprovalHistory.ExecutedOnceAsVoted | internal/api/autoexecute.go:125-195 | Each request leads to at most one action in any run, with the action, object, summary and payload that were voted on and a unanimous quorum behind it; the due pass acts at veto level only |
| ApprovalUse.FailureConsumesNothing | internal/api/autoexecute.go:125-195 | Over any run an approved or scheduled request stays so if and only if no step cancels, rejects or successfully executes it: failed attempts, by hand or by the due pass, consume nothing |
| ApprovalUse.ReadyCanBeExecuted | internal/api/approvals.go:254-307 | A ready request is executed by hand after some wait, while its action is guarded and the action succeeds |
| ApprovalHistory.ClosedIsNeverExecuted | internal/model/approval.go:162-169 | A request closed without execution stays closed and no action is ever done on it |
| ApprovalHistory.CancelStopsForGood | internal/api/handlers_approvals.go:166-207 | A cancel by the requester or a current member of the group, at any time before the end, excludes execution in every continuation |
| ApprovalHistory.HitUsesUp | internal/api/approvals.go:664-697 | A deadline hit escalates or closes, lowers the number of hits left, and performs nothing |
| ApprovalHistory.DeadlineHitsAreBounded | internal/api/approvals.go:664-697 | In any run, whatever the policies become, a request is escalated at most once and hit at most twice |
| ApprovalHistory.EscalatedIsOverdue | internal/api/approvals.go:664-697 | In every run an escalated request is overdue all the time, because its deadline stays where it was |
| ApprovalHistory.EscalationGrantsNoTime | internal/api/approvals.go:664-697 | In every run the first deadline pass that meets an escalated request closes it |
| ApprovalHistory.EveryActionIsAccounted | internal/api/approvals.go:213-359 | Every guarded action ever done comes from a step with a reason: the guard did not apply, an override was recorded, or a request was ready |
| ApprovalQuorum.EnoughVotesCarry | internal/api/approvals.go:456-472 | With enough eligible members left, a row of accepted votes that carries the request is constructed |
| ApprovalQuorum.AttainableExactlyWhen | internal/api/approvals.go:507-610 | An open request can be carried by votes alone if and only if its votes and its eligible members together reach the quorum |
| ApprovalQuorum.OpenedRequestsAreAttainable | internal/api/approvals.go:404-472 | Every request opened in any run can be carried while the group stays, whoever the requester is |
| DelegationTokens.AcceptedExactlyWhen | internal/api/delegations.go:45-64 | A text is split into a prefix and a secret if and only if it is the token made of them and both are non-empty and without dots |
| DelegationTokens.ApiTokenIsRefused | internal/api/apitoken.go:48-64 | A token with the scheme of the API tokens is never taken for a delegation |
| Eviction.FindOldest | internal/api/loginlimit.go:141-149 | The search with "empty" for "nothing found" returns a key no other is older than |
| LoginLimiter.CooldownDoubles | internal/api/loginlimit.go:101-115 | The shifted and capped pause is the smaller of one minute doubled with each failure and fifteen minutes, for every number of failures, and the shift never overflows sixty-three bits |
| LoginLimiter.CooldownGrows | internal/api/loginlimit.go:101-115 | More failures never shorten the pause |
| LoginLimiter.Limiter.Allow | internal/api/loginlimit.go:68-85 | Reads the table only: refuses exactly while the pause lasts, and tells how long |
| LoginLimiter.WaitIsNearest | internal/api/loginlimit.go:68-85 | The wait is the rest of the pause to the nearest second |
| LoginLimiter.Limiter.Fail | internal/api/loginlimit.go:88-116 | Counts the failure in the entry of the name, after eviction when the name is new |
| LoginLimiter.FailureIs | internal/api/loginlimit.go:101-115 | The series goes on, or begins anew after half an hour, and the fifth and later failures block |
| LoginLimiter.Limiter.Reset | internal/api/loginlimit.go:119-124 | Forgets the name and nothing else |
| LoginLimiter.Limiter.Evict | internal/api/loginlimit.go:129-150 | A full table loses every stale entry and, if that is not enough, one oldest entry |
| LoginLimiter.ForcedExactlyWhen | internal/api/loginlimit.go:129-150 | An entry that still matters is dropped only when 4096 of them do |
| LimiterRuns.FailuresSlowDown | internal/api/loginlimit.go:88-116 | Within half an hour an account that failed so often is blocked at least as long as the pauses add up to |
| LimiterRuns.AtMostTenFailures | internal/api/loginlimit.go:62-116 | In any half hour, ends included, at most ten wrong passwords of one account get past the limiter, without a login in between and without a forced eviction of its entry |
| LimiterRuns.TenIsReached | internal/api/loginlimit.go:62-116 | The bound is sharp: a run with ten failures in exactly half an hour |
| LimiterBound.BoundExactlyWhen | internal/api/loginlimit.go:88-150 | For a table of any size and any dropped entry, a failure leaves at most 4096 entries if and only if the name is known and the table was within the bound, or room was made: no forced eviction, or one of a name that is not empty from exactly 4096 current entries |
| LimiterBound.SafeExactlyWhen | internal/api/loginlimit.go:88-150 | The same for every choice of the oldest entry, as a condition on the table and the name before the call: within the bound, unsafe is exactly a new name meeting a full table of current entries of which the empty name is an oldest |
| LimiterBound.RunBoundedExactlyWhen | internal/api/loginlimit.go:88-150 | Every table of a run is within 4096 entries if and only if no new name fails while a current entry has to go and the one chosen is the empty name |
| LimiterBound.TableIsBounded | internal/api/loginlimit.go:129-150 | Without the empty name no run exceeds 4096 entries |
| LimiterBound.BlankNameOverflows | internal/api/loginlimit.go:129-150 | After one failure under a blank name there is no bound: for every size a run whose table has that many entries, in which only the blank name could have been dropped |
| LimiterRuns.EvictionIsUnobservable | internal/api/loginlimit.go:129-150 | Until an entry is forced out, every check is answered, with the same wait, as by a table that never drops anything |
| StartedLogins.Pending.Begin | internal/api/oidc_state.go:52-63 | Evicts and stores the login for ten minutes |
| StartedLogins.Pending.Take | internal/api/oidc_state.go:66-82 | Returns the login only in time and forgets it in any case |
| StartedLogins.Pending.Evict | internal/api/oidc_state.go:85-106 | A full table loses every expired login and, if that is not enough, one that expires first |
| StartedLogins.ForcedExactlyWhen | internal/api/oidc_state.go:85-106 | A login that can still be completed is dropped only when 1024 of them can |
| StartedLogins.TenMinutes | internal/api/oidc_state.go:52-82 | A login just begun can be completed for ten minutes, ends included, and not later |
| StartedLogins.StaysUnlessForced | internal/api/oidc_state.go:85-106 | A live login leaves the table only when taken, or when no expired one could make room and none expires earlier |
| StartedLogins.TakeIsIdeal | internal/api/oidc_state.go:66-82 | Taking returns nothing but what an ideal one-shot store would, and exactly that unless the login was forced out |
| StartedLogins.TakenOnce | internal/api/oidc_state.go:66-82 | Any two successful takes have different begins, each at most ten minutes earlier, and return exactly what was begun |
| StartedLogins.BoundExactlyWhen | internal/api/oidc_state.go:85-106 | Beginning a login keeps the table within 1024 entries if and only if it is not a new key meeting a full table of live logins of which the empty key should go |
| StartedLogins.TableIsBounded | internal/api/oidc_state.go:85-106 | Without the empty key no run exceeds 1024 entries |
| CatalogScan.InRunStaysInside | internal/api/handlers_catalog.go:309-314 | A key accepted for a run is its directory followed by plain segments: it never leads out of the directory |
| CatalogScan.InRunExactlyWhen | internal/api/handlers_catalog.go:309-314 | Under a plain directory the accepted keys are exactly those that go on with plain segments and no backslash |
| CatalogScan.CheckItems | internal/api/handlers_catalog.go:253-306 | The loop succeeds if and only if every listed disk or artifact matches its own manifest and its recorded hash |
| CatalogScan.CheckObjects | internal/api/handlers_catalog.go:233-252 | Everything is in order if and only if every listed key is inside the run and present; otherwise the first key that is not decides |
| CatalogScan.LoadCandidate | internal/api/handlers_catalog.go:201-307 | A candidate has its manifest if and only if that is published and readable, and is importable if and only if moreover everything it lists is present and matches; without a manifest file it is incomplete |
| CatalogScan.IntactExactlyWhen | internal/api/handlers_catalog.go:233-306 | A manifest is intact if and only if its configuration is there and both objects of every disk and artifact are, with a manifest that names run, disk, data and kind and with agreeing hashes |
| CatalogScan.LoadStatusExactlyWhen | internal/api/handlers_catalog.go:201-307 | When each status is given to what is found at a prefix |
| CatalogVisit.VisitedHaveOneHash | internal/api/handlers_catalog.go:115-137 | In any visiting order every candidate has the hash of the one that stands for its run, or is in conflict |
| CatalogVisit.KeptExactlyWhen | internal/api/handlers_catalog.go:115-137 | A candidate is left out of conflict if and only if it has the hash of the first visited one of its run and the next one of the run, if any, has the same hash |
| CatalogOrder.OrderIndifferentExactlyWhen | internal/api/handlers_catalog.go:115-137 | The candidates of a run that keep their status are the same in every order of visiting if and only if their hashes are all equal or all different |
| CatalogParents.StandsExactlyWhen | internal/api/handlers_catalog.go:115-142 | After the first pass a run is good enough to be a parent if and only if its last visited manifest is in order and has the hash of the first |
| CatalogParents.StandingIndifferentExactlyWhen | internal/api/handlers_catalog.go:115-142 | That is the same in every order of visiting if and only if no manifest of the run that is in order has a twin or is alone, or all are equal and in order |
| CatalogCases.ScanStandingExactlyWhen | internal/api/handlers_catalog.go:115-142 | The same for the candidates loaded from any repository |
| CatalogCases.OrderMattersToParents | internal/api/handlers_catalog.go:115-142 | One manifest under two prefixes, only one of them complete: the one visited last decides |
| CatalogCases.ScanOrderExactlyWhen | internal/api/handlers_catalog.go:115-137 | The same for the candidates loaded from any repository |
| CatalogOffer.Settle | internal/api/handlers_catalog.go:139-180 | The branches of the second pass give the settled status of one candidate and fill in a missing registered hash |
| CatalogOffer.SettledExactlyWhen | internal/api/handlers_catalog.go:139-180 | A candidate that came through the first pass is on offer if and only if its parent is to be had and the registry knows neither another manifest nor a copy here, whatever hashes were filled in on the way |
| CatalogParents.StatusExactlyWhen | internal/api/handlers_catalog.go:115-180 | For every order and registry the exact condition of each status: known, additional copy, importable, missing parent and conflict, read off the order and the registry |
| CatalogCases.ScanStatusExactlyWhen | internal/api/handlers_catalog.go:90-180 | The same for the scan of any repository |
| CatalogParents.HashesFilledExactlyWhen | internal/api/handlers_catalog.go:155-167 | A missing registered hash of a point that turns out known becomes the one of its manifest, and no other hash changes |
| CatalogCases.NewChildOfKnownParent | internal/api/handlers_catalog.go:155-180 | Scan and import together: in either order a registered parent is known, its missing hash is filled in, its new child is offered, and the import accepts it |
| CatalogParents.AvailableExactlyWhen | internal/api/handlers_catalog.go:139-154 | Whether a candidate finds its parent in the second pass, read off the order of visiting alone: the parent is not needed, or stands well and, if visited earlier, is not contradicted by the registry while having a parent itself |
| CatalogParents.WinsExactlyWhen | internal/api/handlers_catalog.go:115-180 | Both passes offer a candidate if and only if it is in order, unchallenged, allowed by the registry, and its parent is to be had, all read off the order alone |
| CatalogIndifference.OfferIndifferentExactlyWhen | internal/api/handlers_catalog.go:115-180 | A candidate is offered in every order or in none if and only if no order offers it, or its run has one hash and its parent is not needed or has only equal manifests in order of which none is contradicted by the registry while able to have a parent |
| CatalogIndifference.OffersIndifferentExactlyWhen | internal/api/handlers_catalog.go:115-180 | The offers are the same in every order if and only if that holds of every candidate |
| CatalogCases.ScanIndifferentExactlyWhen | internal/api/handlers_catalog.go:90-180 | The same for the scans of any repository against any registry |
| CatalogCases.OrderMattersToChildren | internal/api/handlers_catalog.go:134-154 | A child of a point the registry contradicts is offered when visited before its parent and not when visited after it |
| CatalogOffer.OfferedExactlyWhen | internal/api/handlers_catalog.go:90-180 | The whole scan offers a point if and only if its manifest is readable, everything it lists is there and matches, no manifest of its run challenges it, its parent is to be had, and the registry allows it |
| CatalogOffer.OffersAreGood | internal/api/handlers_catalog.go:90-180 | Every offer is intact and fits the registry as it is after the scan; a registered hash is filled in, never replaced |
| CatalogOffer.Scan | internal/api/handlers_catalog.go:90-180 | In any visiting order an entry is offered if and only if it deserves it, every offered entry is intact under its own prefix, and no two offers under one run have different manifest hashes |
| CatalogCases.OrderMatters | internal/api/handlers_catalog.go:115-137 | A repository with three manifests of one run: scanned in one order a copy is offered, in another nothing is |
| CatalogImport.Index | internal/api/handlers_catalog.go:359-367 | Every entry is found by its identifier, and every run by some entry of it |
| CatalogImport.Selection.IncludeParents | internal/api/handlers_catalog.go:368-396 | On success the entry and exactly what it needs have been added; otherwise nothing has, and something it needs cannot be imported, or its chain is longer than the recursion may go, which a chain without end always is |
| CatalogImport.Selection.Include | internal/api/handlers_catalog.go:397-402 | Succeeds if and only if everything the requested entries need can be imported and no chain is endless; then the selection holds them, is closed under parents, and holds nothing they do not need |
| CatalogImport.SelectionIsLeast | internal/api/handlers_catalog.go:368-402 | Such a selection is contained in every parent-closed set with the requested entries |
| CatalogImport.SoundExactlyWhen | internal/api/handlers_catalog.go:368-402 | Everything the requested entries need can be imported if and only if some parent-closed set of importable entries holds them |
| CatalogImport.NeedsExactlyAncestors | internal/api/handlers_catalog.go:385-389 | What every parent-closed set with an entry must hold are exactly its ancestors |
| CatalogImport.AcceptedExactlyWhen | internal/api/handlers_catalog.go:368-396 | An entry is accepted if and only if every scanned ancestor is acceptable and readable, the topmost has no parent or its parent has a healthy copy, and the chain ends within as many steps as there are entries |
| CatalogCases.OfferedButRefused | internal/api/handlers_catalog.go:139-150 | A repository in which the scan offers a point whose parent has lost its own parent, and the import refuses it |
| CatalogImport.AscendingEnds | cmd/jvbackup/main.go:446-452 | Chain indexes that grow from parent to child make the recursion end |
| CatalogImport.RecursionEndsExactlyWhen | internal/api/handlers_catalog.go:369-396 | The recursion ends if and only if the entry does not lead into a set of entries that always lead to one another |
| CatalogImport.EndsWithinTheCatalog | internal/api/handlers_catalog.go:369-396 | If it ends at all, it ends within as many steps as there are entries |
| CatalogCases.OwnParentIsOffered | internal/api/handlers_catalog.go:369-396 | A manifest that names its own run as parent is offered by the scan, and its selection does not end |
| CatalogImport.ParentsComeFirst | internal/api/handlers_catalog.go:403-419 | In every arrangement by chain index, at every point of the import, the parent is already imported or has a healthy copy on the storage |
| CatalogImport.ParentsFirstExactlyWhen | internal/api/handlers_catalog.go:403-419 | For any selection, that is so in every arrangement if and only if every selected entry that needs a parent has a selected one of that run with a smaller chain index |
| Leadership.Process.Supervise | cmd/ovirt-backup-server/main.go:638-689 | Over any replies of the database the background parts run exactly while there is a leadership handle, also when the start fails |
| Leadership.RunsAreGood | cmd/ovirt-backup-server/main.go:590-689 | In every run of any number of instances, parts run exactly with a handle, and no two instances have the same session |
| Leadership.AtMostOneLive | internal/store/leader.go:35-96 | Of any two instances at most one has a live lock |
| Leadership.RunningWasLive | cmd/ovirt-backup-server/main.go:638-689 | A running instance had the lock right after its latest poll, and if it has it no more its session died since; so it stops at its next poll |
| Leadership.OrphanedExactlyWhen | internal/store/leader.go:35-96 | In every run the lock is held by a session no instance refers to if and only if a check failed on the instance that had it, the answer to a granted attempt was lost, or the unlock after a failed start failed, and since then the session has neither died nor been used for another attempt |
| Leadership.OrphanBlocksAll | internal/store/leader.go:35-96 | Until then nobody has the lock, however often they poll, and whoever has polled since does not run |
| Leadership.DroppedForGood | internal/store/leader.go:62-96 | A lock lost to a failed check stays with its session until that dies, whatever the pools do |
| Leadership.DeathFreesTheLock | internal/store/leader.go:35-56 | After the death of the session the next undisturbed poll of an instance without a handle makes it the leader |
| ServiceSupervisor.Supervise | cmd/ovirt-backup-server/supervisor.go:89-163 | Over any inputs the counters lead to exactly the events the log calls for; at most one child is alive, a child starts only when none is, and is killed as hung exactly when the configured number of counted failures stands in a row |
| ServiceSupervisor.Watch | cmd/ovirt-backup-server/supervisor.go:105-153 | The watching loop keeps its counters equal to what the log says until the child is gone |
| ServiceSupervisor.Probe | cmd/ovirt-backup-server/supervisor.go:121-152 | One tick counts a failure only after a success or after the startup allowance, and kills when patience runs out |
| ServiceSupervisor.KilledForCause | cmd/ovirt-backup-server/supervisor.go:137-152 | Each of the counted failures before a kill is a failed probe after the first success or after the startup allowance, one directly after another |
| ServiceSupervisor.ExitIsReplaced | cmd/ovirt-backup-server/supervisor.go:117-119 | A child that exits is reaped and replaced by the next that starts |
| ServiceSupervisor.HungIsReplaced | cmd/ovirt-backup-server/supervisor.go:137-152 | A child is killed at exactly the probe that makes patience run out; once dead it is replaced, and otherwise the parent gives up |
| ServiceSupervisor.OthersAreNoted | cmd/ovirt-backup-server/supervisor.go:121-139 | Any other probe leaves the child running |
| ServiceSupervisor.StopIsFinal | cmd/ovirt-backup-server/supervisor.go:105-116 | When the parent has to stop it signals the child, kills it if need be, reaps it and starts no other |
| ServiceSupervisor.LivingByPhase | cmd/ovirt-backup-server/supervisor.go:89-163 | Over any inputs one child is alive exactly while one is watched, and a parent that returns leaves none but one it could not kill |
| Identity.UnchangedIsSame | internal/api/identity_settings.go:487-506 | "Not changed" is equality of the trimmed binding and of the policy, hence an equivalence |
| IdentityEffects.BindingIs | internal/api/identity_settings.go:495-506 | The binding are exactly the seven values, up to white space around and slashes behind |
| Identity.ConversionKeeps | internal/api/identity_settings.go:112-134 | Settings to configuration and back keeps everything but the domain |
| Identity.AccessPolicy | internal/api/identity_settings.go:461-485 | An accepted value has exact subjects with known roles, none from another provider, a default role that was inherited, empty or viewer, and is otherwise unchanged |
| IdentityEffects.PolicyIs | internal/api/identity_settings.go:461-485 | The access policy is accepted if and only if role and grants are as asked for or inherited, none moves to another provider, and every grant fits |
| IdentityServer.CheckSubjects | internal/api/identity_settings.go:479-483 | The loop accepts exactly the grants that name an exact subject and a built-in role |
| IdentityServer.ApplyAccessPolicy | internal/api/identity_settings.go:461-485 | Updating the fields one by one gives the access policy or refuses it |
| IdentityServer.Handlers.SetIdentitySettings | internal/api/identity_settings.go:234-338 | The handler does what the step says: secret kept or required, domain kept or cleared, sessions revoked on a change |
| IdentityEffects.SettingsStored | internal/api/identity_settings.go:234-338 | Settings that are acceptable are stored and in force with every field as asked for and cleaned, the secret in use for an empty one, the domain only with the binding it was connected for; external sessions go if and only if the binding or the policy changed |
| IdentityEffects.SettingsRefused | internal/api/identity_settings.go:234-338 | Any others change nothing |
| IdentityServer.Handlers.BootstrapEmbedded | internal/api/identity_settings.go:340-451 | The same for the embedded provider |
| IdentityEffects.BootstrapStored | internal/api/identity_settings.go:340-451 | The same for the embedded provider, with the issuer named in the request and what the helper reports |
| IdentityEffects.BootstrapRefused | internal/api/identity_settings.go:340-451 | Any other bootstrap changes nothing |
| IdentityServer.Handlers.ConfigureDomain | internal/api/identity_settings.go:601-708 | A connected domain replaces the domain data and the role groups and revokes every external session |
| IdentityEffects.Connecting | internal/api/identity_settings.go:601-708 | A connection that succeeds puts the domain in force and gives each non-empty group its role, the later winning, or none in manual mode; every other field stays, external sessions go, and any other connection changes nothing |
| IdentityEffects.RolesGoBack | internal/api/identity_settings.go:234-708 | In every run the role mapping in force is what the latest step that changed it asked for, or the one of the start |
| IdentityServer.Handlers.SetIdentityUserRole | internal/api/identity_console.go:143-210 | One manual grant is set or removed and every external session is revoked |
| IdentityEffects.GivingARole | internal/api/identity_console.go:143-210 | One grant is written or taken away if and only if subject and role are acceptable, and external sessions go; otherwise nothing changes |
| IdentityEffects.Sessions | internal/api/oidc_session.go:23-104 | Sessions begin with a login that is allowed and end with a logout or a failed recheck |
| IdentityRuns.RunsAreGood | internal/api/identity_settings.go:234-451 | In every run the stored settings are the ones in force, local login is off only with a connected domain, and the external sessions are current |
| IdentityRuns.ExternalSessionsAreCurrent | internal/api/identity_settings.go:300-333 | Every live external session was issued or rechecked under the binding and the access policy in force |
| IdentityRuns.ConnectedForThisBinding | internal/api/identity_settings.go:495-518 | A stored connection goes back to a successful connection, or to the start, under the same binding |
| IdentityRuns.LocalLoginOffOnlyWithDomain | internal/api/identity_settings.go:520-528 | Whenever local login is off, the external login is on and the domain was connected for exactly the binding in force |
| IdentityRuns.LocalSessionsStay | internal/store/oidc_session.go:13-21 | Through any changes of the settings, logins and rechecks a local session lasts until its own logout |
| IdentityRuns.GrantsEndWithProvider | internal/api/identity_settings.go:369-373 | In every run a step that changes the provider, by hand or by a bootstrap, leaves no manual grant |
| IdentityRuns.GrantsGoBack | internal/api/identity_settings.go:461-485 | Every manual grant in force was written, or found at the start, under the provider in force now and ever since |
| IdentityRuns.GrantsValidExactlyWhen | internal/api/identity_console.go:143-187 | The grants stay such as the access policy accepts if and only if no role was given to a subject with a control character |
| IdentityRuns.TabIsWritten | internal/api/identity_console.go:143-158 | A subject with a tab inside is accepted |
| IdentityRuns.InheritingIsRefused | internal/api/identity_settings.go:461-485 | While a grant the access policy refuses is in force, a change of the settings that inherits the grants is refused |
| ClientAddress.ClientIp | internal/api/response.go:163-187 | The loop from right to left returns the peer when it is not trusted, else the rightmost hop that is no trusted proxy, the peer if that hop is malformed, the leftmost hop if there is none |
| ClientAddress.ForwardedAddress | internal/api/response.go:171-183 | The rightmost hop that is no trusted proxy is the address in its canonical form, or the peer is if it is no address |
| ClientAddress.AllBelieved | internal/api/response.go:171-183 | When every hop is a trusted proxy the leftmost is the address |
| ClientAddress.DirectAddress | internal/api/response.go:183-187 | Without a forwarded header the other header counts if it is an address, in its canonical form |
| ClientAddress.StopIs | internal/api/response.go:173-183 | The place the walk stops at is the only one with trusted hops to its right and none at it |
| ClientAddress.PrefixIsIgnored | internal/api/response.go:161-183 | When the walk stops inside the header, no text in front of it changes the result |
| ClientAddress.PrefixIsIgnoredExactlyWhen | internal/api/response.go:161-183 | Texts in front of the header are without influence if and only if the walk stops inside it |

## Left out

- HTTP and JSON handling, routing, audit records, alerts and messages: they do not influence the modelled state.
- Hash and password comparisons, provider discovery, token verification, validation of the provider configuration, the host helper apart from the issuer it reports: their outcomes are inputs of the steps, and the proofs hold for every outcome.
- Database failures in the middle of a handler, except unreadable policies and groups: every handler is one atomic step whose writes succeed.
- Interleaving inside one handler and stale reads of the two approval passes: each request of a pass is handled in a step of its own.
- The form of group names, the difference between creating and updating a group, vote comments, button labels and session lifetimes: they take no part in the properties.
- Lower-casing of login names: the limiter's table is modelled over names as they are stored.
- Length limits count characters of the model's strings, where the source counts bytes in some places and characters in others; the length of a delegation password is an input.
- Query parameters, delegation names and the fields of a domain are taken as trimmed by the handlers.
- The order of the due query: the due pass is proved for any order.
- `path.Clean` is modelled by what it leaves unchanged, `sort.Slice` by any arrangement in order, iteration over a map by any order, and the choice among equally old entries by any choice.
- Reading addresses and networks (`net.ParseIP`, `net.ParseCIDR`) and the peer without its port are parameters of the client address.
- Expiry of sessions and removal of users: a session ends by logout, recheck or revocation.
- Shutdown of the background parts: leadership release and stop are not ordered there, so the leadership theorems are about steady operation.
- Import of a single entry, the backup engine, the scheduler, hypervisor, storage and Keycloak clients: foreign calls.
- Job, storage and verification settings, dashboards, metrics and help texts: they would only add easy members.
- IdentityRuns.ConnectedForThisBinding: a connection found stored at the start of the run is taken as given, because its history is before the run.
- CatalogImport.Selection.IncludeParents: the depth the recursion may go stands for the stack of the process; a recursion without end is the outcome TooDeep.
- ClientAddress.PrefixIsIgnoredExactlyWhen: assumes that some address is not trusted, because otherwise nothing could be told apart.
