/** Theorems about whole runs of the approval protocol. */
module ApprovalHistory {
  import opened Text
  import opened Approvals
  import opened ApprovalRuns

  // --- How one step can change one request ---------------------------------------------

  /** The step opens the request, under the policy in force at that moment. */
  predicate OpenedBy(w: World, step: Step, id: string, r: Request) {
    && step.Guarded? && step.call.freshId == id && Opens(w, step.call)
    && var p := w.Policy(step.call.action);
    && r.quorum == Need(p) && r.level == p.level && r.expiresAt == w.now + p.timeout
    && r.action == step.call.action && r.target == step.call.target && r.requester == step.call.actor
  }

  /** The step records the vote. */
  predicate CastAt(w: World, step: Step, id: string, v: Vote) {
    step.Voted? && step.vote.id == id && VoteAccepted(w, step.vote) && VoteFor(w, step.vote) == v
  }

  /** The request is executed now. */
  predicate ExecutedNow(w: World, r: Request, s: Request) {
    MayExecute(r, w.now) && s == r.(status := Executed, decidedAt := Some(w.now), executeAfter := s.executeAfter)
  }

  /** The request is closed without being executed. */
  predicate ClosedNow(w: World, r: Request, s: Request) {
    && !Final(r.status) && !Granted(s.status) && !Open(s.status)
    && s == r.(status := s.status, decidedAt := Some(w.now), executeAfter := None)
  }

  predicate EscalatedNow(w: World, r: Request, s: Request) {
    && Overdue(r, w.now) && !r.escalated && s.status.Escalated?
    && s == r.(status := Escalated, decidedAt := None, executeAfter := None, escalated := true, group := s.group)
  }

  predicate RetriedLater(w: World, r: Request, s: Request) {
    Due(r, w.now) && s == r.(error := s.error, executeAfter := Some(w.now + RETRY_AFTER_FAILURE))
  }

  predicate VotedNow(w: World, step: Step, id: string, r: Request, s: Request) {
    && step.Voted? && step.vote.id == id && VoteAccepted(w, step.vote)
    && s == Tally(r, VoteFor(w, step.vote), w.now, w.Policy(r.action).vetoWindow)
  }

  /** All the ways a step can change an existing request. */
  predicate Moves(w: World, step: Step, id: string, r: Request, s: Request) {
    s == r || VotedNow(w, step, id, r, s) || ExecutedNow(w, r, s) || ClosedNow(w, r, s)
    || EscalatedNow(w, r, s) || RetriedLater(w, r, s)
  }

  lemma HandMoves(w: World, approval: string, c: Call, id: string)
    requires id in w.requests
    ensures var requests := ExecuteApproved(w, approval, c).requests;
            id in requests && (requests[id] == w.requests[id] || ExecutedNow(w, w.requests[id], requests[id]))
  {}

  lemma GuardMoves(w: World, c: Call, id: string)
    requires id in w.requests
    ensures id in GuardAction(w, c).requests && Moves(w, Guarded(c), id, w.requests[id], GuardAction(w, c).requests[id])
  {
    HandMoves(w, c.approval, c, id);
  }

  lemma PassMoves(w: World, step: Step, id: string)
    requires id in w.requests && (step.Cancelled? || step.DeadlinePassed? || step.WindowPassed?)
    ensures id in Next(w, step).requests && Moves(w, step, id, w.requests[id], Next(w, step).requests[id])
  {}

  /** An existing request stays, and changes in one of the listed ways or not at all. */
  lemma StepMoves(w: World, step: Step, id: string)
    requires id in w.requests
    ensures id in Next(w, step).requests && Moves(w, step, id, w.requests[id], Next(w, step).requests[id])
  {
    match step
    case Guarded(call) => GuardMoves(w, call, id);
    case Cancelled(_, _) => PassMoves(w, step, id);
    case DeadlinePassed(_) => PassMoves(w, step, id);
    case WindowPassed(_, _) => PassMoves(w, step, id);
    case _ =>
  }

  /** A request that was not there before was opened by the step. */
  lemma NewMeansOpened(w: World, step: Step, id: string)
    requires id !in w.requests && id in Next(w, step).requests
    ensures var r := Next(w, step).requests[id];
            OpenedBy(w, step, id, r) && r.votes == [] && r.status.Pending? && !r.escalated
  {}

  // --- A request only moves forward ----------------------------------------------------

  /** How many times the deadline pass can still touch a request. */
  function HitsLeft(r: Request): nat {
    if !Open(r.status) then 0 else if r.escalated then 1 else 2
  }

  /** What a later state of a request still shares with an earlier one. */
  predicate Continues(r: Request, s: Request) {
    && s.action == r.action && s.target == r.target && s.requester == r.requester
    && s.level == r.level && s.quorum == r.quorum && s.expiresAt == r.expiresAt
    && r.votes <= s.votes
    && (Final(r.status) ==> s == r)
    && HitsLeft(s) <= HitsLeft(r)
    && (r.escalated ==> s.escalated)
  }

  lemma VoteContinues(r: Request, vote: Vote, now: Time, vetoWindow: int)
    requires !Final(r.status)
    ensures Continues(r, Tally(r, vote, now, vetoWindow))
  {}

  lemma MovesContinue(w: World, step: Step, id: string, r: Request, s: Request)
    requires Moves(w, step, id, r, s)
    requires id in w.requests && w.requests[id] == r
    ensures Continues(r, s)
  {
    if VotedNow(w, step, id, r, s) {
      VoteContinues(r, VoteFor(w, step.vote), w.now, w.Policy(r.action).vetoWindow);
    }
  }

  lemma StepContinues(w: World, step: Step, id: string)
    requires id in w.requests
    ensures id in Next(w, step).requests && Continues(w.requests[id], Next(w, step).requests[id])
  {
    StepMoves(w, step, id);
    MovesContinue(w, step, id, w.requests[id], Next(w, step).requests[id]);
  }

  /** What was put to the vote never changes, votes are never lost, and a closed request stays as it is. */
  lemma {:induction false} RequestsOnlyMoveForward(worlds: seq<World>, steps: seq<Step>, i: nat, j: nat, id: string)
    requires IsRun(worlds, steps) && i <= j < |worlds| && id in worlds[i].requests
    ensures id in worlds[j].requests && Continues(worlds[i].requests[id], worlds[j].requests[id])
  {
    if i < j {
      RequestsOnlyMoveForward(worlds, steps, i, j - 1, id);
      assert Follows(worlds, steps, j - 1);
      StepContinues(worlds[j - 1], steps[j - 1], id);
    }
  }

  // --- Where requests and votes come from ------------------------------------------------

  lemma {:induction false} EveryRequestWasOpened(worlds: seq<World>, steps: seq<Step>, i: nat, id: string) returns (k: nat)
    requires IsRun(worlds, steps) && i < |worlds| && id in worlds[i].requests
    ensures k < i && OpenedBy(worlds[k], steps[k], id, worlds[i].requests[id])
  {
    assert Follows(worlds, steps, i - 1);
    if id in worlds[i - 1].requests {
      k := EveryRequestWasOpened(worlds, steps, i - 1, id);
      StepContinues(worlds[i - 1], steps[i - 1], id);
    } else {
      k := i - 1;
      NewMeansOpened(worlds[k], steps[k], id);
    }
  }

  /** A step that changes the votes of a request adds exactly the vote it casts. */
  lemma VotesGrowByVoting(w: World, step: Step, id: string)
    requires id in w.requests && id in Next(w, step).requests
    ensures var votes, votes' := w.requests[id].votes, Next(w, step).requests[id].votes;
            votes' == votes || exists v :: votes' == votes + [v] && CastAt(w, step, id, v)
  {
    StepMoves(w, step, id);
    if VotedNow(w, step, id, w.requests[id], Next(w, step).requests[id]) {
      assert CastAt(w, step, id, VoteFor(w, step.vote));
    }
  }

  lemma {:induction false} EveryVoteWasCast(worlds: seq<World>, steps: seq<Step>, i: nat, id: string, n: nat) returns (k: nat)
    requires IsRun(worlds, steps) && i < |worlds| && id in worlds[i].requests && n < |worlds[i].requests[id].votes|
    ensures k < i && CastAt(worlds[k], steps[k], id, worlds[i].requests[id].votes[n])
  {
    assert Follows(worlds, steps, i - 1);
    var w, step := worlds[i - 1], steps[i - 1];
    if id !in w.requests {
      NewMeansOpened(w, step, id);
      assert false;
    }
    VotesGrowByVoting(w, step, id);
    if n < |w.requests[id].votes| {
      k := EveryVoteWasCast(worlds, steps, i - 1, id, n);
    } else {
      k := i - 1;
    }
  }

  // --- Quorum -----------------------------------------------------------------------------

  /** In this world the vote is a proper one on the request: by a member, or by a usable delegate of one. */
  predicate Legitimate(w: World, id: string, v: Vote) {
    && id in w.requests
    && var r := w.requests[id];
    && v.at == w.now
    && v.voter != r.requester && w.Member(r.group, v.voter)
    && (v.castBy != "" ==> v.castBy != r.requester && v.castBy != v.voter && Backed(w, r.group, v))
  }

  /** A usable delegation from the voter to the caster covers the group. */
  predicate Backed(w: World, group: string, v: Vote) {
    exists p :: p in w.delegations && DelegationBacks(w.delegations[p], w.now, group, v)
  }

  predicate DelegationBacks(d: Delegation, now: Time, group: string, v: Vote) {
    d.delegator == v.voter && d.delegate == v.castBy && d.Usable(now) && d.Covers(group)
  }

  /** Whoever pressed the button: the voter, or the delegate acting for the voter. */
  function Caster(v: Vote): string { if v.castBy == "" then v.voter else v.castBy }

  lemma CastVotesAreLegitimate(w: World, step: Step, id: string, v: Vote)
    requires GoodDelegations(w.delegations) && CastAt(w, step, id, v)
    ensures Legitimate(w, id, v) && step.vote.caller == Caster(v) && step.vote.approve == v.approve && v.at == w.now
  {
    var b := BallotOf(w, w.requests[id], step.vote).value;
    if b.via.Some? {
      assert DelegationBacks(w.delegations[b.via.value], w.now, w.requests[id].group, v);
    }
  }

  /**
   * Every vote on a request, in every run, was cast at some step by its caster while the voter was a
   * member of the group the request then had; a vote cast for somebody else had a usable delegation
   * behind it, and neither the voter nor the caster was the requester.
   */
  lemma EveryVoteIsLegitimate(worlds: seq<World>, steps: seq<Step>, i: nat, id: string, n: nat) returns (k: nat)
    requires IsRun(worlds, steps) && i < |worlds| && id in worlds[i].requests && n < |worlds[i].requests[id].votes|
    ensures k < i && var v := worlds[i].requests[id].votes[n];
            && Legitimate(worlds[k], id, v) && v.at == worlds[k].now
            && steps[k].Voted? && steps[k].vote.id == id
            && steps[k].vote.caller == Caster(v) && steps[k].vote.approve == v.approve
  {
    k := EveryVoteWasCast(worlds, steps, i, id, n);
    RunsAreGood(worlds, steps, k);
    CastVotesAreLegitimate(worlds[k], steps[k], id, worlds[i].requests[id].votes[n]);
  }

  /**
   * A request that is approved, scheduled or executed has at least its quorum of votes, all approving,
   * from different people other than the requester; the quorum is the one set when it was opened.
   */
  lemma GrantedMeansQuorum(worlds: seq<World>, steps: seq<Step>, i: nat, id: string) returns (k: nat)
    requires IsRun(worlds, steps) && i < |worlds| && id in worlds[i].requests && Granted(worlds[i].requests[id].status)
    ensures var r := worlds[i].requests[id];
            && AllApprove(r.votes) && FairVotes(r.votes, r.requester) && |r.votes| >= r.quorum >= 1
            && k < i && OpenedBy(worlds[k], steps[k], id, r)
  {
    RunsAreGood(worlds, steps, i);
    k := EveryRequestWasOpened(worlds, steps, i, id);
  }

  // --- Delegations ------------------------------------------------------------------------

  predicate SameHandover(d: Delegation, e: Delegation) {
    && d.delegator == e.delegator && d.delegate == e.delegate && d.group == e.group
    && d.createdAt == e.createdAt && d.expiresAt == e.expiresAt
  }

  lemma VoteKeepsHandover(w: World, v: VoteCall, p: string)
    requires p in CastVote(w, v).delegations
    ensures p in w.delegations && SameHandover(w.delegations[p], CastVote(w, v).delegations[p])
  {}

  lemma DelegationStep(w: World, step: Step, p: string)
    requires p in Next(w, step).delegations
    ensures || (p in w.delegations && SameHandover(w.delegations[p], Next(w, step).delegations[p]))
            || (step.HandedOver? && HandoverAccepted(w, step.handover) && step.handover.prefix == p
                && SameHandover(HandedDelegation(w, step.handover), Next(w, step).delegations[p]))
  {
    if step.Voted? {
      VoteKeepsHandover(w, step.vote, p);
    } else if !step.HandedOver? && !step.Revoked? && !step.Purged? {
      OthersLeaveDelegations(w, step);
    }
  }

  lemma OthersLeaveDelegations(w: World, step: Step)
    requires !step.Voted? && !step.HandedOver? && !step.Revoked? && !step.Purged?
    ensures Next(w, step).delegations == w.delegations
  {
    if step.Guarded? {
      GuardLeavesDelegations(w, step.call);
    } else if step.WindowPassed? {
      SweepLeavesDelegations(w, step.id, step.outcome);
    }
  }

  lemma GuardLeavesDelegations(w: World, c: Call)
    ensures GuardAction(w, c).delegations == w.delegations
  {}

  lemma SweepLeavesDelegations(w: World, id: string, outcome: Outcome)
    ensures ExecuteDue(w, id, outcome).delegations == w.delegations
  {}

  /** Only a delegator hands over the vote, while having one, and for at most thirty days. */
  lemma {:induction false} OnlyTheDelegatorDelegates(worlds: seq<World>, steps: seq<Step>, i: nat, p: string) returns (k: nat)
    requires IsRun(worlds, steps) && i < |worlds| && p in worlds[i].delegations
    ensures k < i && var d := worlds[i].delegations[p];
            && steps[k].HandedOver? && steps[k].handover.actor == d.delegator
            && DelegatorMembership(worlds[k].groups, d.delegator, d.group)
            && worlds[k].now < d.expiresAt <= worlds[k].now + MAX_DELEGATION_TTL
  {
    assert Follows(worlds, steps, i - 1);
    DelegationStep(worlds[i - 1], steps[i - 1], p);
    if steps[i - 1].HandedOver? && HandoverAccepted(worlds[i - 1], steps[i - 1].handover) && steps[i - 1].handover.prefix == p {
      k := i - 1;
    } else {
      k := OnlyTheDelegatorDelegates(worlds, steps, i - 1, p);
    }
  }

  // --- The veto window ----------------------------------------------------------------------

  predicate Waiting(r: Request) { r.level.Veto? && (r.status.Scheduled? || r.status.Executed?) }

  /** The same votes wait no less than before. */
  predicate WaitsOn(r: Request, s: Request) {
    s.votes == r.votes && s.action == r.action && Waiting(r) && ExecutionTime(r) <= ExecutionTime(s)
  }

  /** The veto window that opened with the latest vote has passed at time t. */
  predicate WindowPassedBy(w: World, step: Step, id: string, r: Request, t: Time) {
    && r.votes != [] && CastAt(w, step, id, r.votes[|r.votes| - 1])
    && w.Policy(r.action).vetoWindow > 0 && w.now + w.Policy(r.action).vetoWindow <= t
  }

  /** The earliest moment a scheduled request can be executed, or the moment it was. */
  function ExecutionTime(r: Request): Time {
    if r.status.Scheduled? && r.executeAfter.Some? then r.executeAfter.value
    else if r.decidedAt.Some? then r.decidedAt.value else 0
  }

  lemma VoteOpensWindow(w: World, step: Step, id: string, r: Request, s: Request)
    requires GoodRequest(r) && id in w.requests && w.requests[id] == r && VotedNow(w, step, id, r, s) && Waiting(s)
    ensures WindowPassedBy(w, step, id, s, ExecutionTime(s))
  {
    var v := VoteFor(w, step.vote);
    TallyWaits(r, v, w.now, w.Policy(r.action).vetoWindow);
    assert CastAt(w, step, id, v);
  }

  lemma TallyWaits(r: Request, v: Vote, now: Time, vetoWindow: int)
    requires GoodRequest(r) && !Final(r.status)
    ensures var s := Tally(r, v, now, vetoWindow);
            s.votes == r.votes + [v] && s.action == r.action && (Waiting(s) ==> ExecutionTime(s) == now + vetoWindow)
  {
    if v.approve {
      ApprovingVoteCounts(r, v);
      ApprovalWaits(r, v, now, vetoWindow);
    } else {
      RejectionWaits(r, v, now, vetoWindow);
    }
  }

  lemma RejectionWaits(r: Request, v: Vote, now: Time, vetoWindow: int)
    requires !v.approve
    ensures var s := Tally(r, v, now, vetoWindow); s.votes == r.votes + [v] && s.action == r.action && !Waiting(s)
  {}

  lemma ApprovalWaits(r: Request, v: Vote, now: Time, vetoWindow: int)
    requires v.approve && (r.level.Veto? ==> ApprovalCount(r.votes + [v]) >= r.quorum)
    ensures var s := Tally(r, v, now, vetoWindow);
            s.votes == r.votes + [v] && s.action == r.action && (Waiting(s) ==> ExecutionTime(s) == now + vetoWindow)
  {}

  lemma OthersWait(w: World, step: Step, id: string, r: Request, s: Request)
    requires GoodRequest(r) && Moves(w, step, id, r, s) && !VotedNow(w, step, id, r, s) && Waiting(s)
    ensures WaitsOn(r, s)
  {}

  /** One step keeps the waiting time, or is a vote that starts a new window. */
  lemma WaitStep(w: World, step: Step, id: string)
    requires GoodRequests(w.requests) && id in Next(w, step).requests && Waiting(Next(w, step).requests[id])
    ensures id in w.requests
    ensures var r, s := w.requests[id], Next(w, step).requests[id];
            WaitsOn(r, s) || WindowPassedBy(w, step, id, s, ExecutionTime(s))
  {
    if id !in w.requests {
      NewMeansOpened(w, step, id);
      assert false;
    }
    StepMoves(w, step, id);
    var r, s := w.requests[id], Next(w, step).requests[id];
    if VotedNow(w, step, id, r, s) {
      VoteOpensWindow(w, step, id, r, s);
    } else {
      OthersWait(w, step, id, r, s);
    }
  }

  lemma WaitInRun(worlds: seq<World>, steps: seq<Step>, i: nat, id: string)
    requires IsRun(worlds, steps) && i < |steps| && id in worlds[i + 1].requests && Waiting(worlds[i + 1].requests[id])
    ensures id in worlds[i].requests
    ensures var s := worlds[i + 1].requests[id];
            WaitsOn(worlds[i].requests[id], s) || WindowPassedBy(worlds[i], steps[i], id, s, ExecutionTime(s))
  {
    RunsAreGood(worlds, steps, i);
    assert Follows(worlds, steps, i);
    WaitStep(worlds[i], steps[i], id);
  }

  /** A veto-level request waits out the window of its latest vote, whoever executes it and however often it is retried. */
  lemma {:induction false} VetoWindowIsWaitedOut(worlds: seq<World>, steps: seq<Step>, i: nat, id: string) returns (k: nat)
    requires IsRun(worlds, steps) && i < |worlds| && id in worlds[i].requests && Waiting(worlds[i].requests[id])
    ensures k < i && var r := worlds[i].requests[id]; WindowPassedBy(worlds[k], steps[k], id, r, ExecutionTime(r))
  {
    WaitInRun(worlds, steps, i - 1, id);
    if WaitsOn(worlds[i - 1].requests[id], worlds[i].requests[id]) {
      k := VetoWindowIsWaitedOut(worlds, steps, i - 1, id);
    } else {
      k := i - 1;
    }
  }

  /** No action is done on a veto-level request before the window of its latest approving vote has passed. */
  lemma NoEarlyExecution(worlds: seq<World>, steps: seq<Step>, i: nat, n: nat) returns (k: nat)
    requires IsRun(worlds, steps) && i < |worlds| && n < |worlds[i].performed|
    requires var p := worlds[i].performed[n];
             OnRequest(p.authority) && p.authority.id in worlds[i].requests && worlds[i].requests[p.authority.id].level.Veto?
    ensures k < i && var p := worlds[i].performed[n]; var r := worlds[i].requests[p.authority.id];
            r.votes != [] && r.votes[|r.votes| - 1].approve && WindowPassedBy(worlds[k], steps[k], p.authority.id, r, p.at)
  {
    RunsAreGood(worlds, steps, i);
    var p := worlds[i].performed[n];
    assert GoodPerformance(worlds[i].requests, p);
    k := VetoWindowIsWaitedOut(worlds, steps, i, p.authority.id);
  }

  // --- Execution ------------------------------------------------------------------------------

  /**
   * Every action done on a request happened once, did what the request describes (and what the votes
   * were about, since that never changes), had the quorum behind it, and the due pass did it only at veto level.
   */
  lemma ExecutedOnceAsVoted(worlds: seq<World>, steps: seq<Step>, i: nat, n: nat)
    requires IsRun(worlds, steps) && i < |worlds| && n < |worlds[i].performed| && OnRequest(worlds[i].performed[n].authority)
    ensures var p := worlds[i].performed[n];
            && p.authority.id in worlds[i].requests
            && var r := worlds[i].requests[p.authority.id];
            && AsDescribed(p, r) && r.status.Executed? && AllApprove(r.votes) && |r.votes| >= r.quorum >= 1
            && (p.authority.BySweep? ==> r.level.Veto? && HasExecutor(r.action))
    ensures forall m :: 0 <= m < |worlds[i].performed| && m != n && OnRequest(worlds[i].performed[m].authority) ==>
              worlds[i].performed[m].authority.id != worlds[i].performed[n].authority.id
  {
    RunsAreGood(worlds, steps, i);
    assert GoodPerformance(worlds[i].requests, worlds[i].performed[n]);
  }

  // --- Cancelling -----------------------------------------------------------------------------

  /** Once closed without execution, a request is never executed. */
  lemma ClosedIsNeverExecuted(worlds: seq<World>, steps: seq<Step>, i: nat, j: nat, id: string)
    requires IsRun(worlds, steps) && i <= j < |worlds| && id in worlds[i].requests
    requires Final(worlds[i].requests[id].status) && !worlds[i].requests[id].status.Executed?
    ensures id in worlds[j].requests && worlds[j].requests[id] == worlds[i].requests[id]
    ensures forall n :: 0 <= n < |worlds[j].performed| && OnRequest(worlds[j].performed[n].authority) ==>
              worlds[j].performed[n].authority.id != id
  {
    RequestsOnlyMoveForward(worlds, steps, i, j, id);
    RunsAreGood(worlds, steps, j);
    forall n | 0 <= n < |worlds[j].performed| && OnRequest(worlds[j].performed[n].authority)
      ensures worlds[j].performed[n].authority.id != id
    {
      assert GoodPerformance(worlds[j].requests, worlds[j].performed[n]);
    }
  }

  /** A request still open to execution can be stopped for good by its requester and by any member of its group. */
  lemma CancelStopsForGood(worlds: seq<World>, steps: seq<Step>, i: nat, j: nat, id: string, actor: string)
    requires IsRun(worlds, steps) && i < j < |worlds| && steps[i] == Cancelled(id, actor)
    requires id in worlds[i].requests && !Final(worlds[i].requests[id].status)
    requires actor == worlds[i].requests[id].requester || worlds[i].Member(worlds[i].requests[id].group, actor)
    ensures id in worlds[j].requests
    ensures worlds[j].requests[id].status == if worlds[i].requests[id].status.Scheduled? then Vetoed else Rejected
    ensures forall n :: 0 <= n < |worlds[j].performed| && OnRequest(worlds[j].performed[n].authority) ==>
              worlds[j].performed[n].authority.id != id
  {
    assert Follows(worlds, steps, i);
    ClosedIsNeverExecuted(worlds, steps, i + 1, j, id);
  }

  // --- Deadlines --------------------------------------------------------------------------------

  predicate Hit(w: World, step: Step, id: string) {
    step == DeadlinePassed(id) && id in w.requests && Overdue(w.requests[id], w.now)
  }

  function HitCount(worlds: seq<World>, steps: seq<Step>, id: string, n: nat): nat
    requires n <= |steps| && |worlds| == |steps| + 1
  {
    if n == 0 then 0 else HitCount(worlds, steps, id, n - 1) + if Hit(worlds[n - 1], steps[n - 1], id) then 1 else 0
  }

  function EscalationCount(worlds: seq<World>, steps: seq<Step>, id: string, n: nat): nat
    requires n <= |steps| && |worlds| == |steps| + 1
  {
    if n == 0 then 0
    else EscalationCount(worlds, steps, id, n - 1)
         + if Hit(worlds[n - 1], steps[n - 1], id) && id in worlds[n].requests && worlds[n].requests[id].status.Escalated?
           then 1 else 0
  }

  /** A hit escalates or closes; it performs nothing and never makes a request executable. */
  lemma HitUsesUp(w: World, id: string)
    requires GoodWorld(w) && Hit(w, DeadlinePassed(id), id)
    ensures var w' := Next(w, DeadlinePassed(id));
            && w'.performed == w.performed && id in w'.requests
            && (w'.requests[id].status.Escalated? || w'.requests[id].status.Expired?)
            && HitsLeft(w'.requests[id]) < HitsLeft(w.requests[id])
            && (w'.requests[id].status.Escalated? ==> !w.requests[id].escalated)
  {
    assert GoodRequest(w.requests[id]);
  }

  function HitsLeftIn(w: World, id: string): nat { if id in w.requests then HitsLeft(w.requests[id]) else 2 }

  function EscalationsLeftIn(w: World, id: string): nat {
    if id in w.requests && w.requests[id].escalated then 0 else 1
  }

  lemma HitStep(w: World, step: Step, id: string)
    requires GoodWorld(w)
    ensures HitsLeftIn(Next(w, step), id) + (if Hit(w, step, id) then 1 else 0) <= HitsLeftIn(w, id)
  {
    if id in w.requests {
      StepContinues(w, step, id);
      if Hit(w, step, id) { HitUsesUp(w, id); }
    }
  }

  predicate Escalates(w: World, step: Step, id: string) {
    Hit(w, step, id) && id in Next(w, step).requests && Next(w, step).requests[id].status.Escalated?
  }

  lemma EscalationStep(w: World, step: Step, id: string)
    requires GoodWorld(w)
    ensures EscalationsLeftIn(Next(w, step), id) + (if Escalates(w, step, id) then 1 else 0) <= EscalationsLeftIn(w, id)
  {
    if id in w.requests {
      StepContinues(w, step, id);
      if Escalates(w, step, id) {
        HitUsesUp(w, id);
        assert GoodRequest(w.requests[id]);
      }
    }
  }

  lemma CountsInRun(worlds: seq<World>, steps: seq<Step>, id: string, n: nat)
    requires IsRun(worlds, steps) && 0 < n <= |steps|
    ensures HitsLeftIn(worlds[n], id) + (HitCount(worlds, steps, id, n) - HitCount(worlds, steps, id, n - 1))
            <= HitsLeftIn(worlds[n - 1], id)
    ensures EscalationsLeftIn(worlds[n], id) + (EscalationCount(worlds, steps, id, n) - EscalationCount(worlds, steps, id, n - 1))
            <= EscalationsLeftIn(worlds[n - 1], id)
  {
    RunsAreGood(worlds, steps, n - 1);
    assert Follows(worlds, steps, n - 1);
    HitStep(worlds[n - 1], steps[n - 1], id);
    EscalationStep(worlds[n - 1], steps[n - 1], id);
  }

  /** Over any run, whatever the policies become, a request is escalated at most once and hit at most twice. */
  lemma {:induction false} DeadlineHitsAreBounded(worlds: seq<World>, steps: seq<Step>, id: string, n: nat)
    requires IsRun(worlds, steps) && n <= |steps|
    ensures HitCount(worlds, steps, id, n) + HitsLeftIn(worlds[n], id) <= 2
    ensures EscalationCount(worlds, steps, id, n) + EscalationsLeftIn(worlds[n], id) <= 1
  {
    if n > 0 {
      DeadlineHitsAreBounded(worlds, steps, id, n - 1);
      CountsInRun(worlds, steps, id, n);
    }
  }

  lemma EscalatedMove(w: World, step: Step, id: string, r: Request, s: Request)
    requires Moves(w, step, id, r, s) && s.status.Escalated?
    ensures (r.status.Escalated? || Overdue(r, w.now)) && s.expiresAt == r.expiresAt
  {}

  lemma ClockAdvances(w: World, step: Step)
    ensures w.now <= Next(w, step).now
  {}

  lemma EscalatedStep(w: World, step: Step, id: string)
    requires id in w.requests && id in Next(w, step).requests && Next(w, step).requests[id].status.Escalated?
    ensures w.requests[id].status.Escalated? || Overdue(w.requests[id], w.now)
    ensures Next(w, step).requests[id].expiresAt == w.requests[id].expiresAt
  {
    StepMoves(w, step, id);
    EscalatedMove(w, step, id, w.requests[id], Next(w, step).requests[id]);
  }

  lemma EscalatedInRun(worlds: seq<World>, steps: seq<Step>, i: nat, id: string)
    requires IsRun(worlds, steps) && i < |steps| && id in worlds[i + 1].requests && worlds[i + 1].requests[id].status.Escalated?
    ensures id in worlds[i].requests && (worlds[i].requests[id].status.Escalated? || Overdue(worlds[i].requests[id], worlds[i].now))
    ensures worlds[i + 1].requests[id].expiresAt == worlds[i].requests[id].expiresAt && worlds[i].now <= worlds[i + 1].now
  {
    assert Follows(worlds, steps, i);
    if id !in worlds[i].requests {
      NewMeansOpened(worlds[i], steps[i], id);
      assert false;
    }
    EscalatedStep(worlds[i], steps[i], id);
    ClockAdvances(worlds[i], steps[i]);
  }

  /** Escalation does not move the deadline: in every run, an escalated request is overdue all the time. */
  lemma {:induction false} EscalatedIsOverdue(worlds: seq<World>, steps: seq<Step>, i: nat, id: string)
    requires IsRun(worlds, steps) && i < |worlds| && id in worlds[i].requests && worlds[i].requests[id].status.Escalated?
    ensures Overdue(worlds[i].requests[id], worlds[i].now)
  {
    EscalatedInRun(worlds, steps, i - 1, id);
    if worlds[i - 1].requests[id].status.Escalated? {
      EscalatedIsOverdue(worlds, steps, i - 1, id);
    }
  }

  /** So the next deadline pass closes it, however soon that comes and whatever the policy says. */
  lemma EscalationGrantsNoTime(worlds: seq<World>, steps: seq<Step>, i: nat, id: string)
    requires IsRun(worlds, steps) && i < |steps| && id in worlds[i].requests && worlds[i].requests[id].status.Escalated?
    requires steps[i] == DeadlinePassed(id)
    ensures id in worlds[i + 1].requests && worlds[i + 1].requests[id].status.Expired?
  {
    EscalatedIsOverdue(worlds, steps, i, id);
    RunsAreGood(worlds, steps, i);
    assert Follows(worlds, steps, i);
    assert GoodRequest(worlds[i].requests[id]);
  }

  // --- Nothing happens unaccounted for -------------------------------------------------------------

  /** The step had the right to do what it did: no guard, a recorded override, or a request ready to execute. */
  predicate Accounted(w: World, step: Step, p: Performance) {
    && p.at == w.now
    && match p.authority
       case Unguarded(actor) =>
         step.Guarded? && step.call.actor == actor && step.call.action == p.action && !GuardApplies(w, p.action)
       case BreakGlass(actor) =>
         && step.Guarded? && step.call.actor == actor && |step.call.reason| >= 20
         && Next(w, step).overrides == w.overrides + [Override(actor, p.action, p.target.id, step.call.reason)]
       case ByHand(id, actor) =>
         && step.Guarded? && step.call.actor == actor && step.call.approval == id && GuardApplies(w, p.action)
         && id in w.requests && MayExecute(w.requests[id], w.now)
       case BySweep(id) =>
         step.WindowPassed? && step.id == id && id in w.requests && Due(w.requests[id], w.now)
  }

  lemma HandPerforms(w: World, id: string, c: Call)
    ensures var done := ExecuteApproved(w, id, c).performed;
            || done == w.performed
            || (id in w.requests && MayExecute(w.requests[id], w.now)
                && done == w.performed + [Performance(ByHand(id, c.actor), c.action, c.target, w.now)])
  {}

  lemma GuardPerforms(w: World, c: Call)
    ensures var done := GuardAction(w, c).performed;
            done == w.performed || (|done| == |w.performed| + 1 && done[..|w.performed|] == w.performed
                                    && Accounted(w, Guarded(c), done[|w.performed|]))
  {
    if GuardApplies(w, c.action) && c.approval != "" {
      HandPerforms(w, c.approval, c);
    } else if GuardApplies(w, c.action) && c.breakGlass && |c.reason| >= 20 {
      assert Next(w, Guarded(c)).overrides == w.overrides + [Override(c.actor, c.action, c.target.id, c.reason)];
    }
  }

  lemma OnePerformance(w: World, step: Step)
    ensures var done := Next(w, step).performed;
            done == w.performed || exists p :: done == w.performed + [p] && Accounted(w, step, p)
  {
    var done := Next(w, step).performed;
    if step.Guarded? {
      GuardPerforms(w, step.call);
      assert done == w.performed || done == w.performed + [done[|w.performed|]];
    } else if done != w.performed {
      assert done == w.performed + [done[|w.performed|]];
    }
  }

  /** Every guarded action done in a run is accounted for by the step that did it. */
  lemma {:induction false} EveryActionIsAccounted(worlds: seq<World>, steps: seq<Step>, i: nat, n: nat) returns (k: nat)
    requires IsRun(worlds, steps) && i < |worlds| && n < |worlds[i].performed|
    ensures k < i && Accounted(worlds[k], steps[k], worlds[i].performed[n])
  {
    assert Follows(worlds, steps, i - 1);
    OnePerformance(worlds[i - 1], steps[i - 1]);
    if n < |worlds[i - 1].performed| {
      k := EveryActionIsAccounted(worlds, steps, i - 1, n);
    } else {
      k := i - 1;
    }
  }
}
