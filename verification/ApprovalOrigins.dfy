/** Where delegated votes, groups and revocations come from, over whole runs. */
module ApprovalOrigins {
  import opened Text
  import opened Approvals
  import opened ApprovalRuns
  import opened ApprovalHistory
  import opened ApprovalUse
  import opened ApprovalEffects

  // --- Delegated votes ------------------------------------------------------------------------------------

  /**
   * Every vote cast for somebody else was cast by a call that presented the token of a delegation in force from the
   * voter to the caller and covering the group, with a password, both of which matched.
   */
  lemma DelegatedVotesWereProven(worlds: seq<World>, steps: seq<Step>, i: nat, id: string, n: nat)
      returns (k: nat, p: string, secret: string)
    requires IsRun(worlds, steps) && i < |worlds| && id in worlds[i].requests && n < |worlds[i].requests[id].votes|
    requires worlds[i].requests[id].votes[n].castBy != ""
    ensures k < i && steps[k].Voted? && steps[k].vote.id == id && id in worlds[k].requests
    ensures ActsFor(worlds[k], steps[k].vote, worlds[k].requests[id].group, p, secret)
    ensures worlds[i].requests[id].votes[n] ==
            Vote(worlds[k].delegations[p].delegator, steps[k].vote.caller, steps[k].vote.approve, worlds[k].now)
  {
    k := EveryVoteWasCast(worlds, steps, i, id, n);
    var w, v := worlds[k], steps[k].vote;
    secret := BallotNeeds(w, w.requests[id], v);
    p := BallotOf(w, w.requests[id], v).value.via.value;
  }

  // --- Cancelling -------------------------------------------------------------------------------------------

  /** In every run a cancel changes the request if and only if somebody with a say makes it in time, and otherwise nothing at all. */
  lemma CancelChangesExactlyWhen(worlds: seq<World>, steps: seq<Step>, i: nat, id: string, actor: string)
    requires IsRun(worlds, steps) && i < |steps| && steps[i] == Cancelled(id, actor)
    ensures worlds[i + 1] != worlds[i] <==>
            && id in worlds[i].requests && worlds[i].requests[id].status !in {Rejected, Vetoed, Expired, Executed}
            && HasASay(worlds[i], worlds[i].requests[id], actor)
  {
    assert Follows(worlds, steps, i);
    Cancelling(worlds[i], id, actor);
    if worlds[i + 1] != worlds[i] || id !in worlds[i].requests {
    } else {
      assert worlds[i + 1].requests[id].status == worlds[i].requests[id].status;
    }
  }

  // --- The group of a request ---------------------------------------------------------------------------------

  /** The group is that of the policy the request was opened under. */
  predicate GroupOfOpening(w: World, step: Step, id: string, group: string) {
    && step.Guarded? && step.call.freshId == id && id !in w.requests && Held(w, w.Policy(step.call.action))
    && group == w.Policy(step.call.action).group
  }

  /** The group is the fallback of the policy in force when the deadline passed for the first time. */
  predicate GroupOfFallback(w: World, step: Step, id: string, group: string) {
    && step == DeadlinePassed(id) && id in w.requests && !w.requests[id].escalated
    && w.requests[id].status in {Pending, Escalated} && w.requests[id].expiresAt <= w.now
    && group == w.Policy(w.requests[id].action).fallback != ""
  }

  predicate SameGroup(r: Request, s: Request) { s.group == r.group && s.escalated == r.escalated }

  lemma GroupMoves(w: World, step: Step, id: string)
    requires id in w.requests && id in Next(w, step).requests
    ensures var r, s := w.requests[id], Next(w, step).requests[id];
            SameGroup(r, s) || (s.escalated && GroupOfFallback(w, step, id, s.group))
  {
    if step == DeadlinePassed(id) {
      DeadlineReached(w, id);
    } else {
      OnlyDeadlinesEscalate(w, step, id);
    }
  }

  lemma OnlyDeadlinesEscalate(w: World, step: Step, id: string)
    requires id in w.requests && id in Next(w, step).requests && step != DeadlinePassed(id)
    ensures SameGroup(w.requests[id], Next(w, step).requests[id])
  {
    if step.Guarded? {
      GuardKeepsGroup(w, step.call, id);
    } else if step.Voted? {
      VoteKeepsGroup(w, step.vote, id);
    } else if step.WindowPassed? {
      SweepKeepsGroup(w, step.id, step.outcome, id);
    } else if step.Cancelled? {
      Cancelling(w, step.id, step.actor);
    } else if step.DeadlinePassed? {
      DeadlineReached(w, step.id);
    } else {
      OthersLeaveRequests(w, step);
    }
  }

  lemma GuardKeepsGroup(w: World, c: Call, id: string)
    requires id in w.requests
    ensures id in GuardAction(w, c).requests && SameGroup(w.requests[id], GuardAction(w, c).requests[id])
  {
    HandMoves(w, c.approval, c, id);
  }

  lemma VoteKeepsGroup(w: World, v: VoteCall, id: string)
    requires id in w.requests
    ensures id in CastVote(w, v).requests && SameGroup(w.requests[id], CastVote(w, v).requests[id])
  {}

  lemma SweepKeepsGroup(w: World, due: string, outcome: Outcome, id: string)
    requires id in w.requests
    ensures id in ExecuteDue(w, due, outcome).requests && SameGroup(w.requests[id], ExecuteDue(w, due, outcome).requests[id])
  {}

  lemma OpenedGroup(w: World, step: Step, id: string)
    requires id !in w.requests && id in Next(w, step).requests
    ensures !Next(w, step).requests[id].escalated && GroupOfOpening(w, step, id, Next(w, step).requests[id].group)
  {
    NewMeansOpened(w, step, id);
    HeldOtherwise(w, step.call);
  }

  lemma GroupInRun(worlds: seq<World>, steps: seq<Step>, i: nat, id: string)
    requires IsRun(worlds, steps) && i < |steps| && id in worlds[i + 1].requests
    ensures var s := worlds[i + 1].requests[id];
            if id in worlds[i].requests
            then SameGroup(worlds[i].requests[id], s) || (s.escalated && GroupOfFallback(worlds[i], steps[i], id, s.group))
            else !s.escalated && GroupOfOpening(worlds[i], steps[i], id, s.group)
  {
    assert Follows(worlds, steps, i);
    if id in worlds[i].requests { GroupMoves(worlds[i], steps[i], id); } else { OpenedGroup(worlds[i], steps[i], id); }
  }

  /**
   * In every run the group of a request is the one of the policy it was opened under until its one escalation, and
   * from then on the fallback of the policy in force at that moment.
   */
  lemma {:induction false} GroupGoesBack(worlds: seq<World>, steps: seq<Step>, i: nat, id: string) returns (k: nat)
    requires IsRun(worlds, steps) && i < |worlds| && id in worlds[i].requests
    ensures k < i
    ensures var r := worlds[i].requests[id];
            if r.escalated then GroupOfFallback(worlds[k], steps[k], id, r.group) else GroupOfOpening(worlds[k], steps[k], id, r.group)
  {
    GroupInRun(worlds, steps, i - 1, id);
    if id in worlds[i - 1].requests && SameGroup(worlds[i - 1].requests[id], worlds[i].requests[id]) {
      k := GroupGoesBack(worlds, steps, i - 1, id);
    } else {
      k := i - 1;
    }
  }

  // --- Delegations --------------------------------------------------------------------------------------------

  /** The step revokes the delegation rightfully. */
  predicate RevokedRightly(w: World, step: Step, p: string) {
    && step.Revoked? && step.prefix == p && p in w.delegations
    && (step.isAdmin || step.actor == w.delegations[p].delegator)
  }

  lemma RevocationStep(w: World, step: Step, p: string)
    requires p in Next(w, step).delegations && Next(w, step).delegations[p].revokedAt.Some?
    ensures p in w.delegations
    ensures var d, e := w.delegations[p], Next(w, step).delegations[p];
            (d.revokedAt == e.revokedAt && d.delegator == e.delegator) || (RevokedRightly(w, step, p) && e.revokedAt == Some(w.now))
  {
    if step.Voted? {
      VoteKeepsHandover(w, step.vote, p);
    } else if !step.HandedOver? && !step.Revoked? && !step.Purged? {
      OthersLeaveDelegations(w, step);
    }
  }

  /** Every revocation was made by the delegator or an administrator, at the recorded time. */
  lemma {:induction false} OnlyTheirOwnersRevoke(worlds: seq<World>, steps: seq<Step>, i: nat, p: string) returns (k: nat)
    requires IsRun(worlds, steps) && i < |worlds| && p in worlds[i].delegations && worlds[i].delegations[p].revokedAt.Some?
    ensures k < i && RevokedRightly(worlds[k], steps[k], p) && worlds[i].delegations[p].revokedAt == Some(worlds[k].now)
  {
    assert Follows(worlds, steps, i - 1);
    RevocationStep(worlds[i - 1], steps[i - 1], p);
    if worlds[i - 1].delegations[p].revokedAt == worlds[i].delegations[p].revokedAt {
      k := OnlyTheirOwnersRevoke(worlds, steps, i - 1, p);
    } else {
      k := i - 1;
    }
  }

  /** Every stored delegation was handed over under all the conditions for it, and describes what was handed over. */
  lemma EveryHandoverWasAllowed(worlds: seq<World>, steps: seq<Step>, i: nat, p: string) returns (k: nat)
    requires IsRun(worlds, steps) && i < |worlds| && p in worlds[i].delegations
    ensures k < i && steps[k].HandedOver? && MayHandOver(worlds[k], steps[k].handover)
    ensures var h, d := steps[k].handover, worlds[i].delegations[p];
            && h.prefix == p && d.delegator == h.actor && d.delegate == h.delegate && d.group == h.group
            && d.createdAt == worlds[k].now && d.expiresAt == worlds[k].now + h.ttl
  {
    k := HandoverGoesBack(worlds, steps, i, p);
  }

  lemma {:induction false} HandoverGoesBack(worlds: seq<World>, steps: seq<Step>, i: nat, p: string) returns (k: nat)
    requires IsRun(worlds, steps) && i < |worlds| && p in worlds[i].delegations
    ensures k < i && steps[k].HandedOver? && HandoverAccepted(worlds[k], steps[k].handover) && steps[k].handover.prefix == p
    ensures SameHandover(HandedDelegation(worlds[k], steps[k].handover), worlds[i].delegations[p])
  {
    assert Follows(worlds, steps, i - 1);
    DelegationStep(worlds[i - 1], steps[i - 1], p);
    if p in worlds[i - 1].delegations && SameHandover(worlds[i - 1].delegations[p], worlds[i].delegations[p]) {
      k := HandoverGoesBack(worlds, steps, i - 1, p);
    } else {
      k := i - 1;
    }
  }
}
