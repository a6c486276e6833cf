/** What holds of every request in every run of the approval protocol. */
module ApprovalRuns {
  import opened Text
  import opened Approvals

  // --- What every state satisfies ---------------------------------------------------

  predicate AllApprove(votes: seq<Vote>) {
    forall i :: 0 <= i < |votes| ==> votes[i].approve
  }

  /** One vote each, and none by the requester. */
  predicate FairVotes(votes: seq<Vote>, requester: string) {
    && (forall i, j :: 0 <= i < j < |votes| ==> votes[i].voter != votes[j].voter)
    && (forall i :: 0 <= i < |votes| ==> votes[i].voter != requester)
  }

  predicate Granted(s: Status) { s.Approved? || s.Scheduled? || s.Executed? }

  predicate Open(s: Status) { s.Pending? || s.Escalated? }

  /** The votes behind an open, approved, scheduled or executed request are unanimous. */
  predicate GoodTally(r: Request) {
    && (Open(r.status) ==> AllApprove(r.votes) && |r.votes| < r.quorum)
    && (Granted(r.status) ==> AllApprove(r.votes) && |r.votes| >= r.quorum)
  }

  predicate GoodFields(r: Request) {
    && r.quorum >= 1 && !r.level.Audit? && (r.level.Veto? ==> r.quorum == 1)
    && (r.status.Pending? ==> !r.escalated) && (r.status.Escalated? ==> r.escalated)
    && (r.status.Approved? ==> r.level.Quorum?)
    && (r.status.Scheduled? ==> r.level.Veto? && r.executeAfter.Some?)
    && (r.status.Executed? ==> r.decidedAt.Some?)
  }

  predicate GoodRequest(r: Request) {
    GoodFields(r) && FairVotes(r.votes, r.requester) && GoodTally(r)
  }

  predicate GoodRequests(requests: map<string, Request>) {
    forall id :: id in requests ==> GoodRequest(requests[id])
  }

  /** The action is the one the request describes. */
  predicate AsDescribed(p: Performance, r: Request) {
    && p.action == r.action && p.target.id == r.target.id
    && p.target.summary == r.target.summary && p.target.payload == r.target.payload
  }

  /** An action done on a request did exactly what the request describes, and used it up. */
  predicate UsedUp(p: Performance, r: Request) {
    && r.status.Executed? && r.decidedAt == Some(p.at) && AsDescribed(p, r)
    && (p.authority.BySweep? ==> r.level.Veto? && HasExecutor(r.action))
  }

  predicate GoodPerformance(requests: map<string, Request>, p: Performance) {
    OnRequest(p.authority) ==> p.authority.id in requests && UsedUp(p, requests[p.authority.id])
  }

  /** Two actions done on requests were done on different requests. */
  predicate OncePerRequest(done: seq<Performance>) {
    forall i, j :: 0 <= i < j < |done| && OnRequest(done[i].authority) && OnRequest(done[j].authority)
      ==> done[i].authority.id != done[j].authority.id
  }

  predicate GoodLog(requests: map<string, Request>, done: seq<Performance>) {
    OncePerRequest(done) && forall i :: 0 <= i < |done| ==> GoodPerformance(requests, done[i])
  }

  predicate NoRepeats<T(==)>(s: seq<T>) {
    forall i, j :: 0 <= i < j < |s| ==> s[i] != s[j]
  }

  predicate GoodGroups(groups: map<string, seq<string>>) {
    forall g :: g in groups ==> |groups[g]| >= 2 && NoRepeats(groups[g]) && "" !in groups[g]
  }

  predicate GoodDelegation(d: Delegation) {
    && d.delegator != "" && d.delegate != "" && d.delegate != d.delegator
    && d.createdAt < d.expiresAt <= d.createdAt + MAX_DELEGATION_TTL
  }

  predicate GoodDelegations(delegations: map<string, Delegation>) {
    forall p :: p in delegations ==> GoodDelegation(delegations[p])
  }

  predicate GoodWorld(w: World) {
    && GoodRequests(w.requests) && GoodLog(w.requests, w.performed)
    && GoodGroups(w.groups) && GoodDelegations(w.delegations)
  }

  // --- Each step keeps it ---------------------------------------------------------------

  /** Changing a request that has not been executed disturbs neither the others nor the log. */
  lemma AmendKeeps(requests: map<string, Request>, done: seq<Performance>, id: string, r: Request)
    requires GoodRequests(requests) && GoodLog(requests, done) && GoodRequest(r)
    requires id in requests ==> !requests[id].status.Executed?
    ensures GoodRequests(requests[id := r]) && GoodLog(requests[id := r], done)
    ensures forall i :: 0 <= i < |done| && OnRequest(done[i].authority) ==> done[i].authority.id != id
  {
    forall i | 0 <= i < |done| && OnRequest(done[i].authority)
      ensures done[i].authority.id != id && GoodPerformance(requests[id := r], done[i])
    {
      assert GoodPerformance(requests, done[i]);
    }
  }

  lemma AppendKeeps(requests: map<string, Request>, done: seq<Performance>, p: Performance)
    requires GoodLog(requests, done) && GoodPerformance(requests, p)
    requires OnRequest(p.authority) ==>
               forall i :: 0 <= i < |done| && OnRequest(done[i].authority) ==> done[i].authority.id != p.authority.id
    ensures GoodLog(requests, done + [p])
  {}

  lemma {:induction false} UnanimousCount(votes: seq<Vote>)
    ensures ApprovalCount(votes) == |votes| <==> AllApprove(votes)
  {
    if votes != [] {
      var before := votes[..|votes| - 1];
      UnanimousCount(before);
      assert AllApprove(votes) <==> AllApprove(before) && votes[|votes| - 1].approve;
    }
  }

  lemma OneMoreVote(votes: seq<Vote>, vote: Vote, requester: string)
    requires FairVotes(votes, requester) && vote.voter != requester && !VotedBy(votes, vote.voter)
    ensures FairVotes(votes + [vote], requester)
  {}

  lemma ApprovingVoteCounts(r: Request, vote: Vote)
    requires GoodTally(r) && !Final(r.status) && vote.approve
    ensures AllApprove(r.votes + [vote]) && ApprovalCount(r.votes + [vote]) == |r.votes| + 1
  {
    UnanimousCount(r.votes + [vote]);
  }

  lemma TallyFields(r: Request, vote: Vote, now: Time, vetoWindow: int)
    requires GoodFields(r)
    ensures var s := Tally(r, vote, now, vetoWindow); GoodFields(s) && s.votes == r.votes + [vote] && s.requester == r.requester
  {}

  lemma TallyIsGood(r: Request, vote: Vote, now: Time, vetoWindow: int)
    requires GoodRequest(r) && !Final(r.status)
    requires vote.voter != r.requester && !VotedBy(r.votes, vote.voter)
    ensures GoodRequest(Tally(r, vote, now, vetoWindow))
  {
    OneMoreVote(r.votes, vote, r.requester);
    TallyFields(r, vote, now, vetoWindow);
    if vote.approve { ApprovingVoteCounts(r, vote); }
  }

  lemma GuardKeepsGood(w: World, c: Call)
    requires GoodWorld(w)
    ensures GoodWorld(GuardAction(w, c))
  {
    var id := c.approval;
    if !GuardApplies(w, c.action) {
      AppendKeeps(w.requests, w.performed, Performance(Unguarded(c.actor), c.action, c.target, w.now));
    } else if id != "" {
      ApprovedKeepsGood(w, id, c);
    } else if c.breakGlass {
      AppendKeeps(w.requests, w.performed, Performance(BreakGlass(c.actor), c.action, c.target, w.now));
    } else if Opens(w, c) {
      AmendKeeps(w.requests, w.performed, c.freshId, NewRequest(w, w.Policy(c.action), c));
    }
  }

  lemma ApprovedKeepsGood(w: World, id: string, c: Call)
    requires GoodWorld(w)
    ensures GoodWorld(ExecuteApproved(w, id, c))
  {
    if id in w.requests && SameDeed(w.requests[id], c) && MayExecute(w.requests[id], w.now) && c.succeeds {
      var r := w.requests[id].(status := Executed, decidedAt := Some(w.now));
      AmendKeeps(w.requests, w.performed, id, r);
      AppendKeeps(w.requests[id := r], w.performed, Performance(ByHand(id, c.actor), c.action, c.target, w.now));
    }
  }

  /** A failed attempt leaves a request that can be tried again, and any other leaves an executed one. */
  lemma DueRequestIsGood(w: World, id: string, outcome: Outcome)
    requires GoodRequests(w.requests) && id in w.requests && Due(w.requests[id], w.now) && HasExecutor(w.requests[id].action)
    ensures var r, w' := w.requests[id], ExecuteDue(w, id, outcome);
            && w' == w.(requests := w'.requests, performed := w'.performed)
            && id in w'.requests && w'.requests == w.requests[id := w'.requests[id]] && GoodRequest(w'.requests[id])
            && var p := Performance(BySweep(id), r.action, r.target, w.now);
            w'.performed == w.performed || (w'.performed == w.performed + [p] && UsedUp(p, w'.requests[id]))
  {
    assert GoodRequest(w.requests[id]);
  }

  lemma DueKeepsGood(w: World, id: string, outcome: Outcome)
    requires GoodWorld(w)
    ensures GoodWorld(ExecuteDue(w, id, outcome))
  {
    if id in w.requests && Due(w.requests[id], w.now) && HasExecutor(w.requests[id].action) {
      var r, w' := w.requests[id], ExecuteDue(w, id, outcome);
      DueRequestIsGood(w, id, outcome);
      AmendKeeps(w.requests, w.performed, id, w'.requests[id]);
      if w'.performed != w.performed {
        AppendKeeps(w'.requests, w.performed, Performance(BySweep(id), r.action, r.target, w.now));
      }
    }
  }

  lemma VoteKeepsGood(w: World, v: VoteCall)
    requires GoodWorld(w)
    ensures GoodWorld(CastVote(w, v))
  {
    if VoteAccepted(w, v) {
      var r, w' := w.requests[v.id], CastVote(w, v);
      TallyIsGood(r, VoteFor(w, v), w.now, w.Policy(r.action).vetoWindow);
      AmendKeeps(w.requests, w.performed, v.id, w'.requests[v.id]);
    }
  }

  lemma CancelKeepsGood(w: World, id: string, actor: string)
    requires GoodWorld(w)
    ensures GoodWorld(Cancel(w, id, actor))
  {
    if CancelAccepted(w, id, actor) {
      AmendKeeps(w.requests, w.performed, id, Cancel(w, id, actor).requests[id]);
    }
  }

  lemma DeadlineKeepsGood(w: World, id: string)
    requires GoodWorld(w)
    ensures GoodWorld(DeadlineHit(w, id))
  {
    if id in w.requests && Overdue(w.requests[id], w.now) {
      AmendKeeps(w.requests, w.performed, id, DeadlineHit(w, id).requests[id]);
    }
  }

  /** Cleaning a member list keeps exactly the names it holds, each once. */
  lemma {:induction false} DistinctKeepsNames(names: seq<string>)
    ensures NoRepeats(Distinct(names))
    ensures forall m :: m in Distinct(names) <==> m != "" && m in names
  {
    if names != [] {
      var init, last := names[..|names| - 1], names[|names| - 1];
      DistinctKeepsNames(init);
      assert names == init + [last];
    }
  }

  lemma GroupKeepsGood(w: World, name: string, title: string, raw: seq<string>)
    requires GoodWorld(w)
    ensures GoodWorld(SaveGroup(w, name, title, raw))
  {
    DistinctKeepsNames(Trimmed(raw));
  }

  lemma HandoverIsGood(w: World, h: Handover)
    requires HandoverAccepted(w, h)
    ensures GoodDelegation(HandedDelegation(w, h))
  {}

  lemma InsertKeeps(delegations: map<string, Delegation>, prefix: string, d: Delegation)
    requires GoodDelegations(delegations) && GoodDelegation(d)
    ensures GoodDelegations(delegations[prefix := d])
  {}

  lemma DelegationKeepsGood(w: World, h: Handover)
    requires GoodWorld(w)
    ensures GoodWorld(CreateDelegation(w, h))
  {
    if HandoverAccepted(w, h) {
      HandoverIsGood(w, h);
      InsertKeeps(w.delegations, h.prefix, HandedDelegation(w, h));
    }
  }

  lemma StepKeepsGood(w: World, step: Step)
    requires GoodWorld(w)
    ensures GoodWorld(Next(w, step))
  {
    match step
    case Tick(_) | ReadsChange(_) | SetUsers(_) | SetPolicy(_) =>
    case Guarded(call) => GuardKeepsGood(w, call);
    case Voted(vote) => VoteKeepsGood(w, vote);
    case Cancelled(id, actor) => CancelKeepsGood(w, id, actor);
    case DeadlinePassed(id) => DeadlineKeepsGood(w, id);
    case WindowPassed(id, outcome) => DueKeepsGood(w, id, outcome);
    case GroupSaved(name, title, members) => GroupKeepsGood(w, name, title, members);
    case HandedOver(h) => DelegationKeepsGood(w, h);
    case GroupDeleted(_) | Revoked(_, _, _) | Purged =>
  }

  /** Every state of every run is good. */
  lemma {:induction false} RunsAreGood(worlds: seq<World>, steps: seq<Step>, i: nat)
    requires IsRun(worlds, steps) && i < |worlds|
    ensures GoodWorld(worlds[i])
  {
    if i > 0 {
      RunsAreGood(worlds, steps, i - 1);
      assert Follows(worlds, steps, i - 1);
      StepKeepsGood(worlds[i - 1], steps[i - 1]);
    }
  }
}
