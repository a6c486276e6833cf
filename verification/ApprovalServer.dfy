/** The handlers and background passes of the approval protocol as they update the stored state. */
module ApprovalServer {
  import opened Text
  import opened Approvals
  import opened ApprovalRuns

  /** How a guarded call ends. */
  datatype Answer = Ran | Opened(id: string) | Refused

  /** The due pass over a row of requests: one WindowPassed step for each. */
  function RunDue(w: World, ids: seq<string>, outcomes: string -> Outcome): World {
    if ids == [] then w
    else ExecuteDue(RunDue(w, ids[..|ids| - 1], outcomes), ids[|ids| - 1], outcomes(ids[|ids| - 1]))
  }

  /** What the deadline pass makes of every request, independently of the order it visits them in. */
  function Swept(w: World): map<string, Request> {
    map id | id in w.requests ::
      if Overdue(w.requests[id], w.now) then Lapse(w.requests[id], w.Policy(w.requests[id].action), w.now)
      else w.requests[id]
  }

  ghost predicate Lists(ids: seq<string>, s: set<string>) {
    NoRepeats(ids) && forall id :: id in ids <==> id in s
  }

  /** The rows of a query, in some order. */
  method Rows(s: set<string>) returns (ids: seq<string>)
    ensures Lists(ids, s)
  {
    ids := [];
    var rest := s;
    while rest != {}
      invariant rest <= s && Lists(ids, s - rest)
      decreases rest
    {
      var id :| id in rest;
      rest := rest - {id};
      ids := ids + [id];
    }
  }

  method CountApprovals(votes: seq<Vote>) returns (n: nat)
    ensures n == ApprovalCount(votes)
  {
    n := 0;
    var i := 0;
    while i < |votes|
      invariant i <= |votes| && n == ApprovalCount(votes[..i])
    {
      assert votes[..i + 1][..i] == votes[..i];
      if votes[i].approve { n := n + 1; }
      i := i + 1;
    }
    assert votes[..i] == votes;
  }

  /** Checks the member list of a group and replaces it by the cleaned one. */
  method ValidateGroupMembers(users: set<string>, title: string, raw: seq<string>) returns (members: Option<seq<string>>)
    ensures members == ValidMembers(users, title, raw)
  {
    if TrimSpace(title) == "" { return None; }
    var names, kept, i := Trimmed(raw), [], 0;
    while i < |raw|
      invariant i <= |raw| && kept == Distinct(names[..i])
      invariant forall m :: m in kept ==> m in users
    {
      var member := names[i];
      assert names[..i + 1][..i] == names[..i];
      if member != "" && member !in kept {
        if member !in users {
          assert member in Distinct(names[..i + 1]);
          KeptLater(names, i + 1, member);
          return None;
        }
        kept := kept + [member];
      }
      i := i + 1;
    }
    assert names[..i] == names;
    if |kept| < 2 { return None; }
    return Some(kept);
  }

  /** A name that has been kept stays in the list. */
  lemma {:induction false} KeptLater(names: seq<string>, n: nat, m: string)
    requires n <= |names| && m in Distinct(names[..n])
    ensures m in Distinct(names)
  {
    DistinctKeepsNames(names[..n]);
    DistinctKeepsNames(names);
  }

  class Server {
    var now: Time
    var readable: Readable
    var users: set<string>
    var policies: map<Action, Policy>
    var groups: map<string, seq<string>>
    var delegations: map<string, Delegation>
    var requests: map<string, Request>
    var performed: seq<Performance>
    var overrides: seq<Override>

    ghost function View(): World
      reads this
    {
      World(now, readable, users, policies, groups, delegations, requests, performed, overrides)
    }

    /** Policies are stored under the action they are for. */
    ghost predicate Valid()
      reads this
    {
      forall a :: a in policies ==> policies[a].action == a
    }

    /** The stored policies, in some order. */
    method ListApprovalPolicies() returns (rows: seq<Policy>)
      requires Valid()
      ensures forall i :: 0 <= i < |rows| ==> rows[i].action in policies && rows[i] == policies[rows[i].action]
      ensures forall a :: a in policies ==> policies[a] in rows
    {
      rows := [];
      var rest := policies.Keys;
      while rest != {}
        invariant rest <= policies.Keys
        invariant forall i :: 0 <= i < |rows| ==> rows[i].action in policies && rows[i] == policies[rows[i].action]
        invariant forall a :: a in policies && a !in rest ==> policies[a] in rows
        decreases rest
      {
        var a :| a in rest;
        rest := rest - {a};
        rows := rows + [policies[a]];
      }
    }

    /** The policy in force for an action; without a readable table it is the one from the catalogue. */
    method PolicyFor(action: Action, readable: bool) returns (policy: Policy)
      requires Valid()
      ensures policy == Approvals.PolicyFor(action, if readable then Some(policies) else None)
    {
      policy := DefaultPolicy(action);
      if !readable { return; }
      var stored := ListApprovalPolicies();
      var i := 0;
      while i < |stored|
        invariant i <= |stored| && policy == DefaultPolicy(action)
        invariant forall j :: 0 <= j < i ==> stored[j].action != action
      {
        var p := stored[i];
        if p.action == action {
          policy := policy.(level := p.level);
          if p.quorum > 0 { policy := policy.(quorum := p.quorum); }
          if p.group != "" { policy := policy.(group := p.group); }
          policy := policy.(fallback := p.fallback);
          if p.timeout > 0 { policy := policy.(timeout := p.timeout); }
          if p.vetoWindow > 0 { policy := policy.(vetoWindow := p.vetoWindow); }
          return;
        }
        i := i + 1;
      }
      assert action !in policies;
    }

    method SetApprovalPolicy(p: Policy) returns (ok: bool)
      requires Valid()
      modifies `policies
      ensures Valid() && ok == AcceptablePolicy(p) && View() == Next(old(View()), SetPolicy(p))
    {
      ok := !p.action.Unlisted? && !(p.level.Quorum? && p.quorum < 2);
      if ok { policies := policies[p.action := p]; }
    }

    method SaveGroup(name: string, title: string, raw: seq<string>) returns (ok: bool)
      modifies `groups
      ensures ok == ValidMembers(users, title, raw).Some?
      ensures View() == Next(old(View()), GroupSaved(name, title, raw))
    {
      var members := ValidateGroupMembers(users, title, raw);
      ok := members.Some?;
      if ok { groups := groups[name := members.value]; }
    }

    /** Runs the guarded action, opens a request for it, or refuses. */
    method GuardAction(c: Call) returns (answer: Answer)
      requires Valid()
      modifies `requests, `performed, `overrides
      ensures Valid() && View() == Approvals.GuardAction(old(View()), c)
      ensures answer.Opened? <==> Opens(old(View()), c)
      ensures answer.Ran? <==> |performed| == |old(performed)| + 1
    {
      var policy := PolicyFor(c.action, readable.policies);
      if policy.level.Audit? || !(readable.groups && policy.group in groups && |groups[policy.group]| > Need(policy)) {
        answer := Run(Unguarded(c.actor), c);
      } else if c.approval != "" {
        answer := ExecuteApproved(c.approval, c);
      } else if c.breakGlass {
        answer := ExecuteBreakGlass(c);
      } else {
        answer := OpenApprovalRequest(policy, c);
      }
    }

    method Run(authority: Authority, c: Call) returns (answer: Answer)
      modifies `performed
      ensures View() == Perform(old(View()), authority, c.action, c.target, c.succeeds)
      ensures answer == if c.succeeds then Ran else Refused
    {
      if !c.succeeds { return Refused; }
      performed := performed + [Performance(authority, c.action, c.target, now)];
      return Ran;
    }

    /** Carries out an approved request; a failed action leaves the request as it was. */
    method ExecuteApproved(id: string, c: Call) returns (answer: Answer)
      modifies `requests, `performed
      ensures View() == Approvals.ExecuteApproved(old(View()), id, c)
      ensures !answer.Opened? && (answer.Ran? <==> |performed| == |old(performed)| + 1)
    {
      if id !in requests { return Refused; }
      var r := requests[id];
      if r.action != c.action || r.target.id != c.target.id
         || r.target.summary != c.target.summary || r.target.payload != c.target.payload {
        return Refused;
      }
      match r.status {
        case Approved =>
        case Scheduled => if r.executeAfter.Some? && now < r.executeAfter.value { return Refused; }
        case _ => return Refused;
      }
      answer := Run(ByHand(id, c.actor), c);
      if answer.Ran? {
        requests := requests[id := r.(status := Executed, decidedAt := Some(now))];
      }
    }

    method ExecuteBreakGlass(c: Call) returns (answer: Answer)
      modifies `performed, `overrides
      ensures View() == Approvals.ExecuteBreakGlass(old(View()), c)
      ensures !answer.Opened? && (answer.Ran? <==> |performed| == |old(performed)| + 1)
    {
      if |c.reason| < 20 { return Refused; }
      overrides := overrides + [Override(c.actor, c.action, c.target.id, c.reason)];
      answer := Run(BreakGlass(c.actor), c);
    }

    method OpenApprovalRequest(policy: Policy, c: Call) returns (answer: Answer)
      modifies `requests
      ensures View() == OpenRequest(old(View()), policy, c)
      ensures answer == if |c.reason| < 10 || c.freshId in old(requests) then Refused else Opened(c.freshId)
    {
      if |c.reason| < 10 || c.freshId in requests { return Refused; }
      var r := Request(c.action, c.target, c.actor, c.reason, Pending, policy.level, policy.quorum, policy.group, false,
                       now, now + policy.timeout, None, None, "", []);
      if policy.level.Veto? { r := r.(quorum := 1); }
      requests := requests[c.freshId := r];
      return Opened(c.freshId);
    }

    /** Registers a vote and moves the request on. */
    method CastVote(v: VoteCall) returns (ok: bool)
      requires Valid()
      modifies `requests, `delegations
      ensures ok == VoteAccepted(old(View()), v)
      ensures View() == Approvals.CastVote(old(View()), v)
    {
      if v.id !in requests || Final(requests[v.id].status) { return false; }
      var r := requests[v.id];
      var voter, castBy, via := v.caller, "", None;
      if v.creds.token != "" || exists i :: 0 <= i < |v.creds.password| && !IsSpace(v.creds.password[i]) {
        via := ResolveDelegation(World(now, readable, users, policies, groups, delegations, requests, performed, overrides),
                                 v.creds, v.caller, r.group);
        if via.None? || v.caller == r.requester { return false; }
        voter, castBy := delegations[via.value].delegator, v.caller;
      }
      if voter == r.requester || !readable.groups || r.group !in groups || voter !in groups[r.group] { return false; }
      if exists i :: 0 <= i < |r.votes| && r.votes[i].voter == voter { return false; }

      var vote := Vote(voter, castBy, v.approve, now);
      assert VoteAccepted(View(), v) && VoteFor(View(), v) == vote;
      if via.Some? {
        delegations := delegations[via.value := delegations[via.value].(used := delegations[via.value].used + 1)];
      }
      var s := Decide(r, vote);
      requests := requests[v.id := s];
      return true;
    }

    method Decide(r: Request, vote: Vote) returns (s: Request)
      requires Valid()
      ensures s == Tally(r, vote, now, View().Policy(r.action).vetoWindow)
    {
      s := r.(votes := r.votes + [vote]);
      if !vote.approve {
        return s.(status := Rejected, decidedAt := Some(now), executeAfter := None);
      }
      var n := CountApprovals(s.votes);
      if n >= r.quorum && r.level.Veto? {
        var policy := PolicyFor(r.action, readable.policies);
        return s.(status := Scheduled, decidedAt := Some(now), executeAfter := Some(now + policy.vetoWindow));
      }
      if n >= r.quorum {
        return s.(status := Approved, decidedAt := Some(now), executeAfter := None);
      }
    }

    method CancelApproval(id: string, actor: string) returns (ok: bool)
      modifies `requests
      ensures ok == CancelAccepted(old(View()), id, actor)
      ensures View() == Cancel(old(View()), id, actor)
    {
      if id !in requests || Final(requests[id].status) { return false; }
      var r := requests[id];
      if actor != r.requester && !(readable.groups && r.group in groups && actor in groups[r.group]) { return false; }
      var status := Rejected;
      if r.status.Scheduled? { status := Vetoed; }
      requests := requests[id := r.(status := status, decidedAt := Some(now), executeAfter := None)];
      return true;
    }

    /** Sends overdue requests to the fallback group or closes them; the order they are read in does not matter. */
    method SweepApprovals()
      requires Valid()
      modifies `requests
      ensures requests == Swept(old(View()))
    {
      ghost var w := View();
      var expired := Rows(set id | id in requests && Overdue(requests[id], now));
      var i := 0;
      while i < |expired|
        invariant i <= |expired| && View() == RunDeadlines(w, expired[..i])
      {
        assert expired[..i + 1][..i] == expired[..i];
        LapseRequest(expired[i]);
        i := i + 1;
      }
      assert expired[..i] == expired;
      SweepIsARunOfSteps(w, expired);
      assert forall id :: id in w.requests && id !in expired ==> Swept(w)[id] == w.requests[id];
    }

    method LapseRequest(id: string)
      requires Valid()
      modifies `requests
      ensures View() == DeadlineHit(old(View()), id)
    {
      if id !in requests || !Overdue(requests[id], now) { return; }
      var r := requests[id];
      var policy := PolicyFor(r.action, readable.policies);
      if !r.escalated && policy.fallback != "" {
        requests := requests[id := r.(status := Escalated, decidedAt := None, executeAfter := None,
                                      escalated := true, group := policy.fallback)];
      } else {
        requests := requests[id := r.(status := Expired, decidedAt := Some(now), executeAfter := None)];
      }
    }

    /** Carries out the scheduled requests whose window has passed, in whatever order they are read. */
    method SweepDueApprovals(outcomes: string -> Outcome) returns (due: seq<string>)
      modifies `requests, `performed
      ensures Lists(due, set id | id in old(requests) && Due(old(requests)[id], now))
      ensures View() == RunDue(old(View()), due, outcomes)
    {
      due := Rows(set id | id in requests && Due(requests[id], now));
      var i := 0;
      while i < |due|
        invariant i <= |due| && View() == RunDue(old(View()), due[..i], outcomes)
      {
        assert due[..i + 1][..i] == due[..i];
        ExecuteDueApproval(due[i], outcomes(due[i]));
        i := i + 1;
      }
      assert due[..i] == due;
    }

    method ExecuteDueApproval(id: string, outcome: Outcome)
      modifies `requests, `performed
      ensures View() == ExecuteDue(old(View()), id, outcome)
    {
      if id !in requests || !Due(requests[id], now) || !HasExecutor(requests[id].action) { return; }
      var r := requests[id];
      var result := Attempt(r, outcome);
      if result.Failed? {
        requests := requests[id := r.(error := result.cause, executeAfter := Some(now + RETRY_AFTER_FAILURE))];
        return;
      }
      if result.Done? {
        performed := performed + [Performance(BySweep(id), r.action, r.target, now)];
      }
      requests := requests[id := r.(status := Executed, decidedAt := Some(now), executeAfter := None)];
    }

    method HandOver(h: Handover) returns (ok: bool)
      modifies `delegations
      ensures ok == HandoverAccepted(old(View()), h) && View() == CreateDelegation(old(View()), h)
    {
      ok := h.actor != "" && h.delegate != "" && h.delegate != h.actor && h.passwordBytes >= MIN_PASSWORD_LENGTH
            && 0 < h.ttl <= MAX_DELEGATION_TTL && h.delegate in users
            && readable.groups && DelegatorMembership(groups, h.actor, h.group) && h.prefix !in delegations;
      if ok {
        delegations := delegations[h.prefix := Delegation(h.actor, h.delegate, h.group, now, now + h.ttl, None, 0)];
      }
    }

    method Revoke(prefix: string, actor: string, isAdmin: bool)
      modifies `delegations
      ensures View() == RevokeDelegation(old(View()), prefix, actor, isAdmin)
    {
      if prefix !in delegations { return; }
      var d := delegations[prefix];
      if (actor == d.delegator || isAdmin) && d.revokedAt.None? {
        delegations := delegations[prefix := d.(revokedAt := Some(now))];
      }
    }
  }

  /** The deadline pass is a run of deadline steps, in any order that covers the overdue requests. */
  lemma {:induction false} SweepIsARunOfSteps(w: World, ids: seq<string>)
    requires NoRepeats(ids)
    ensures RunDeadlines(w, ids).requests.Keys == w.requests.Keys
    ensures RunDeadlines(w, ids) == w.(requests := RunDeadlines(w, ids).requests)
    ensures forall id :: id in w.requests ==>
              RunDeadlines(w, ids).requests[id] == if id in ids then Swept(w)[id] else w.requests[id]
  {
    if ids != [] {
      var init := ids[..|ids| - 1];
      SweepIsARunOfSteps(w, init);
      assert ids == init + [ids[|ids| - 1]];
    }
  }

  function RunDeadlines(w: World, ids: seq<string>): World {
    if ids == [] then w else DeadlineHit(RunDeadlines(w, ids[..|ids| - 1]), ids[|ids| - 1])
  }

  /** The due pass is a run of due steps, one for every request it reads, in the order it reads them. */
  lemma DueIsARunOfSteps(w: World, ids: seq<string>, id: string, outcomes: string -> Outcome)
    ensures RunDue(w, [], outcomes) == w
    ensures RunDue(w, ids + [id], outcomes) == Next(RunDue(w, ids, outcomes), WindowPassed(id, outcomes(id)))
  {
    assert (ids + [id])[..|ids|] == ids;
  }

  /** What the deadline pass makes of a request is what a deadline step of its own makes of it. */
  lemma SweptStepByStep(w: World, id: string)
    ensures Swept(w).Keys == w.requests.Keys
    ensures id in w.requests ==> id in Next(w, DeadlinePassed(id)).requests && Swept(w)[id] == Next(w, DeadlinePassed(id)).requests[id]
  {}
}
