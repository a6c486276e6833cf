/** How long an approval stays good: only a cancel, a rejection or an execution uses it up. */
module ApprovalUse {
  import opened Text
  import opened Approvals
  import opened ApprovalRuns
  import opened ApprovalHistory

  predicate Ready(s: Status) { s.Approved? || s.Scheduled? }

  /** The step cancels, rejects or successfully executes the request. */
  predicate Spends(w: World, step: Step, id: string)
    requires id in w.requests
  {
    var r := w.requests[id];
    match step
    case Cancelled(i, actor) => i == id && CancelAccepted(w, id, actor)
    case Voted(v) => v.id == id && !v.approve && VoteAccepted(w, v)
    case Guarded(c) =>
      c.approval == id != "" && GuardApplies(w, c.action) && SameDeed(r, c) && MayExecute(r, w.now) && c.succeeds
    case WindowPassed(i, outcome) =>
      i == id && Due(r, w.now) && HasExecutor(r.action) && !Attempt(r, outcome).Failed?
    case _ => false
  }

  lemma VoteSpends(w: World, v: VoteCall, id: string)
    requires GoodRequests(w.requests) && id in w.requests && Ready(w.requests[id].status)
    ensures id in CastVote(w, v).requests
    ensures Ready(CastVote(w, v).requests[id].status) <==> !Spends(w, Voted(v), id)
  {
    if v.id == id && VoteAccepted(w, v) {
      var r := w.requests[id];
      assert GoodRequest(r);
      if v.approve { ApprovingVoteCounts(r, VoteFor(w, v)); }
    }
  }

  lemma HandSpends(w: World, c: Call, id: string)
    requires id in w.requests && Ready(w.requests[id].status)
    ensures var requests := ExecuteApproved(w, c.approval, c).requests;
            && id in requests
            && (Ready(requests[id].status) <==>
                !(c.approval == id && SameDeed(w.requests[id], c) && MayExecute(w.requests[id], w.now) && c.succeeds))
  {}

  lemma GuardSpends(w: World, c: Call, id: string)
    requires id in w.requests && Ready(w.requests[id].status)
    ensures id in GuardAction(w, c).requests
    ensures Ready(GuardAction(w, c).requests[id].status) <==> !Spends(w, Guarded(c), id)
  {
    HandSpends(w, c, id);
  }

  lemma SweepSpends(w: World, due: string, outcome: Outcome, id: string)
    requires id in w.requests && Ready(w.requests[id].status)
    ensures id in ExecuteDue(w, due, outcome).requests
    ensures Ready(ExecuteDue(w, due, outcome).requests[id].status) <==> !Spends(w, WindowPassed(due, outcome), id)
  {}

  lemma StepSpends(w: World, step: Step, id: string)
    requires GoodRequests(w.requests) && id in w.requests && Ready(w.requests[id].status)
    ensures id in Next(w, step).requests
    ensures Ready(Next(w, step).requests[id].status) <==> !Spends(w, step, id)
  {
    if step.Voted? {
      VoteSpends(w, step.vote, id);
    } else if step.Guarded? {
      GuardSpends(w, step.call, id);
    } else if step.WindowPassed? {
      SweepSpends(w, step.id, step.outcome, id);
    } else if !step.Cancelled? && !step.DeadlinePassed? {
      OthersLeaveRequests(w, step);
    }
  }

  lemma OthersLeaveRequests(w: World, step: Step)
    requires !step.Voted? && !step.Guarded? && !step.WindowPassed? && !step.Cancelled? && !step.DeadlinePassed?
    ensures Next(w, step).requests == w.requests
  {}

  lemma SpendInRun(worlds: seq<World>, steps: seq<Step>, i: nat, id: string)
    requires IsRun(worlds, steps) && i < |steps| && id in worlds[i].requests && Ready(worlds[i].requests[id].status)
    ensures id in worlds[i + 1].requests
    ensures Ready(worlds[i + 1].requests[id].status) <==> !Spends(worlds[i], steps[i], id)
  {
    RunsAreGood(worlds, steps, i);
    assert Follows(worlds, steps, i);
    StepSpends(worlds[i], steps[i], id);
  }

  /** What is neither open nor ready is final, and stays so. */
  lemma SpentStays(worlds: seq<World>, steps: seq<Step>, i: nat, j: nat, id: string)
    requires IsRun(worlds, steps) && i <= j < |worlds| && id in worlds[i].requests && Final(worlds[i].requests[id].status)
    ensures id in worlds[j].requests && !Ready(worlds[j].requests[id].status)
  {
    RequestsOnlyMoveForward(worlds, steps, i, j, id);
  }

  lemma NeverOpenAgain(worlds: seq<World>, steps: seq<Step>, i: nat, id: string)
    requires IsRun(worlds, steps) && i < |steps| && id in worlds[i].requests && !Open(worlds[i].requests[id].status)
    ensures id in worlds[i + 1].requests && !Open(worlds[i + 1].requests[id].status)
  {
    RequestsOnlyMoveForward(worlds, steps, i, i + 1, id);
  }

  ghost predicate Unspent(worlds: seq<World>, steps: seq<Step>, i: nat, j: nat, id: string)
    requires |worlds| == |steps| + 1 && i <= j <= |steps|
  {
    forall m :: i <= m < j ==> id in worlds[m].requests && !Spends(worlds[m], steps[m], id)
  }

  /**
   * Over any run an approved or scheduled request stays so exactly as long as it is not cancelled, rejected or
   * executed: failed attempts, by hand or by the due pass, consume nothing, however many there are.
   */
  lemma {:induction false} FailureConsumesNothing(worlds: seq<World>, steps: seq<Step>, i: nat, j: nat, id: string)
    requires IsRun(worlds, steps) && i <= j < |worlds| && id in worlds[i].requests && Ready(worlds[i].requests[id].status)
    ensures id in worlds[j].requests
    ensures Ready(worlds[j].requests[id].status) <==> Unspent(worlds, steps, i, j, id)
    ensures Ready(worlds[j].requests[id].status) ==> exists t :: t >= worlds[j].now && MayExecute(worlds[j].requests[id], t)
    ensures !Open(worlds[j].requests[id].status)
  {
    if i < j {
      FailureConsumesNothing(worlds, steps, i, j - 1, id);
      NeverOpenAgain(worlds, steps, j - 1, id);
      if Ready(worlds[j - 1].requests[id].status) {
        SpendInRun(worlds, steps, j - 1, id);
        assert Unspent(worlds, steps, i, j, id) <==> !Spends(worlds[j - 1], steps[j - 1], id);
      } else {
        SpentStays(worlds, steps, j - 1, j, id);
      }
    }
    if Ready(worlds[j].requests[id].status) {
      var t := ReadyInTime(worlds[j].requests[id], worlds[j].now);
    }
  }

  lemma ReadyInTime(r: Request, now: Time) returns (t: Time)
    requires Ready(r.status)
    ensures t >= now && MayExecute(r, t)
  {
    t := if r.executeAfter.Some? && r.executeAfter.value > now then r.executeAfter.value else now;
  }

  /** The call that carries out what the request describes. */
  predicate CarriesOut(c: Call, r: Request, id: string) {
    c.approval == id != "" && SameDeed(r, c) && c.succeeds
  }

  /** Waiting long enough is all it takes to execute a ready request by hand, while its action is guarded. */
  lemma ReadyCanBeExecuted(w: World, id: string, c: Call) returns (wait: nat)
    requires id in w.requests && Ready(w.requests[id].status) && CarriesOut(c, w.requests[id], id) && GuardApplies(w, c.action)
    ensures var w' := Next(Next(w, Tick(wait)), Guarded(c));
            && w'.performed == w.performed + [Performance(ByHand(id, c.actor), c.action, c.target, w.now + wait)]
            && w'.requests[id].status.Executed?
  {
    var r := w.requests[id];
    var t := ReadyInTime(r, w.now);
    wait := t - w.now;
    var later := Next(w, Tick(wait));
    assert GuardApplies(later, c.action) && MayExecute(r, later.now);
  }
}
