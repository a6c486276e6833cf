/** What revoking a delegation means for the rest of a run. */
module DelegationRuns {
  import opened Text
  import opened Approvals

  predicate NotUsable(delegations: map<string, Delegation>, p: string) {
    p in delegations ==> delegations[p].revokedAt.Some?
  }

  /** The step hands out the prefix, which nobody has at that time. */
  predicate HandsOut(w: World, step: Step, p: string) {
    step.HandedOver? && step.handover.prefix == p && HandoverAccepted(w, step.handover)
  }

  /** The step records a vote cast under the delegation. */
  predicate VotesUnder(w: World, step: Step, p: string) {
    && step.Voted? && VoteAccepted(w, step.vote)
    && BallotOf(w, w.requests[step.vote.id], step.vote).value.via == Some(p)
  }

  lemma RevokedStep(w: World, step: Step, p: string)
    requires NotUsable(w.delegations, p) && !HandsOut(w, step, p)
    ensures NotUsable(Next(w, step).delegations, p)
  {}

  lemma {:induction false} RevokedStays(worlds: seq<World>, steps: seq<Step>, i: nat, j: nat, p: string)
    requires IsRun(worlds, steps) && i <= j < |worlds| && NotUsable(worlds[i].delegations, p)
    requires forall m :: i <= m < j ==> !HandsOut(worlds[m], steps[m], p)
    ensures NotUsable(worlds[j].delegations, p)
  {
    if i < j {
      RevokedStays(worlds, steps, i, j - 1, p);
      assert Follows(worlds, steps, j - 1);
      RevokedStep(worlds[j - 1], steps[j - 1], p);
    }
  }

  /** Once revoked, or gone, a delegation carries no vote before its prefix, by then free, is handed out anew. */
  lemma RevokedCarriesNoVote(worlds: seq<World>, steps: seq<Step>, i: nat, j: nat, p: string)
    requires IsRun(worlds, steps) && i <= j < |steps| && NotUsable(worlds[i].delegations, p)
    requires VotesUnder(worlds[j], steps[j], p)
    ensures exists k :: i <= k < j && HandsOut(worlds[k], steps[k], p) && p !in worlds[k].delegations
  {
    if forall m :: i <= m < j ==> !HandsOut(worlds[m], steps[m], p) {
      RevokedStays(worlds, steps, i, j, p);
      assert false;
    }
  }

  /** Revoking does that, for the delegator and for an administrator, from the next step on. */
  lemma RevokingStopsVotes(worlds: seq<World>, steps: seq<Step>, i: nat, j: nat, p: string, actor: string, isAdmin: bool)
    requires IsRun(worlds, steps) && i < j < |steps| && steps[i] == Revoked(p, actor, isAdmin)
    requires p in worlds[i].delegations && (isAdmin || actor == worlds[i].delegations[p].delegator)
    requires VotesUnder(worlds[j], steps[j], p)
    ensures exists k :: i < k < j && HandsOut(worlds[k], steps[k], p)
  {
    assert Follows(worlds, steps, i);
    RevokedCarriesNoVote(worlds, steps, i + 1, j, p);
  }
}
