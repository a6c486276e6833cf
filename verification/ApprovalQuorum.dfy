/** When a quorum can still be reached by voting alone. */
module ApprovalQuorum {
  import opened Approvals
  import opened ApprovalRuns
  import opened ApprovalHistory

  /** The members who may still vote on a request. */
  function Eligible(w: World, r: Request): set<string> {
    if w.readable.groups && r.group in w.groups
    then set m | m in w.groups[r.group] && m != r.requester && !VotedBy(r.votes, m)
    else {}
  }

  /** The votes a request has, together with those it can still get. */
  function Potential(w: World, id: string): nat
    requires id in w.requests
  {
    |w.requests[id].votes| + |Eligible(w, w.requests[id])|
  }

  /** The world after a row of votes; each is one Voted step. */
  function After(w: World, votes: seq<VoteCall>): World
    decreases votes
  {
    if votes == [] then w else After(CastVote(w, votes[0]), votes[1..])
  }

  /** Nothing but approving votes on the request, each of them accepted in its turn. */
  predicate Ballots(w: World, id: string, votes: seq<VoteCall>)
    decreases votes
  {
    votes != [] ==>
      && votes[0].id == id && votes[0].approve && VoteAccepted(w, votes[0])
      && Ballots(CastVote(w, votes[0]), id, votes[1..])
  }

  predicate Carried(w: World, id: string) { id in w.requests && Granted(w.requests[id].status) }

  /** Some run of accepted votes carries the request. */
  ghost predicate Attainable(w: World, id: string)
    requires id in w.requests
  {
    exists votes :: Ballots(w, id, votes) && Carried(After(w, votes), id)
  }

  /** A vote cast in person, without a delegation. */
  function InPerson(id: string, member: string): VoteCall {
    VoteCall(id, member, true, Credentials("", "", false, false))
  }

  lemma EligibleIsAccepted(w: World, id: string, m: string)
    requires id in w.requests && !Final(w.requests[id].status) && m in Eligible(w, w.requests[id])
    ensures VoteAccepted(w, InPerson(id, m))
  {}

  lemma BallotMoves(w: World, v: VoteCall)
    requires VoteAccepted(w, v) && v.approve && GoodWorld(w)
    ensures var w' := CastVote(w, v); var r, s := w.requests[v.id], w'.requests[v.id];
            && GoodWorld(w') && s.quorum == r.quorum && s.level == r.level
            && s.votes == r.votes + [VoteFor(w, v)]
            && (Open(s.status) || Granted(s.status))
            && Eligible(w', s) == Eligible(w, r) - {VoteFor(w, v).voter}
            && VoteFor(w, v).voter in Eligible(w, r)
  {
    VoteKeepsGood(w, v);
    var w' := CastVote(w, v);
    var r, s, voter := w.requests[v.id], w'.requests[v.id], VoteFor(w, v).voter;
    assert GoodRequest(r) && GoodRequest(s);
    assert s.votes == r.votes + [VoteFor(w, v)];
    forall m
      ensures VotedBy(s.votes, m) <==> VotedBy(r.votes, m) || m == voter
    {
      if VotedBy(r.votes, m) {
        var i :| 0 <= i < |r.votes| && r.votes[i].voter == m;
        assert s.votes[i].voter == m;
      }
      assert s.votes[|r.votes|].voter == voter;
    }
    assert Eligible(w', s) == Eligible(w, r) - {voter};
  }

  /** With enough eligible members left, they can vote one after another until the quorum is met. */
  lemma {:induction false} EnoughVotesCarry(w: World, id: string) returns (votes: seq<VoteCall>)
    requires GoodWorld(w) && id in w.requests && Open(w.requests[id].status)
    requires Potential(w, id) >= w.requests[id].quorum
    ensures Ballots(w, id, votes) && Carried(After(w, votes), id)
    decreases w.requests[id].quorum - |w.requests[id].votes|
  {
    var r := w.requests[id];
    assert GoodRequest(r);
    var m :| m in Eligible(w, r);
    var v := InPerson(id, m);
    EligibleIsAccepted(w, id, m);
    BallotMoves(w, v);
    var w' := CastVote(w, v);
    var rest := [];
    if !Granted(w'.requests[id].status) {
      assert |Eligible(w', w'.requests[id])| == |Eligible(w, r)| - 1;
      rest := EnoughVotesCarry(w', id);
    }
    votes := [v] + rest;
    assert votes[0] == v && votes[1..] == rest;
  }

  /** Votes can never add up to more than the potential. */
  lemma {:induction false} PotentialBounds(w: World, id: string, votes: seq<VoteCall>)
    requires GoodWorld(w) && id in w.requests && Ballots(w, id, votes)
    ensures var w' := After(w, votes);
            && id in w'.requests && GoodWorld(w')
            && w'.requests[id].quorum == w.requests[id].quorum && |w'.requests[id].votes| <= Potential(w, id)
    decreases votes
  {
    if votes != [] {
      BallotMoves(w, votes[0]);
      assert Potential(CastVote(w, votes[0]), id) <= Potential(w, id);
      PotentialBounds(CastVote(w, votes[0]), id, votes[1..]);
    }
  }

  /** An open request can be carried by votes alone exactly when enough eligible members are left. */
  lemma AttainableExactlyWhen(w: World, id: string)
    requires GoodWorld(w) && id in w.requests && Open(w.requests[id].status)
    ensures Attainable(w, id) <==> Potential(w, id) >= w.requests[id].quorum
  {
    if Potential(w, id) >= w.requests[id].quorum {
      var votes := EnoughVotesCarry(w, id);
    }
    if Attainable(w, id) {
      var votes :| Ballots(w, id, votes) && Carried(After(w, votes), id);
      PotentialBounds(w, id, votes);
      assert GoodRequest(After(w, votes).requests[id]);
    }
  }

  lemma {:induction false} SizeOfNames(s: seq<string>)
    requires NoRepeats(s)
    ensures |set m | m in s| == |s|
  {
    if s != [] {
      var init, last := s[..|s| - 1], s[|s| - 1];
      SizeOfNames(init);
      assert (set m | m in s) == (set m | m in init) + {last};
    }
  }

  /** Whoever opens a request, enough others are left in the group to carry it. */
  lemma OpenedRequestsAreAttainable(worlds: seq<World>, steps: seq<Step>, i: nat)
    requires IsRun(worlds, steps) && i < |steps| && steps[i].Guarded? && Opens(worlds[i], steps[i].call)
    ensures steps[i].call.freshId in worlds[i + 1].requests && Attainable(worlds[i + 1], steps[i].call.freshId)
  {
    assert Follows(worlds, steps, i);
    var id, w := steps[i].call.freshId, worlds[i + 1];
    RunsAreGood(worlds, steps, i + 1);
    var r := w.requests[id];
    var members := set m | m in w.groups[r.group];
    SizeOfNames(w.groups[r.group]);
    assert Eligible(w, r) == members - {r.requester};
    AttainableExactlyWhen(w, id);
  }
}
