/**
 * What each handler of the approval protocol does to the stored state, said in terms of the stored rows alone. Every
 * lemma states the whole new state for an accepted call, and that a refused one leaves everything as it was.
 */
module ApprovalEffects {
  import opened Text
  import opened Approvals
  import opened ApprovalRuns
  import opened DelegationTokens

  // --- Policies -----------------------------------------------------------------------------------------

  /** Which actions are guarded before anybody configures them; those that can be vetoed are the ones the due pass can do. */
  lemma Catalogue(a: Action)
    ensures CatalogueLevel(a).Quorum? <==> a.StorageDelete? || a.StorageRetarget? || a.AuditDisable? || a.PolicyUpdate?
    ensures CatalogueLevel(a).Veto? <==> a.RetentionApply? || a.JobDelete? || a.ServerDelete?
    ensures CatalogueLevel(a).Veto? <==> HasExecutor(a)
  {}

  /** A usable field of a readable row is the one in force, and the default is in force otherwise. */
  lemma PolicyInForce(w: World, a: Action)
    ensures var p := w.Policy(a);
            if w.readable.policies && a in w.policies then
              var row := w.policies[a];
              && p.action == a && p.level == row.level && p.fallback == row.fallback
              && p.quorum == (if row.quorum > 0 then row.quorum else 2)
              && p.group == (if row.group != "" then row.group else "approvers")
              && p.timeout == (if row.timeout > 0 then row.timeout else 72 * HOUR)
              && p.vetoWindow == (if row.vetoWindow > 0 then row.vetoWindow else 24 * HOUR)
            else
              p == Policy(a, CatalogueLevel(a), 2, "approvers", "", 72 * HOUR, 24 * HOUR)
  {}

  /** A new policy is stored exactly when its action is in the catalogue and a quorum is of two at least. */
  lemma PolicySet(w: World, p: Policy)
    ensures Next(w, SetPolicy(p)) ==
            if (forall key :: p.action != Unlisted(key)) && (p.level == Quorum ==> p.quorum >= 2)
            then w.(policies := w.policies[p.action := p]) else w
  {
    if p.action.Unlisted? { assert p.action == Unlisted(p.action.key); }
  }

  // --- The guard ------------------------------------------------------------------------------------------

  /** The policy asks for a vote, and more members than it asks for can be read. */
  predicate Held(w: World, p: Policy) {
    && p.level != Audit && w.readable.groups && p.group in w.groups
    && |w.groups[p.group]| > (if p.level == Veto then 1 else p.quorum)
  }

  function Logged(w: World, c: Call, authority: Authority): seq<Performance> {
    w.performed + if c.succeeds then [Performance(authority, c.action, c.target, w.now)] else []
  }

  /** An action that is not held runs at once, whatever else the call says. */
  lemma NotHeld(w: World, c: Call)
    requires !Held(w, w.Policy(c.action))
    ensures Next(w, Guarded(c)) == w.(performed := Logged(w, c, Unguarded(c.actor)))
  {
    assert w.performed + [] == w.performed;
  }

  /** The named request stands for this action on this object, and can be executed now. */
  predicate ReadyFor(w: World, c: Call) {
    && c.approval in w.requests
    && var r := w.requests[c.approval];
    && r.action == c.action && r.target.id == c.target.id
    && r.target.summary == c.target.summary && r.target.payload == c.target.payload
    && (r.status == Approved || (r.status == Scheduled && (r.executeAfter == None || r.executeAfter.value <= w.now)))
  }

  /** A held action with an approval runs exactly if the approval is ready for it, and uses it up if it succeeds. */
  lemma HeldWithApproval(w: World, c: Call)
    requires Held(w, w.Policy(c.action)) && c.approval != ""
    ensures Next(w, Guarded(c)) ==
            if ReadyFor(w, c) && c.succeeds
            then w.(performed := Logged(w, c, ByHand(c.approval, c.actor)),
                    requests := w.requests[c.approval := w.requests[c.approval].(status := Executed, decidedAt := Some(w.now))])
            else w
  {}

  /** A held action runs past the vote exactly with a reason of twenty characters, and the override is recorded either way. */
  lemma HeldWithOverride(w: World, c: Call)
    requires Held(w, w.Policy(c.action)) && c.approval == "" && c.breakGlass
    ensures Next(w, Guarded(c)) ==
            if |c.reason| >= 20
            then w.(performed := Logged(w, c, BreakGlass(c.actor)),
                    overrides := w.overrides + [Override(c.actor, c.action, c.target.id, c.reason)])
            else w
  {
    assert w.performed + [] == w.performed;
  }

  /** Any other held action becomes a request, under the policy in force, if a reason of ten characters is given. */
  lemma HeldOtherwise(w: World, c: Call)
    requires Held(w, w.Policy(c.action)) && c.approval == "" && !c.breakGlass
    ensures var p := w.Policy(c.action);
            Next(w, Guarded(c)) ==
            if |c.reason| >= 10 && c.freshId !in w.requests
            then w.(requests := w.requests[c.freshId :=
                      Request(c.action, c.target, c.actor, c.reason, Pending, p.level, if p.level == Veto then 1 else p.quorum,
                              p.group, false, w.now, w.now + p.timeout, None, None, "", [])])
            else w
  {}

  // --- Votes --------------------------------------------------------------------------------------------------

  /** Neither a token nor a password is given. */
  predicate InPerson(creds: Credentials) {
    creds.token == "" && forall i :: 0 <= i < |creds.password| ==> IsSpace(creds.password[i])
  }

  /** The credentials are those of a delegation in force, with both comparisons made and passed. */
  predicate Proven(w: World, creds: Credentials, p: string, secret: string) {
    && creds.token == Token(DELEGATION_SCHEME, p, secret) && '.' !in p && '.' !in secret && p != "" && secret != ""
    && creds.password != "" && creds.secretMatches && creds.passwordMatches
    && p in w.delegations && w.delegations[p].revokedAt == None && w.now < w.delegations[p].expiresAt
  }

  /** The delegation lets the caller vote for its delegator in the group. */
  predicate ActsFor(w: World, v: VoteCall, group: string, p: string, secret: string) {
    && Proven(w, v.creds, p, secret)
    && w.delegations[p].delegate == v.caller && (w.delegations[p].group == "" || w.delegations[p].group == group)
  }

  /** The named person may vote on the request now: it is undecided, and they are a member other than the requester who has not voted. */
  predicate MayVote(w: World, id: string, voter: string) {
    && id in w.requests
    && var r := w.requests[id];
    && r.status !in {Rejected, Vetoed, Expired, Executed}
    && voter != r.requester && w.readable.groups && r.group in w.groups && voter in w.groups[r.group]
    && forall i :: 0 <= i < |r.votes| ==> r.votes[i].voter != voter
  }

  predicate VotesInPerson(w: World, v: VoteCall) {
    MayVote(w, v.id, v.caller) && InPerson(v.creds)
  }

  predicate VotesFor(w: World, v: VoteCall, p: string, secret: string) {
    && v.id in w.requests && ActsFor(w, v, w.requests[v.id].group, p, secret)
    && v.caller != w.requests[v.id].requester && MayVote(w, v.id, w.delegations[p].delegator)
  }

  function Approving(votes: seq<Vote>): set<nat> {
    set i: nat | i < |votes| && votes[i].approve
  }

  /** Counting one by one gives the number of approving votes. */
  lemma {:induction false} CountIs(votes: seq<Vote>)
    ensures ApprovalCount(votes) == |Approving(votes)|
  {
    if votes != [] {
      var init, last := votes[..|votes| - 1], |votes| - 1;
      CountIs(init);
      if votes[last].approve {
        assert Approving(votes) == Approving(init) + {last};
      } else {
        assert Approving(votes) == Approving(init);
      }
    }
  }

  /** The request after a vote: one vote against closes it, the quorum grants it, at veto level after the window. */
  ghost predicate VotedOn(w: World, r: Request, s: Request, vote: Vote) {
    && s.votes == r.votes + [vote]
    && var granted := vote.approve && |Approving(s.votes)| >= r.quorum;
    && s.status == (if !vote.approve then Rejected else if !granted then r.status else if r.level == Veto then Scheduled else Approved)
    && s.decidedAt == (if !vote.approve || granted then Some(w.now) else r.decidedAt)
    && s.executeAfter == (if granted && r.level == Veto then Some(w.now + w.Policy(r.action).vetoWindow)
                          else if !vote.approve || granted then None else r.executeAfter)
    && s == r.(votes := s.votes, status := s.status, decidedAt := s.decidedAt, executeAfter := s.executeAfter)
  }

  lemma TallyVotes(w: World, r: Request, vote: Vote)
    ensures VotedOn(w, r, Tally(r, vote, w.now, w.Policy(r.action).vetoWindow), vote)
  {
    CountIs(r.votes + [vote]);
  }

  lemma InPersonBallot(w: World, r: Request, v: VoteCall)
    requires InPerson(v.creds)
    ensures BallotOf(w, r, v) == Some(Ballot(v.caller, "", None))
  {}

  lemma DelegatedBallot(w: World, r: Request, v: VoteCall, p: string, secret: string)
    requires ActsFor(w, v, r.group, p, secret)
    ensures !InPerson(v.creds)
    ensures BallotOf(w, r, v) ==
            if v.caller == r.requester then None else Some(Ballot(w.delegations[p].delegator, v.caller, Some(p)))
  {
    AcceptedExactlyWhen(v.creds.token, p, secret);
    assert v.creds.token != "";
  }

  /** Whoever gets a ballot votes in person, or has proven a delegation that lets them. */
  lemma BallotNeeds(w: World, r: Request, v: VoteCall) returns (secret: string)
    requires BallotOf(w, r, v).Some?
    ensures var b := BallotOf(w, r, v).value;
            if InPerson(v.creds) then b == Ballot(v.caller, "", None)
            else b.via.Some? && ActsFor(w, v, r.group, b.via.value, secret) && v.caller != r.requester
                 && b == Ballot(w.delegations[b.via.value].delegator, v.caller, b.via)
  {
    secret := "";
    if !InPerson(v.creds) {
      assert v.creds.Present();
      var parts := SplitToken(v.creds.token).value;
      secret := parts.1;
      AcceptedExactlyWhen(v.creds.token, parts.0, secret);
    }
  }

  lemma MayVoteExactlyWhen(w: World, v: VoteCall)
    ensures VoteAccepted(w, v) <==>
            v.id in w.requests && BallotOf(w, w.requests[v.id], v).Some? && MayVote(w, v.id, BallotOf(w, w.requests[v.id], v).value.voter)
  {}

  /** A vote in person is recorded as the caller's, and nothing else changes but the request. */
  lemma PersonalVote(w: World, v: VoteCall)
    requires VotesInPerson(w, v)
    ensures var w' := Next(w, Voted(v));
            && v.id in w'.requests && VotedOn(w, w.requests[v.id], w'.requests[v.id], Vote(v.caller, "", v.approve, w.now))
            && w' == w.(requests := w.requests[v.id := w'.requests[v.id]])
  {
    var r := w.requests[v.id];
    InPersonBallot(w, r, v);
    MayVoteExactlyWhen(w, v);
    TallyVotes(w, r, Vote(v.caller, "", v.approve, w.now));
  }

  /** A delegated vote is recorded as the delegator's, cast by the caller, and counted in the delegation. */
  lemma DelegatedVote(w: World, v: VoteCall, p: string, secret: string)
    requires VotesFor(w, v, p, secret)
    ensures var w', d := Next(w, Voted(v)), w.delegations[p];
            && v.id in w'.requests && VotedOn(w, w.requests[v.id], w'.requests[v.id], Vote(d.delegator, v.caller, v.approve, w.now))
            && w' == w.(requests := w.requests[v.id := w'.requests[v.id]], delegations := w.delegations[p := d.(used := d.used + 1)])
  {
    var r := w.requests[v.id];
    DelegatedBallot(w, r, v, p, secret);
    MayVoteExactlyWhen(w, v);
    TallyVotes(w, r, Vote(w.delegations[p].delegator, v.caller, v.approve, w.now));
  }

  /** Any other vote is refused and leaves everything as it was. */
  lemma OtherVote(w: World, v: VoteCall)
    requires !VotesInPerson(w, v) && forall p, secret :: !VotesFor(w, v, p, secret)
    ensures Next(w, Voted(v)) == w
  {
    MayVoteExactlyWhen(w, v);
    if VoteAccepted(w, v) {
      var r := w.requests[v.id];
      var secret := BallotNeeds(w, r, v);
      if !InPerson(v.creds) {
        assert VotesFor(w, v, BallotOf(w, r, v).value.via.value, secret);
      }
    }
  }

  // --- Cancelling ---------------------------------------------------------------------------------------------

  /** The requester, or somebody a readable row lists in the group of the request. */
  predicate HasASay(w: World, r: Request, actor: string) {
    actor == r.requester || (w.readable.groups && r.group in w.groups && actor in w.groups[r.group])
  }

  /** A cancel is accepted exactly from somebody with a say, on an undecided request; any other leaves everything as it was. */
  lemma Cancelling(w: World, id: string, actor: string)
    ensures Next(w, Cancelled(id, actor)) ==
            if id in w.requests && w.requests[id].status !in {Rejected, Vetoed, Expired, Executed} && HasASay(w, w.requests[id], actor)
            then w.(requests := w.requests[id := w.requests[id].(
                      status := if w.requests[id].status == Scheduled then Vetoed else Rejected,
                      decidedAt := Some(w.now), executeAfter := None)])
            else w
  {}

  // --- Background passes --------------------------------------------------------------------------------------

  /** An overdue request is handed to the fallback group exactly once, if the policy in force names one, and closed otherwise. */
  lemma DeadlineReached(w: World, id: string)
    ensures Next(w, DeadlinePassed(id)) ==
            if id in w.requests && w.requests[id].status in {Pending, Escalated} && w.requests[id].expiresAt <= w.now then
              var r, fallback := w.requests[id], w.Policy(w.requests[id].action).fallback;
              w.(requests := w.requests[id :=
                   if !r.escalated && fallback != ""
                   then r.(status := Escalated, escalated := true, group := fallback, decidedAt := None, executeAfter := None)
                   else r.(status := Expired, decidedAt := Some(w.now), executeAfter := None)])
            else w
  {}

  /** A scheduled request whose window has passed, for an action the pass can do. */
  predicate IsDue(w: World, id: string) {
    && id in w.requests && w.requests[id].status == Scheduled
    && w.requests[id].executeAfter.Some? && w.requests[id].executeAfter.value <= w.now
    && (w.requests[id].action in {JobDelete, ServerDelete, RetentionApply})
  }

  /** Applying a retention policy needs the stored parameters. */
  predicate Hopeless(r: Request) { r.action == RetentionApply && r.target.payload == "" }

  /** A due action that is done is logged as the request describes it, once, and the request is executed. */
  lemma DueDone(w: World, id: string)
    requires IsDue(w, id) && !Hopeless(w.requests[id])
    ensures var r := w.requests[id];
            Next(w, WindowPassed(id, Done)) ==
            w.(performed := w.performed + [Performance(BySweep(id), r.action, r.target, w.now)],
               requests := w.requests[id := r.(status := Executed, decidedAt := Some(w.now), executeAfter := None)])
  {}

  /** When there is nothing left to act on, the request is closed as executed and nothing is logged. */
  lemma DueGone(w: World, id: string)
    requires IsDue(w, id) && !Hopeless(w.requests[id])
    ensures Next(w, WindowPassed(id, Gone)) ==
            w.(requests := w.requests[id := w.requests[id].(status := Executed, decidedAt := Some(w.now), executeAfter := None)])
  {}

  /** A failure is noted, and tried again a quarter of an hour later. */
  lemma DueFailed(w: World, id: string, outcome: Outcome)
    requires IsDue(w, id) && (outcome.Failed? || Hopeless(w.requests[id]))
    ensures var w', r := Next(w, WindowPassed(id, outcome)), w.requests[id];
            && id in w'.requests && (!Hopeless(r) ==> w'.requests[id].error == outcome.cause)
            && w' == w.(requests := w.requests[id := r.(error := w'.requests[id].error, executeAfter := Some(w.now + 15 * 60))])
  {}

  lemma NotDue(w: World, id: string, outcome: Outcome)
    requires !IsDue(w, id)
    ensures Next(w, WindowPassed(id, outcome)) == w
  {}

  // --- Groups and delegations ---------------------------------------------------------------------------------

  /** Where a name first occurs. */
  function FirstAt(names: seq<string>, name: string): (i: nat)
    requires name in names
    ensures i < |names| && names[i] == name && forall j :: 0 <= j < i ==> names[j] != name
  {
    if names[0] == name then 0 else 1 + FirstAt(names[1..], name)
  }

  lemma {:induction false} FirstStays(init: seq<string>, last: string, name: string)
    requires name in init
    ensures FirstAt(init + [last], name) == FirstAt(init, name)
  {
    var i, j := FirstAt(init, name), FirstAt(init + [last], name);
    assert (init + [last])[i] == init[i];
    assert j < |init| ==> (init + [last])[j] == init[j];
  }

  predicate InOrder(names: seq<string>, kept: seq<string>)
    requires forall m :: m in kept ==> m in names
  {
    forall i, j :: 0 <= i < j < |kept| ==> FirstAt(names, kept[i]) < FirstAt(names, kept[j])
  }

  lemma {:induction false} DistinctNames(names: seq<string>)
    ensures NoRepeats(Distinct(names)) && forall m :: m in Distinct(names) <==> m in names && m != ""
  {
    if names != [] {
      var init, last := names[..|names| - 1], names[|names| - 1];
      DistinctNames(init);
      assert names == init + [last];
    }
  }

  lemma OneMoreInOrder(init: seq<string>, last: string, kept: seq<string>)
    requires (forall m :: m in kept ==> m in init) && InOrder(init, kept)
    ensures InOrder(init + [last], kept)
    ensures last !in init ==> InOrder(init + [last], kept + [last])
  {
    forall i | 0 <= i < |kept|
      ensures FirstAt(init + [last], kept[i]) == FirstAt(init, kept[i]) < |init|
    {
      assert kept[i] in kept;
      FirstStays(init, last, kept[i]);
    }
    if last !in init {
      assert FirstAt(init + [last], last) == |init|;
    }
  }

  /** The kept names are the non-blank ones, each once, in the order they first occur. */
  lemma {:induction false} DistinctIs(names: seq<string>)
    ensures var kept := Distinct(names);
            NoRepeats(kept) && (forall m :: m in kept <==> m in names && m != "") && InOrder(names, kept)
  {
    DistinctNames(names);
    if names != [] {
      var init, last := names[..|names| - 1], names[|names| - 1];
      DistinctIs(init);
      assert names == init + [last];
      OneMoreInOrder(init, last, Distinct(init));
    }
  }

  /** Every non-blank name of the list is a known user, and there are two different ones at least. */
  ghost predicate MembersFit(users: set<string>, raw: seq<string>) {
    && (forall i :: 0 <= i < |raw| && TrimSpace(raw[i]) != "" ==> TrimSpace(raw[i]) in users)
    && exists i, j :: 0 <= i < |raw| && 0 <= j < |raw| && TrimSpace(raw[i]) != TrimSpace(raw[j])
                      && TrimSpace(raw[i]) != "" && TrimSpace(raw[j]) != ""
  }

  /** What is stored are the trimmed names, without blanks and repeats, in the order they first occur. */
  ghost predicate ListsMembers(raw: seq<string>, members: seq<string>) {
    && NoRepeats(members)
    && (forall m :: m in members <==> m != "" && exists i :: 0 <= i < |raw| && TrimSpace(raw[i]) == m)
    && forall i, j :: 0 <= i < j < |members| ==>
         exists k :: 0 <= k < |raw| && TrimSpace(raw[k]) == members[i] && forall n :: 0 <= n <= k ==> TrimSpace(raw[n]) != members[j]
  }

  lemma TrimmedHas(raw: seq<string>, m: string)
    ensures m in Trimmed(raw) <==> exists i :: 0 <= i < |raw| && TrimSpace(raw[i]) == m
  {
    if i :| 0 <= i < |raw| && TrimSpace(raw[i]) == m { assert Trimmed(raw)[i] == m; }
  }

  lemma StoredMembers(raw: seq<string>)
    ensures ListsMembers(raw, Distinct(Trimmed(raw)))
  {
    var names, members := Trimmed(raw), Distinct(Trimmed(raw));
    DistinctIs(names);
    forall m
      ensures m in names <==> exists i :: 0 <= i < |raw| && TrimSpace(raw[i]) == m
    {
      TrimmedHas(raw, m);
    }
    forall i, j | 0 <= i < j < |members|
      ensures exists k :: 0 <= k < |raw| && TrimSpace(raw[k]) == members[i] && forall n :: 0 <= n <= k ==> TrimSpace(raw[n]) != members[j]
    {
      assert members[i] in members && members[j] in members;
      var k := FirstAt(names, members[i]);
      assert TrimSpace(raw[k]) == names[k];
      forall n | 0 <= n <= k
        ensures TrimSpace(raw[n]) != members[j]
      {
        assert names[n] == TrimSpace(raw[n]);
      }
    }
  }

  lemma TwoMembers(members: seq<string>, raw: seq<string>)
    requires ListsMembers(raw, members)
    ensures |members| >= 2 <==>
            exists i, j :: 0 <= i < |raw| && 0 <= j < |raw| && TrimSpace(raw[i]) != TrimSpace(raw[j])
                           && TrimSpace(raw[i]) != "" && TrimSpace(raw[j]) != ""
  {
    if |members| >= 2 {
      assert members[0] in members && members[1] in members;
      var i :| 0 <= i < |raw| && TrimSpace(raw[i]) == members[0];
      var j :| 0 <= j < |raw| && TrimSpace(raw[j]) == members[1];
    }
    if i, j :| 0 <= i < |raw| && 0 <= j < |raw| && TrimSpace(raw[i]) != TrimSpace(raw[j]) && TrimSpace(raw[i]) != "" && TrimSpace(raw[j]) != "" {
      assert TrimSpace(raw[i]) in members && TrimSpace(raw[j]) in members;
    }
  }

  /** A group is stored exactly when it has a title and its members fit; then it lists them. */
  lemma GroupStored(w: World, name: string, title: string, raw: seq<string>)
    ensures var w' := Next(w, GroupSaved(name, title, raw));
            if TrimSpace(title) != "" && MembersFit(w.users, raw)
            then name in w'.groups && w' == w.(groups := w.groups[name := w'.groups[name]]) && ListsMembers(raw, w'.groups[name])
            else w' == w
  {
    MembersValid(w.users, title, raw);
    StoredMembers(raw);
  }

  lemma MembersValid(users: set<string>, title: string, raw: seq<string>)
    ensures ValidMembers(users, title, raw) ==
            if TrimSpace(title) != "" && MembersFit(users, raw) then Some(Distinct(Trimmed(raw))) else None
  {
    var members := Distinct(Trimmed(raw));
    StoredMembers(raw);
    TwoMembers(members, raw);
    KnownMembers(users, members, raw);
  }

  lemma KnownMembers(users: set<string>, members: seq<string>, raw: seq<string>)
    requires ListsMembers(raw, members)
    ensures (forall m :: m in members ==> m in users) <==>
            forall i :: 0 <= i < |raw| && TrimSpace(raw[i]) != "" ==> TrimSpace(raw[i]) in users
  {
    if forall m :: m in members ==> m in users {
      forall i | 0 <= i < |raw| && TrimSpace(raw[i]) != ""
        ensures TrimSpace(raw[i]) in users
      {
        assert TrimSpace(raw[i]) in members;
      }
    }
  }

  /** The right to vote is handed over exactly under these conditions. */
  predicate MayHandOver(w: World, h: Handover) {
    && h.actor != "" && h.delegate != "" && h.delegate != h.actor && h.delegate in w.users
    && h.passwordBytes >= 10 && 0 < h.ttl <= 30 * 24 * HOUR && h.prefix !in w.delegations
    && w.readable.groups
    && if h.group == "" then exists g :: g in w.groups && h.actor in w.groups[g] else h.group in w.groups && h.actor in w.groups[h.group]
  }

  lemma HandingOver(w: World, h: Handover)
    ensures Next(w, HandedOver(h)) ==
            if MayHandOver(w, h)
            then w.(delegations := w.delegations[h.prefix := Delegation(h.actor, h.delegate, h.group, w.now, w.now + h.ttl, None, 0)])
            else w
  {}

  /** A delegation is revoked exactly by its delegator or an administrator, and once. */
  lemma Revoking(w: World, p: string, actor: string, isAdmin: bool)
    ensures Next(w, Revoked(p, actor, isAdmin)) ==
            if p in w.delegations && w.delegations[p].revokedAt == None && (isAdmin || actor == w.delegations[p].delegator)
            then w.(delegations := w.delegations[p := w.delegations[p].(revokedAt := Some(w.now))])
            else w
  {}

  /** Delegations are forgotten a week after they ran out, and not before. */
  lemma Purging(w: World, p: string)
    ensures var kept := Next(w, Purged).delegations;
            && (p in kept <==> p in w.delegations && w.now <= w.delegations[p].expiresAt + 7 * 24 * HOUR)
            && (p in kept ==> kept[p] == w.delegations[p])
            && Next(w, Purged) == w.(delegations := kept)
  {}
}
