/**
 * The approval protocol for dangerous actions: what each request handler and each
 * background pass does to the stored requests, votes, groups, policies and delegations.
 * Times and durations are in seconds.
 */
module Approvals {
  import opened Text

  type Time = int

  const HOUR := 3600
  const DEFAULT_QUORUM := 2
  const DEFAULT_TIMEOUT := 72 * HOUR
  const DEFAULT_VETO_WINDOW := 24 * HOUR
  const DEFAULT_GROUP := "approvers"
  const RETRY_AFTER_FAILURE := 900
  const MAX_DELEGATION_TTL := 30 * 24 * HOUR
  const DELEGATION_RETENTION := 7 * 24 * HOUR
  const MIN_PASSWORD_LENGTH := 10
  const DELEGATION_SCHEME := "jhvd"

  // --- Policies ---------------------------------------------------------------

  datatype Level = Quorum | Veto | Audit

  datatype Action =
    | StorageDelete | StorageRetarget | AuditDisable | PolicyUpdate
    | RetentionApply | JobDelete | ServerDelete
    | BackupDelete | RemediationManual
    | Unlisted(key: string)

  /** The level an action has before anybody configures it. */
  function CatalogueLevel(a: Action): Level {
    match a
    case StorageDelete | StorageRetarget | AuditDisable | PolicyUpdate => Quorum
    case RetentionApply | JobDelete | ServerDelete => Veto
    case BackupDelete | RemediationManual | Unlisted(_) => Audit
  }

  /** Actions the due pass can carry out on its own. */
  predicate HasExecutor(a: Action) {
    a.JobDelete? || a.ServerDelete? || a.RetentionApply?
  }

  datatype Policy = Policy(
    action: Action, level: Level, quorum: int, group: string, fallback: string,
    timeout: int, vetoWindow: int)

  function DefaultPolicy(a: Action): Policy {
    Policy(a, CatalogueLevel(a), DEFAULT_QUORUM, DEFAULT_GROUP, "", DEFAULT_TIMEOUT, DEFAULT_VETO_WINDOW)
  }

  /** A stored row overrides the default, except where it holds nothing usable. */
  function Overlay(base: Policy, p: Policy): Policy {
    base.(level := p.level,
          quorum := if p.quorum > 0 then p.quorum else base.quorum,
          group := if p.group != "" then p.group else base.group,
          fallback := p.fallback,
          timeout := if p.timeout > 0 then p.timeout else base.timeout,
          vetoWindow := if p.vetoWindow > 0 then p.vetoWindow else base.vetoWindow)
  }

  /** The policy in force; None stands for a table that could not be read. */
  function PolicyFor(a: Action, stored: Option<map<Action, Policy>>): (p: Policy)
    ensures p.quorum >= 1 && p.timeout > 0 && p.vetoWindow > 0 && p.group != ""
    ensures (stored.None? || a !in stored.value) ==> p == DefaultPolicy(a)
  {
    if stored.Some? && a in stored.value then Overlay(DefaultPolicy(a), stored.value[a]) else DefaultPolicy(a)
  }

  /** A new policy is refused for an action outside the catalogue and for a quorum of one. */
  predicate AcceptablePolicy(p: Policy) {
    !p.action.Unlisted? && (p.level.Quorum? ==> p.quorum >= 2)
  }

  // --- Requests ---------------------------------------------------------------

  datatype Status = Pending | Escalated | Approved | Scheduled | Rejected | Vetoed | Expired | Executed

  predicate Final(s: Status) {
    s.Rejected? || s.Vetoed? || s.Expired? || s.Executed?
  }

  /** castBy is empty when the voter voted in person. */
  datatype Vote = Vote(voter: string, castBy: string, approve: bool, at: Time)

  datatype Target = Target(id: string, name: string, summary: string, payload: string)

  datatype Request = Request(
    action: Action, target: Target, requester: string, reason: string,
    status: Status, level: Level, quorum: int, group: string, escalated: bool,
    createdAt: Time, expiresAt: Time, decidedAt: Option<Time>, executeAfter: Option<Time>,
    error: string, votes: seq<Vote>)

  function ApprovalCount(votes: seq<Vote>): (n: nat)
    ensures n <= |votes|
  {
    if votes == [] then 0
    else ApprovalCount(votes[..|votes| - 1]) + if votes[|votes| - 1].approve then 1 else 0
  }

  predicate VotedBy(votes: seq<Vote>, name: string) {
    exists i :: 0 <= i < |votes| && votes[i].voter == name
  }

  datatype Delegation = Delegation(
    delegator: string, delegate: string, group: string,
    createdAt: Time, expiresAt: Time, revokedAt: Option<Time>, used: nat)
  {
    predicate Usable(now: Time) { revokedAt.None? && now < expiresAt }
    predicate Covers(g: string) { group == "" || group == g }
  }

  // --- The state --------------------------------------------------------------

  datatype Authority =
    | ByHand(id: string, actor: string)
    | BySweep(id: string)
    | BreakGlass(actor: string)
    | Unguarded(actor: string)

  predicate OnRequest(a: Authority) { a.ByHand? || a.BySweep? }

  /** One guarded action that really took place. */
  datatype Performance = Performance(authority: Authority, action: Action, target: Target, at: Time)

  datatype Override = Override(actor: string, action: Action, objectId: string, reason: string)

  /** Which of the two tables the guard depends on can be read at the moment. */
  datatype Readable = Readable(policies: bool, groups: bool)

  /** Delegations are kept under the public prefix of their token, which is unique. */
  datatype World = World(
    now: Time, readable: Readable, users: set<string>,
    policies: map<Action, Policy>, groups: map<string, seq<string>>,
    delegations: map<string, Delegation>, requests: map<string, Request>,
    performed: seq<Performance>, overrides: seq<Override>)
  {
    function Policy(a: Action): Policy { PolicyFor(a, if readable.policies then Some(policies) else None) }
    predicate Member(g: string, name: string) { readable.groups && g in groups && name in groups[g] }
  }

  predicate Start(w: World) {
    && w.policies == map[] && w.groups == map[] && w.delegations == map[]
    && w.requests == map[] && w.performed == [] && w.overrides == []
  }

  // --- The guard around a dangerous action --------------------------------------

  /**
   * One call of a guarded route. The query parameters approval and reason are taken as the
   * handler reads them, without surrounding white space; freshId is what a new request would be called.
   */
  datatype Call = Call(
    action: Action, target: Target, actor: string,
    approval: string, breakGlass: bool, reason: string,
    freshId: string, succeeds: bool)

  /** How many approvals a request opened under the policy will need. */
  function Need(p: Policy): int { if p.level.Veto? then 1 else p.quorum }

  /** Somebody besides the requester must be able to fill the quorum; a group that cannot be read is not ready. */
  predicate ApproversReady(w: World, p: Policy) {
    w.readable.groups && p.group in w.groups && |w.groups[p.group]| > Need(p)
  }

  predicate GuardApplies(w: World, a: Action) {
    var p := w.Policy(a);
    !p.level.Audit? && ApproversReady(w, p)
  }

  function Perform(w: World, authority: Authority, a: Action, t: Target, succeeds: bool): World {
    if succeeds then w.(performed := w.performed + [Performance(authority, a, t, w.now)]) else w
  }

  /** An approval is good for exactly what was put to the vote. */
  predicate SameDeed(r: Request, c: Call) {
    && r.action == c.action && r.target.id == c.target.id
    && r.target.summary == c.target.summary && r.target.payload == c.target.payload
  }

  predicate MayExecute(r: Request, now: Time) {
    || r.status.Approved?
    || (r.status.Scheduled? && (r.executeAfter.Some? ==> r.executeAfter.value <= now))
  }

  function ExecuteApproved(w: World, id: string, c: Call): World {
    if id !in w.requests then w
    else
      var r := w.requests[id];
      if !SameDeed(r, c) || !MayExecute(r, w.now) || !c.succeeds then w
      else
        Perform(w, ByHand(id, c.actor), c.action, c.target, true).(
          requests := w.requests[id := r.(status := Executed, decidedAt := Some(w.now))])
  }

  function ExecuteBreakGlass(w: World, c: Call): World {
    if |c.reason| < 20 then w
    else
      Perform(w.(overrides := w.overrides + [Override(c.actor, c.action, c.target.id, c.reason)]),
              BreakGlass(c.actor), c.action, c.target, c.succeeds)
  }

  function NewRequest(w: World, p: Policy, c: Call): Request {
    Request(c.action, c.target, c.actor, c.reason, Pending, p.level, Need(p), p.group, false,
            w.now, w.now + p.timeout, None, None, "", [])
  }

  /** Opens a request under an identifier no other request has, given a reason of ten characters. */
  predicate Opens(w: World, c: Call) {
    && GuardApplies(w, c.action) && c.approval == "" && !c.breakGlass
    && |c.reason| >= 10 && c.freshId !in w.requests
  }

  function OpenRequest(w: World, p: Policy, c: Call): World {
    if |c.reason| < 10 || c.freshId in w.requests then w
    else w.(requests := w.requests[c.freshId := NewRequest(w, p, c)])
  }

  function GuardAction(w: World, c: Call): World {
    if !GuardApplies(w, c.action) then Perform(w, Unguarded(c.actor), c.action, c.target, c.succeeds)
    else if c.approval != "" then ExecuteApproved(w, c.approval, c)
    else if c.breakGlass then ExecuteBreakGlass(w, c)
    else OpenRequest(w, w.Policy(c.action), c)
  }

  // --- Delegated votes ----------------------------------------------------------

  /** The public prefix and the secret of a delegation token. */
  function SplitToken(presented: string): Option<(string, string)> {
    var parts := Split(presented, '.');
    if |parts| != 3 || parts[0] != DELEGATION_SCHEME || parts[1] == "" || parts[2] == "" then None
    else Some((parts[1], parts[2]))
  }

  /** What a delegate presents (the token trimmed), with the outcome of the two hash comparisons. */
  datatype Credentials = Credentials(token: string, password: string, secretMatches: bool, passwordMatches: bool)
  {
    predicate Present() { token != "" || exists i :: 0 <= i < |password| && !IsSpace(password[i]) }
  }

  /** The prefix of the delegation that lets the caller vote for somebody else in the group. */
  function ResolveDelegation(w: World, creds: Credentials, caller: string, group: string): (p: Option<string>)
    ensures p.Some? ==> p.value in w.delegations
  {
    var token := SplitToken(creds.token);
    if token.None? || creds.password == "" || token.value.0 !in w.delegations then None
    else
      var d := w.delegations[token.value.0];
      if !creds.secretMatches || !creds.passwordMatches || !d.Usable(w.now) || d.delegate != caller || !d.Covers(group)
      then None
      else Some(token.value.0)
  }

  // --- Voting -------------------------------------------------------------------

  datatype VoteCall = VoteCall(id: string, caller: string, approve: bool, creds: Credentials)

  /** Whose vote it is, who casts it, and under which delegation. */
  datatype Ballot = Ballot(voter: string, castBy: string, via: Option<string>)

  function BallotOf(w: World, r: Request, v: VoteCall): Option<Ballot> {
    if !v.creds.Present() then Some(Ballot(v.caller, "", None))
    else
      var via := ResolveDelegation(w, v.creds, v.caller, r.group);
      if via.None? || v.caller == r.requester then None
      else Some(Ballot(w.delegations[via.value].delegator, v.caller, via))
  }

  /** Every check a vote has to pass before it is written down. */
  predicate VoteAccepted(w: World, v: VoteCall) {
    && v.id in w.requests
    && var r := w.requests[v.id];
    && !Final(r.status)
    && BallotOf(w, r, v).Some?
    && var voter := BallotOf(w, r, v).value.voter;
    && voter != r.requester && w.Member(r.group, voter) && !VotedBy(r.votes, voter)
  }

  /** The request after one more vote. */
  function Tally(r: Request, vote: Vote, now: Time, vetoWindow: int): Request {
    var s := r.(votes := r.votes + [vote]);
    if !vote.approve then s.(status := Rejected, decidedAt := Some(now), executeAfter := None)
    else if ApprovalCount(s.votes) < r.quorum then s
    else if r.level.Veto? then s.(status := Scheduled, decidedAt := Some(now), executeAfter := Some(now + vetoWindow))
    else s.(status := Approved, decidedAt := Some(now), executeAfter := None)
  }

  function VoteFor(w: World, v: VoteCall): Vote
    requires VoteAccepted(w, v)
  {
    var b := BallotOf(w, w.requests[v.id], v).value;
    Vote(b.voter, b.castBy, v.approve, w.now)
  }

  function CastVote(w: World, v: VoteCall): World {
    if !VoteAccepted(w, v) then w
    else
      var r := w.requests[v.id];
      var via := BallotOf(w, r, v).value.via;
      w.(requests := w.requests[v.id := Tally(r, VoteFor(w, v), w.now, w.Policy(r.action).vetoWindow)],
         delegations := if via.None? then w.delegations
                        else w.delegations[via.value := w.delegations[via.value].(used := w.delegations[via.value].used + 1)])
  }

  // --- Cancelling -----------------------------------------------------------------

  predicate CancelAccepted(w: World, id: string, actor: string) {
    && id in w.requests
    && var r := w.requests[id];
    !Final(r.status) && (actor == r.requester || w.Member(r.group, actor))
  }

  function Cancel(w: World, id: string, actor: string): World {
    if !CancelAccepted(w, id, actor) then w
    else
      var r := w.requests[id];
      w.(requests := w.requests[id := r.(
           status := if r.status.Scheduled? then Vetoed else Rejected,
           decidedAt := Some(w.now), executeAfter := None)])
  }

  // --- Background passes ------------------------------------------------------------

  predicate Overdue(r: Request, now: Time) {
    (r.status.Pending? || r.status.Escalated?) && r.expiresAt <= now
  }

  /** An overdue request goes to the fallback group once, and is closed otherwise. */
  function Lapse(r: Request, p: Policy, now: Time): Request {
    if !r.escalated && p.fallback != ""
    then r.(status := Escalated, decidedAt := None, executeAfter := None, escalated := true, group := p.fallback)
    else r.(status := Expired, decidedAt := Some(now), executeAfter := None)
  }

  function DeadlineHit(w: World, id: string): World {
    if id !in w.requests || !Overdue(w.requests[id], w.now) then w
    else w.(requests := w.requests[id := Lapse(w.requests[id], w.Policy(w.requests[id].action), w.now)])
  }

  predicate Due(r: Request, now: Time) {
    r.status.Scheduled? && r.executeAfter.Some? && r.executeAfter.value <= now
  }

  datatype Outcome = Done | Gone | Failed(cause: string)

  /** Applying a retention policy without stored parameters fails whatever the engine would say. */
  function Attempt(r: Request, outcome: Outcome): Outcome {
    if r.action.RetentionApply? && r.target.payload == "" then Failed("no parameters") else outcome
  }

  function ExecuteDue(w: World, id: string, outcome: Outcome): World {
    if id !in w.requests || !Due(w.requests[id], w.now) || !HasExecutor(w.requests[id].action) then w
    else
      var r := w.requests[id];
      match Attempt(r, outcome)
      case Failed(cause) =>
        w.(requests := w.requests[id := r.(error := cause, executeAfter := Some(w.now + RETRY_AFTER_FAILURE))])
      case result =>
        Perform(w, BySweep(id), r.action, r.target, result.Done?).(
          requests := w.requests[id := r.(status := Executed, decidedAt := Some(w.now), executeAfter := None)])
  }

  // --- Groups and delegations -----------------------------------------------------

  function Trimmed(raw: seq<string>): seq<string> {
    seq(|raw|, i requires 0 <= i < |raw| => TrimSpace(raw[i]))
  }

  /** The non-empty names of a list, each at its first place. */
  function Distinct(names: seq<string>): seq<string> {
    if names == [] then []
    else
      var before, name := Distinct(names[..|names| - 1]), names[|names| - 1];
      if name == "" || name in before then before else before + [name]
  }

  function ValidMembers(users: set<string>, title: string, raw: seq<string>): Option<seq<string>> {
    var members := Distinct(Trimmed(raw));
    if TrimSpace(title) == "" || (exists m :: m in members && m !in users) || |members| < 2 then None
    else Some(members)
  }

  function SaveGroup(w: World, name: string, title: string, raw: seq<string>): World {
    var members := ValidMembers(w.users, title, raw);
    if members.None? then w else w.(groups := w.groups[name := members.value])
  }

  /** A request to delegate; names are taken without surrounding white space. */
  datatype Handover = Handover(
    actor: string, delegate: string, group: string, ttl: int, passwordBytes: nat, prefix: string)

  /** The delegator has a vote to hand over: in the named group, or in some group. */
  predicate DelegatorMembership(groups: map<string, seq<string>>, actor: string, group: string) {
    if group != "" then group in groups && actor in groups[group]
    else exists g :: g in groups && actor in groups[g]
  }

  predicate HandoverAccepted(w: World, h: Handover) {
    && h.actor != "" && h.delegate != "" && h.delegate != h.actor
    && h.passwordBytes >= MIN_PASSWORD_LENGTH
    && 0 < h.ttl <= MAX_DELEGATION_TTL
    && h.delegate in w.users
    && w.readable.groups && DelegatorMembership(w.groups, h.actor, h.group)
    && h.prefix !in w.delegations
  }

  function HandedDelegation(w: World, h: Handover): Delegation {
    Delegation(h.actor, h.delegate, h.group, w.now, w.now + h.ttl, None, 0)
  }

  function CreateDelegation(w: World, h: Handover): World {
    if !HandoverAccepted(w, h) then w
    else w.(delegations := w.delegations[h.prefix := HandedDelegation(w, h)])
  }

  function RevokeDelegation(w: World, prefix: string, actor: string, isAdmin: bool): World {
    if prefix !in w.delegations || (actor != w.delegations[prefix].delegator && !isAdmin)
       || w.delegations[prefix].revokedAt.Some? then w
    else w.(delegations := w.delegations[prefix := w.delegations[prefix].(revokedAt := Some(w.now))])
  }

  function PurgeDelegations(w: World): World {
    w.(delegations := map p | p in w.delegations && w.now - DELEGATION_RETENTION <= w.delegations[p].expiresAt
                        :: w.delegations[p])
  }

  // --- Steps ----------------------------------------------------------------------

  datatype Step =
    | Tick(elapsed: nat)
    | ReadsChange(readable: Readable)
    | SetUsers(users: set<string>)
    | SetPolicy(policy: Policy)
    | GroupSaved(name: string, title: string, members: seq<string>)
    | GroupDeleted(name: string)
    | HandedOver(handover: Handover)
    | Revoked(prefix: string, actor: string, isAdmin: bool)
    | Purged
    | Guarded(call: Call)
    | Voted(vote: VoteCall)
    | Cancelled(id: string, actor: string)
    | DeadlinePassed(id: string)
    | WindowPassed(id: string, outcome: Outcome)

  function Next(w: World, step: Step): World {
    match step
    case Tick(elapsed) => w.(now := w.now + elapsed)
    case ReadsChange(readable) => w.(readable := readable)
    case SetUsers(users) => w.(users := users)
    case SetPolicy(p) => if AcceptablePolicy(p) then w.(policies := w.policies[p.action := p]) else w
    case GroupSaved(name, title, members) => SaveGroup(w, name, title, members)
    case GroupDeleted(name) => w.(groups := w.groups - {name})
    case HandedOver(h) => CreateDelegation(w, h)
    case Revoked(prefix, actor, isAdmin) => RevokeDelegation(w, prefix, actor, isAdmin)
    case Purged => PurgeDelegations(w)
    case Guarded(call) => GuardAction(w, call)
    case Voted(vote) => CastVote(w, vote)
    case Cancelled(id, actor) => Cancel(w, id, actor)
    case DeadlinePassed(id) => DeadlineHit(w, id)
    case WindowPassed(id, outcome) => ExecuteDue(w, id, outcome)
  }

  predicate Follows(worlds: seq<World>, steps: seq<Step>, i: nat)
    requires |worlds| == |steps| + 1 && i < |steps|
  {
    worlds[i + 1] == Next(worlds[i], steps[i])
  }

  /** worlds[0] is a fresh installation and every step leads from one world to the next. */
  predicate IsRun(worlds: seq<World>, steps: seq<Step>) {
    && |worlds| == |steps| + 1
    && Start(worlds[0])
    && forall i: nat :: i < |steps| ==> Follows(worlds, steps, i)
  }
}
