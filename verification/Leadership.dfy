/** Many instances compete for one database lock; the one that holds it runs the background parts. */
module Leadership {
  import opened Text

  /** The session whose lock the instance believes to hold, and whether its background parts run. */
  datatype Instance = Instance(handle: Option<nat>, running: bool)

  datatype Grant = AttemptFailed | LockTaken | Granted(session: nat)

  /** What one poll of an instance learns from the database and from starting its parts. */
  datatype Reply = Reply(grant: Grant, startFails: bool, stillHeld: bool)

  /** One turn of the supervision loop. */
  function Polled(x: Instance, r: Reply): Instance {
    if x.handle.None? then
      if r.grant.Granted? && (x.running || !r.startFails) then Instance(Some(r.grant.session), true) else x
    else if r.stillHeld then x
    else Instance(None, false)
  }

  function PolledAll(x: Instance, replies: seq<Reply>): Instance {
    if replies == [] then x else Polled(PolledAll(x, replies[..|replies| - 1]), replies[|replies| - 1])
  }

  class Process {
    var handle: Option<nat>
    /** Set while the background parts run; what stopping them calls. */
    var cancel: bool

    ghost function View(): Instance
      reads this
    {
      Instance(handle, cancel)
    }

    constructor ()
      ensures View() == Instance(None, false)
    {
      handle, cancel := None, false;
    }

    method Start(fails: bool) returns (ok: bool)
      modifies `cancel
      ensures ok == (old(cancel) || !fails) && cancel == ok
    {
      if cancel { return true; }
      if fails { return false; }
      cancel := true;
      return true;
    }

    method Stop()
      modifies `cancel
      ensures !cancel
    {
      if !cancel { return; }
      cancel := false;
    }

    /** The loop, over the replies of any number of polls: the parts run exactly while there is a handle. */
    method Supervise(replies: seq<Reply>)
      requires cancel <==> handle.Some?
      modifies this
      ensures View() == PolledAll(old(View()), replies)
      ensures cancel <==> handle.Some?
    {
      var i := 0;
      while i < |replies|
        invariant i <= |replies| && View() == PolledAll(old(View()), replies[..i])
        invariant cancel <==> handle.Some?
      {
        var r := replies[i];
        assert replies[..i + 1][..i] == replies[..i];
        if handle.None? {
          if r.grant.Granted? {
            handle := Some(r.grant.session);
            var ok := Start(r.startFails);
            if !ok { handle := None; }
          }
        } else if !r.stillHeld {
          Stop();
          handle := None;
        }
        i := i + 1;
      }
      assert replies[..i] == replies;
    }
  }

  // --- The cluster --------------------------------------------------------------------------------

  /**
   * The session that has the lock and how often it was granted to it, the instance whose pool that session is in, if
   * it is in one, the next session number, and the instances.
   */
  datatype Cluster = Cluster(holder: Option<nat>, grants: nat, pool: Option<nat>, next: nat, instances: seq<Instance>)

  /**
   * A poll with everything that can go wrong on the way: the attempt does not reach the database, its answer is lost,
   * the parts do not start, the unlock after that fails, the check fails. Without a handle it uses a new session or,
   * with reuse, the one that was left in the pool of the instance.
   */
  datatype Step =
    | Poll(i: nat, reuse: bool, attemptFails: bool, answerLost: bool, startFails: bool, unlockFails: bool, checkFails: bool)
    | SessionDies(session: nat)

  function Unlocked(c: Cluster): Cluster {
    c.(holder := None, grants := 0, pool := None)
  }

  /** The session is the one in the pool of the instance that has the lock, or else a new one. */
  predicate Reused(c: Cluster, step: Step)
    requires step.Poll?
  {
    step.reuse && c.holder.Some? && c.pool == Some(step.i)
  }

  /** The lock is granted when free, and once more to the session that has it. */
  predicate LockGranted(c: Cluster, step: Step)
    requires step.Poll?
  {
    !step.attemptFails && (Reused(c, step) || c.holder.None?)
  }

  /** The database after the grant. */
  function WithGrant(c: Cluster, step: Step): Cluster
    requires step.Poll?
  {
    if Reused(c, step) then c.(grants := c.grants + 1) else c.(holder := Some(c.next), grants := 1, next := c.next + 1)
  }

  /** The session goes back to the pool after an unlock, which gives back one grant if it succeeds. */
  function GivenBack(c: Cluster, i: nat, unlock: bool): Cluster {
    if !unlock then c.(pool := Some(i))
    else if c.grants <= 1 then Unlocked(c)
    else c.(grants := c.grants - 1, pool := Some(i))
  }

  /** An attempt of an instance without a handle. */
  function Attempt(c: Cluster, step: Step): Cluster
    requires step.Poll? && step.i < |c.instances| && c.instances[step.i].handle.None?
  {
    if !LockGranted(c, step) then c
    else
      var d, x := WithGrant(c, step), c.instances[step.i];
      if step.answerLost then GivenBack(d, step.i, false)
      else
        var y := Polled(x, Reply(Granted(d.holder.value), step.startFails, false));
        if y.handle.None? then GivenBack(d, step.i, !step.unlockFails)
        else d.(pool := None, instances := c.instances[step.i := y])
  }

  /** A check of an instance with a handle; a handle that is given up is not closed, and its lock not given back. */
  function Check(c: Cluster, step: Step): Cluster
    requires step.Poll? && step.i < |c.instances| && c.instances[step.i].handle.Some?
  {
    var x := c.instances[step.i];
    c.(instances := c.instances[step.i := Polled(x, Reply(LockTaken, step.startFails, !step.checkFails && c.holder == x.handle))])
  }

  function Next(c: Cluster, step: Step): Cluster {
    match step
    case SessionDies(s) => if c.holder == Some(s) then Unlocked(c) else c
    case Poll(i, _, _, _, _, _, _) =>
      if i >= |c.instances| then c
      else if c.instances[i].handle.None? then Attempt(c, step)
      else Check(c, step)
  }

  predicate Start(c: Cluster) {
    c == Unlocked(c) && forall i :: 0 <= i < |c.instances| ==> c.instances[i] == Instance(None, false)
  }

  predicate Follows(cs: seq<Cluster>, steps: seq<Step>, k: nat)
    requires |cs| == |steps| + 1 && k < |steps|
  {
    cs[k + 1] == Next(cs[k], steps[k])
  }

  predicate IsRun(cs: seq<Cluster>, steps: seq<Step>) {
    && |cs| == |steps| + 1 && Start(cs[0])
    && forall k: nat :: k < |steps| ==> Follows(cs, steps, k)
  }

  /** The instance has the lock, and knows it. */
  predicate Live(c: Cluster, i: nat) {
    i < |c.instances| && c.instances[i].handle.Some? && c.holder == c.instances[i].handle
  }

  predicate Running(c: Cluster, i: nat) {
    i < |c.instances| && c.instances[i].running
  }

  predicate Good(c: Cluster) {
    && (c.holder.Some? ==> c.holder.value < c.next && c.grants > 0) && (c.holder.None? ==> c.pool.None?)
    && (c.pool.Some? ==> forall i :: 0 <= i < |c.instances| ==> c.instances[i].handle != c.holder)
    && (forall i :: 0 <= i < |c.instances| ==> (c.instances[i].running <==> c.instances[i].handle.Some?))
    && (forall i :: 0 <= i < |c.instances| && c.instances[i].handle.Some? ==> c.instances[i].handle.value < c.next)
    && (forall i, j :: 0 <= i < j < |c.instances| && c.instances[i].handle.Some? ==> c.instances[i].handle != c.instances[j].handle)
  }

  lemma AttemptKeepsGood(c: Cluster, step: Step)
    requires Good(c) && step.Poll? && step.i < |c.instances| && c.instances[step.i].handle.None?
    ensures Good(Attempt(c, step)) && |Attempt(c, step).instances| == |c.instances|
  {}

  lemma CheckKeepsGood(c: Cluster, step: Step)
    requires Good(c) && step.Poll? && step.i < |c.instances| && c.instances[step.i].handle.Some?
    ensures Good(Check(c, step)) && |Check(c, step).instances| == |c.instances|
  {}

  lemma StepKeepsGood(c: Cluster, step: Step)
    requires Good(c)
    ensures Good(Next(c, step)) && |Next(c, step).instances| == |c.instances|
  {
    if step.Poll? && step.i < |c.instances| {
      if c.instances[step.i].handle.None? { AttemptKeepsGood(c, step); } else { CheckKeepsGood(c, step); }
    }
  }

  lemma {:induction false} RunsAreGood(cs: seq<Cluster>, steps: seq<Step>, k: nat)
    requires IsRun(cs, steps) && k < |cs|
    ensures Good(cs[k]) && |cs[k].instances| == |cs[0].instances|
  {
    if k > 0 {
      RunsAreGood(cs, steps, k - 1);
      assert Follows(cs, steps, k - 1);
      StepKeepsGood(cs[k - 1], steps[k - 1]);
    }
  }

  /** An instance runs its parts exactly while it holds a handle, and at most one handle is live. */
  lemma AtMostOneLive(cs: seq<Cluster>, steps: seq<Step>, k: nat, i: nat, j: nat)
    requires IsRun(cs, steps) && k < |cs| && i < |cs[k].instances| && j < |cs[k].instances| && i != j
    ensures cs[k].instances[i].running <==> cs[k].instances[i].handle.Some?
    ensures !(Live(cs[k], i) && Live(cs[k], j))
  {
    RunsAreGood(cs, steps, k);
  }

  /** After its own poll an instance runs only if it has the lock: a lost lock, or a failed start, stops it there. */
  lemma PollVouches(c: Cluster, step: Step)
    requires Good(c) && step.Poll? && Running(Next(c, step), step.i)
    ensures Live(Next(c, step), step.i)
  {}

  /** A running instance had the lock right after its latest poll, so it can only have lost it since. */
  lemma {:induction false} RunningWasLive(cs: seq<Cluster>, steps: seq<Step>, n: nat, i: nat) returns (k: nat)
    requires IsRun(cs, steps) && n < |cs| && Running(cs[n], i)
    ensures k < n && steps[k].Poll? && steps[k].i == i && Live(cs[k + 1], i) && cs[k + 1].instances[i] == cs[n].instances[i]
    ensures forall m :: k < m < n ==> !(steps[m].Poll? && steps[m].i == i)
    ensures !Live(cs[n], i) ==> exists m :: k < m < n && steps[m] == SessionDies(cs[n].instances[i].handle.value)
  {
    RunsAreGood(cs, steps, n - 1);
    assert Follows(cs, steps, n - 1);
    if steps[n - 1].Poll? && steps[n - 1].i == i {
      k := n - 1;
      PollVouches(cs[k], steps[k]);
    } else {
      k := RunningWasLive(cs, steps, n - 1, i);
      if !Live(cs[n], i) && Live(cs[n - 1], i) {
        assert steps[n - 1] == SessionDies(cs[n].instances[i].handle.value);
      }
    }
  }

  // --- A lock nobody gives back -----------------------------------------------------------------------

  /** The lock is held by a session no instance refers to. */
  predicate Orphaned(c: Cluster, session: nat) {
    c.holder == Some(session) && forall i :: 0 <= i < |c.instances| ==> c.instances[i].handle != Some(session)
  }

  /** The instance that has the lock polls, and its check fails although the lock is held. */
  predicate Drops(c: Cluster, step: Step, session: nat) {
    step.Poll? && step.checkFails && Live(c, step.i) && c.holder == Some(session)
  }

  /** A free lock is granted to a new session, and then the answer is lost, or the parts do not start and the unlock fails. */
  predicate Strands(c: Cluster, step: Step, session: nat) {
    && step.Poll? && step.i < |c.instances| && c.instances[step.i].handle.None?
    && c.holder.None? && session == c.next && !step.attemptFails
    && (step.answerLost || (step.startFails && !c.instances[step.i].running && step.unlockFails))
  }

  /** The instance in whose pool the session is gets the lock once more, and keeps it. */
  predicate Reclaims(c: Cluster, step: Step, session: nat) {
    && step.Poll? && step.i < |c.instances| && c.instances[step.i].handle.None? && c.holder == Some(session)
    && LockGranted(c, step) && !step.answerLost && (c.instances[step.i].running || !step.startFails)
  }

  /** What leaves the lock with a session nobody refers to. */
  predicate Loses(c: Cluster, step: Step, session: nat) {
    Drops(c, step, session) || Strands(c, step, session)
  }

  /** What ends that state. */
  predicate Recovers(c: Cluster, step: Step, session: nat) {
    step == SessionDies(session) || Reclaims(c, step, session)
  }

  lemma OrphanCheck(c: Cluster, step: Step, session: nat)
    requires Good(c) && step.Poll? && step.i < |c.instances| && c.instances[step.i].handle.Some?
    ensures Orphaned(Check(c, step), session) <==> Drops(c, step, session) || Orphaned(c, session)
  {
    var d := Check(c, step);
    assert d.holder == c.holder;
    assert forall j :: 0 <= j < |c.instances| && j != step.i ==> d.instances[j] == c.instances[j];
    if c.holder == Some(session) {
      if Drops(c, step, session) {
        assert d.instances[step.i].handle.None?;
      } else if Live(c, step.i) {
        assert d.instances[step.i] == c.instances[step.i];
      }
    }
  }

  lemma OrphanAttempt(c: Cluster, step: Step, session: nat)
    requires Good(c) && step.Poll? && step.i < |c.instances| && c.instances[step.i].handle.None?
    ensures Orphaned(Attempt(c, step), session) <==>
            Strands(c, step, session) || (Orphaned(c, session) && !Reclaims(c, step, session))
  {
    var d := Attempt(c, step);
    if LockGranted(c, step) {
      if step.answerLost || (step.startFails && !c.instances[step.i].running) {
        assert d.instances == c.instances;
        assert d.holder == (if Reused(c, step) then c.holder else if Strands(c, step, c.next) then Some(c.next) else None);
      } else {
        assert d.instances[step.i].handle == d.holder == (if Reused(c, step) then c.holder else Some(c.next));
      }
    }
  }

  lemma OrphanStep(c: Cluster, step: Step, session: nat)
    requires Good(c)
    ensures Orphaned(Next(c, step), session) <==>
            Loses(c, step, session) || (Orphaned(c, session) && !Recovers(c, step, session))
  {
    if step.Poll? && step.i < |c.instances| {
      if c.instances[step.i].handle.None? { OrphanAttempt(c, step, session); } else { OrphanCheck(c, step, session); }
    }
  }

  lemma OrphanInRun(cs: seq<Cluster>, steps: seq<Step>, k: nat, session: nat)
    requires IsRun(cs, steps) && k < |steps|
    ensures Orphaned(cs[k + 1], session) <==>
            Loses(cs[k], steps[k], session) || (Orphaned(cs[k], session) && !Recovers(cs[k], steps[k], session))
  {
    RunsAreGood(cs, steps, k);
    assert Follows(cs, steps, k);
    OrphanStep(cs[k], steps[k], session);
  }

  /** The lock was lost at step k, and has not been recovered before step n. */
  predicate LostAt(cs: seq<Cluster>, steps: seq<Step>, k: nat, n: nat, session: nat)
    requires |cs| == |steps| + 1 && k < n <= |steps|
  {
    Loses(cs[k], steps[k], session) && forall m :: k < m < n ==> !Recovers(cs[m], steps[m], session)
  }

  /**
   * In every run, the lock is held by a session no instance knows exactly when a check failed on the instance that
   * had it, the answer to a granted attempt was lost, or the unlock after a failed start failed, and since then the
   * session has neither died nor been used for another attempt.
   */
  lemma {:induction false} OrphanedExactlyWhen(cs: seq<Cluster>, steps: seq<Step>, n: nat, session: nat)
    requires IsRun(cs, steps) && n < |cs|
    ensures Orphaned(cs[n], session) <==> exists k: nat :: k < n && LostAt(cs, steps, k, n, session)
  {
    if n > 0 {
      OrphanedExactlyWhen(cs, steps, n - 1, session);
      OrphanInRun(cs, steps, n - 1, session);
      if Loses(cs[n - 1], steps[n - 1], session) {
        assert LostAt(cs, steps, n - 1, n, session);
      } else if Orphaned(cs[n], session) {
        var k: nat :| k < n - 1 && LostAt(cs, steps, k, n - 1, session);
        assert LostAt(cs, steps, k, n, session);
      } else if k: nat :| k < n && LostAt(cs, steps, k, n, session) {
        assert LostAt(cs, steps, k, n - 1, session);
        assert false;
      }
    }
  }

  lemma OrphanStops(c: Cluster, step: Step, session: nat, i: nat)
    requires Good(c) && Orphaned(c, session) && !Recovers(c, step, session) && i < |c.instances|
    requires (step.Poll? && step.i == i) || !Running(c, i)
    ensures !Running(Next(c, step), i)
  {}

  /** Until it is recovered, nobody has the lock, however often they poll, and whoever has polled since does not run. */
  lemma {:induction false} OrphanBlocksAll(cs: seq<Cluster>, steps: seq<Step>, k: nat, n: nat, session: nat, i: nat)
    requires IsRun(cs, steps) && k <= n < |cs| && Orphaned(cs[k], session) && i < |cs[k].instances|
    requires forall m :: k <= m < n ==> !Recovers(cs[m], steps[m], session)
    ensures Orphaned(cs[n], session) && !Live(cs[n], i) && |cs[n].instances| == |cs[k].instances|
    ensures (exists m :: k <= m < n && steps[m].Poll? && steps[m].i == i) ==> !Running(cs[n], i)
  {
    RunsAreGood(cs, steps, k);
    RunsAreGood(cs, steps, n);
    if k < n {
      OrphanBlocksAll(cs, steps, k, n - 1, session, i);
      OrphanInRun(cs, steps, n - 1, session);
      RunsAreGood(cs, steps, n - 1);
      if m :| k <= m < n && steps[m].Poll? && steps[m].i == i {
        assert Follows(cs, steps, n - 1);
        OrphanStops(cs[n - 1], steps[n - 1], session, i);
      }
    }
  }

  /** A lock lost to a failed check is in no pool, so only the death of its session recovers it. */
  lemma {:induction false} DroppedForGood(cs: seq<Cluster>, steps: seq<Step>, k: nat, n: nat, session: nat)
    requires IsRun(cs, steps) && k < n < |cs| && Drops(cs[k], steps[k], session)
    requires forall m :: k < m < n ==> steps[m] != SessionDies(session)
    ensures Orphaned(cs[n], session) && cs[n].pool.None?
  {
    OrphanInRun(cs, steps, n - 1, session);
    RunsAreGood(cs, steps, n - 1);
    assert Follows(cs, steps, n - 1);
    if k < n - 1 { DroppedForGood(cs, steps, k, n - 1, session); }
  }

  /** The death of the session frees the lock: the next undisturbed poll of an instance without a handle makes it the leader. */
  lemma DeathFreesTheLock(cs: seq<Cluster>, steps: seq<Step>, n: nat, session: nat, i: nat, reuse: bool)
    requires IsRun(cs, steps) && n + 1 < |steps| && Orphaned(cs[n], session) && steps[n] == SessionDies(session)
    requires i < |cs[n].instances| && cs[n].instances[i].handle.None?
    requires steps[n + 1] == Poll(i, reuse, false, false, false, false, false)
    ensures Running(cs[n + 2], i) && Live(cs[n + 2], i)
  {
    assert Follows(cs, steps, n) && Follows(cs, steps, n + 1);
  }
}
