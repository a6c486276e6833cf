/** What becomes of the guard when the tables it depends on cannot be read. */
module ApprovalOutage {
  import opened Text
  import opened Approvals
  import opened ApprovalRuns

  function Strictness(l: Level): nat {
    match l case Audit => 0 case Veto => 1 case Quorum => 2
  }

  /** The first policy asks for less than the second: a lower level, fewer approvals, or a shorter window. */
  predicate Weaker(p: Policy, q: Policy) {
    || Strictness(p.level) < Strictness(q.level)
    || (p.level.Quorum? && q.level.Quorum? && p.quorum < q.quorum)
    || (p.level.Veto? && q.level.Veto? && p.vetoWindow < q.vetoWindow)
  }

  /** Without its table an action is protected less exactly when its row is stricter than the catalogue. */
  lemma OutageWeakensExactlyWhen(a: Action, stored: map<Action, Policy>)
    ensures Weaker(PolicyFor(a, None), PolicyFor(a, Some(stored))) <==>
            a in stored && Weaker(DefaultPolicy(a), stored[a])
  {}

  /** For example, three signatures asked for deleting a backup are none during an outage. */
  lemma StrictRowIsLost()
    ensures var stored := map[BackupDelete := Policy(BackupDelete, Quorum, 3, "owners", "", HOUR, HOUR)];
            && Weaker(PolicyFor(BackupDelete, None), PolicyFor(BackupDelete, Some(stored)))
            && PolicyFor(BackupDelete, None).level.Audit? && PolicyFor(BackupDelete, Some(stored)).level.Quorum?
  {
    OutageWeakensExactlyWhen(BackupDelete, map[BackupDelete := Policy(BackupDelete, Quorum, 3, "owners", "", HOUR, HOUR)]);
  }

  /** The group an unconfigured action is put to, large enough for it. */
  predicate DefaultGroupReady(w: World, a: Action) {
    DEFAULT_GROUP in w.groups && |w.groups[DEFAULT_GROUP]| > Need(DefaultPolicy(a))
  }

  predicate Unvoted(w: World, c: Call) {
    Next(w, Guarded(c)).performed == w.performed + [Performance(Unguarded(c.actor), c.action, c.target, w.now)]
  }

  /**
   * A guarded action runs without a vote as soon as the groups cannot be read, with or without the policies, and,
   * when only the policies cannot be read, exactly if the catalogue does not guard it or its default group is not ready.
   */
  lemma OutageLiftsGuardExactlyWhen(w: World, c: Call)
    requires w.readable == Readable(true, true) && GuardApplies(w, c.action) && c.succeeds
    ensures Unvoted(Next(w, ReadsChange(Readable(true, false))), c)
    ensures Unvoted(Next(w, ReadsChange(Readable(false, false))), c)
    ensures Unvoted(Next(w, ReadsChange(Readable(false, true))), c) <==>
            CatalogueLevel(c.action).Audit? || !DefaultGroupReady(w, c.action)
  {
    var blind := Next(w, ReadsChange(Readable(false, true)));
    assert blind.Policy(c.action) == DefaultPolicy(c.action);
    if GuardApplies(blind, c.action) {
      GuardedPerformsOtherwise(blind, c);
    }
  }

  /** Where the guard applies, nothing is ever done as unguarded. */
  lemma GuardedPerformsOtherwise(w: World, c: Call)
    requires GuardApplies(w, c.action)
    ensures !Unvoted(w, c)
  {
    var done := GuardAction(w, c).performed;
    if |done| == |w.performed| + 1 {
      assert !done[|w.performed|].authority.Unguarded?;
    }
  }
}
