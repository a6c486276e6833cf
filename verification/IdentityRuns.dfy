/** What every run of the identity handlers keeps. */
module IdentityRuns {
  import opened Text
  import opened Identity

  /** The stored settings are the ones in force, and local login is off only with a connected domain. */
  predicate Good(s: Server) {
    && (s.stored.Some? ==> s.config == ConfigFromIdentity(s.stored.value))
    && (s.config.allowLocal || (s.config.enabled && s.stored.Some? && s.stored.value.domain.connected))
  }

  /** Every external session was last checked under the binding and the policy in force. */
  predicate SessionsCurrent(s: Server) {
    forall id :: id in s.sessions && s.sessions[id].External? ==>
      s.sessions[id].binding == BindingOf(InForce(s)) && s.sessions[id].policy == PolicyOf(InForce(s))
  }

  /** A start with local login allowed, nothing but local sessions, and the stored settings loaded. */
  predicate Start(s: Server) {
    && s.config.allowLocal && (s.stored.Some? ==> s.config == ConfigFromIdentity(s.stored.value))
    && forall id :: id in s.sessions ==> s.sessions[id].Local?
  }

  predicate Follows(states: seq<Server>, steps: seq<Step>, i: nat)
    requires |states| == |steps| + 1 && i < |steps|
  {
    states[i + 1] == Next(states[i], steps[i])
  }

  predicate IsRun(states: seq<Server>, steps: seq<Step>) {
    && |states| == |steps| + 1 && Start(states[0])
    && forall i: nat :: i < |steps| ==> Follows(states, steps, i)
  }

  // --- Single steps ---------------------------------------------------------------------------------

  lemma SaveKeeps(s: Server, value: Settings, revoke: bool)
    requires SessionsCurrent(s) && FallbackKept(value)
    requires !revoke ==> BindingOf(value) == BindingOf(InForce(s)) && PolicyOf(value) == PolicyOf(InForce(s))
    ensures Good(Save(s, value, revoke)) && SessionsCurrent(Save(s, value, revoke))
  {
    ConversionKeeps(value);
  }

  lemma SaveCheckedKeeps(s: Server, value: Settings, valid: bool, discovered: bool)
    requires Good(s) && SessionsCurrent(s)
    ensures Good(SaveChecked(s, value, valid, discovered)) && SessionsCurrent(SaveChecked(s, value, valid, discovered))
  {
    UnchangedIsSame(InForce(s), value);
    if FallbackKept(value) { SaveKeeps(s, value, MustRevoke(s, value)); }
  }

  lemma BaseIsInForce(s: Server)
    requires Good(s)
    ensures BindingOf(Base(s)) == BindingOf(InForce(s)) && FallbackKept(Base(s)) && Base(s).enabled == s.config.enabled
  {
    if s.stored.Some? { ConversionKeeps(s.stored.value); }
  }

  lemma StepKeeps(s: Server, step: Step)
    requires Good(s) && SessionsCurrent(s)
    ensures Good(Next(s, step)) && SessionsCurrent(Next(s, step))
  {
    match step
    case Set(r, valid, discovered) => SetKeeps(s, r, valid, discovered);
    case Boot(r, d, valid, discovered) => BootKeeps(s, r, d, valid, discovered);
    case Connect(r, succeeds) => ConnectKeeps(s, r, succeeds);
    case UserRole(userId, role, valid) => UserRoleKeeps(s, TrimSpace(userId), TrimSpace(role), valid);
    case _ => LoginKeeps(s, step);
  }

  /** Logging in, rechecking a session and restarting leave the settings alone. */
  lemma LoginKeeps(s: Server, step: Step)
    requires Good(s) && SessionsCurrent(s)
    requires step.LocalLogin? || step.Logout? || step.ExternalLogin? || step.Recheck? || step.Restart?
    ensures Good(Next(s, step)) && SessionsCurrent(Next(s, step))
  {}

  lemma SetKeeps(s: Server, r: WriteRequest, valid: bool, discovered: bool)
    requires Good(s) && SessionsCurrent(s)
    ensures Good(SetSettings(s, r, valid, discovered)) && SessionsCurrent(SetSettings(s, r, valid, discovered))
  {
    var value := AccessPolicy(Written(r, s.config), s.config, r.defaultRole, r.subjects);
    if value.Some? { SaveCheckedKeeps(s, KeepDomain(s.stored, value.value), valid, discovered); }
  }

  lemma BootKeeps(s: Server, r: BootstrapRequest, d: Option<Deployed>, valid: bool, discovered: bool)
    requires Good(s) && SessionsCurrent(s)
    ensures Good(Bootstrap(s, r, d, valid, discovered)) && SessionsCurrent(Bootstrap(s, r, d, valid, discovered))
  {
    var policy := AccessPolicy(InForce(s).(issuer := EmbeddedIssuer(r)), s.config, r.defaultRole, r.subjects);
    if policy.Some? && d.Some? {
      SaveCheckedKeeps(s, KeepDomain(s.stored, Bootstrapped(r, d.value, policy.value)), valid, discovered);
    }
  }

  lemma ConnectKeeps(s: Server, r: DomainRequest, succeeds: bool)
    requires Good(s) && SessionsCurrent(s)
    ensures Good(ConfigureDomain(s, r, succeeds)) && SessionsCurrent(ConfigureDomain(s, r, succeeds))
  {
    BaseIsInForce(s);
    if DomainConfigured(s, succeeds) {
      SaveKeeps(s, ConfigureDomain(s, r, succeeds).stored.value, true);
    }
  }

  lemma UserRoleKeeps(s: Server, subject: string, role: string, valid: bool)
    requires Good(s) && SessionsCurrent(s)
    ensures Good(SetRole(s, subject, role, valid)) && SessionsCurrent(SetRole(s, subject, role, valid))
  {
    BaseIsInForce(s);
    var base := Base(s);
    SaveKeeps(s, base.(subjects := if role == "" then base.subjects - {subject} else base.subjects[subject := role]), true);
  }

  // --- Whole runs -----------------------------------------------------------------------------------

  lemma KeptInRun(states: seq<Server>, steps: seq<Step>, i: nat)
    requires IsRun(states, steps) && i < |steps| && Good(states[i]) && SessionsCurrent(states[i])
    ensures Good(states[i + 1]) && SessionsCurrent(states[i + 1])
  {
    assert Follows(states, steps, i);
    StepKeeps(states[i], steps[i]);
  }

  lemma {:induction false} RunsAreGood(states: seq<Server>, steps: seq<Step>, i: nat)
    requires IsRun(states, steps) && i < |states|
    ensures Good(states[i]) && SessionsCurrent(states[i])
  {
    if i > 0 {
      RunsAreGood(states, steps, i - 1);
      KeptInRun(states, steps, i - 1);
    }
  }

  /** Every live external session was issued or rechecked under the binding and access policy now in force. */
  lemma ExternalSessionsAreCurrent(states: seq<Server>, steps: seq<Step>, i: nat, id: string)
    requires IsRun(states, steps) && i < |states| && id in states[i].sessions && states[i].sessions[id].External?
    ensures states[i].sessions[id].binding == BindingOf(InForce(states[i]))
    ensures states[i].sessions[id].policy == PolicyOf(InForce(states[i]))
  {
    RunsAreGood(states, steps, i);
  }

  predicate Connected(s: Server) { s.stored.Some? && s.stored.value.domain.connected }

  /** The step connects a domain. */
  predicate Connects(s: Server, step: Step) { step.Connect? && DomainConfigured(s, step.succeeds) }

  /** A connection in the stored settings is made by the step, or inherited together with its binding. */
  lemma ConnectionStep(s: Server, step: Step)
    requires Connected(Next(s, step))
    ensures Connects(s, step)
            || (Connected(s) && BindingOf(s.stored.value) == BindingOf(Next(s, step).stored.value))
  {
    match step
    case Set(r, valid, discovered) =>
      var value := AccessPolicy(Written(r, s.config), s.config, r.defaultRole, r.subjects);
      if value.Some? && s.stored.Some? { InheritedBinding(s.stored.value, value.value); }
    case Boot(r, d, valid, discovered) =>
      var policy := AccessPolicy(InForce(s).(issuer := EmbeddedIssuer(r)), s.config, r.defaultRole, r.subjects);
      if policy.Some? && d.Some? && s.stored.Some? { InheritedBinding(s.stored.value, Bootstrapped(r, d.value, policy.value)); }
    case _ =>
  }

  lemma InheritedBinding(stored: Settings, value: Settings)
    ensures KeepDomain(Some(stored), value).domain.connected ==>
              stored.domain.connected && BindingOf(stored) == BindingOf(KeepDomain(Some(stored), value))
  {
    UnchangedIsSame(stored, value);
  }

  lemma ConnectionInRun(states: seq<Server>, steps: seq<Step>, i: nat)
    requires IsRun(states, steps) && i < |steps| && Connected(states[i + 1])
    ensures Connects(states[i], steps[i])
            || (Connected(states[i]) && BindingOf(states[i].stored.value) == BindingOf(states[i + 1].stored.value))
  {
    assert Follows(states, steps, i);
    ConnectionStep(states[i], steps[i]);
  }

  /** The connection now stored goes back to a successful connection (or to the start) under the same binding. */
  lemma {:induction false} ConnectedForThisBinding(states: seq<Server>, steps: seq<Step>, i: nat) returns (k: nat)
    requires IsRun(states, steps) && i < |states| && Connected(states[i])
    ensures k <= i && Connected(states[k]) && BindingOf(states[k].stored.value) == BindingOf(states[i].stored.value)
    ensures k > 0 ==> Connects(states[k - 1], steps[k - 1])
  {
    k := i;
    if i > 0 {
      ConnectionInRun(states, steps, i - 1);
      if !Connects(states[i - 1], steps[i - 1]) {
        k := ConnectedForThisBinding(states, steps, i - 1);
      }
    }
  }

  /**
   * Whenever local login is off, the external login is on and its domain was connected for exactly the
   * binding in force.
   */
  lemma LocalLoginOffOnlyWithDomain(states: seq<Server>, steps: seq<Step>, i: nat) returns (k: nat)
    requires IsRun(states, steps) && i < |states| && !states[i].config.allowLocal
    ensures states[i].config.enabled
    ensures k <= i && Connected(states[k]) && BindingOf(states[k].stored.value) == BindingOf(InForce(states[i]))
    ensures k > 0 ==> Connects(states[k - 1], steps[k - 1])
  {
    RunsAreGood(states, steps, i);
    k := ConnectedForThisBinding(states, steps, i);
    ConversionKeeps(states[i].stored.value);
  }

  lemma LocalStays(s: Server, step: Step, id: string)
    requires id in s.sessions && s.sessions[id].Local? && step != Logout(id)
    ensures id in Next(s, step).sessions && Next(s, step).sessions[id] == Local
  {}

  lemma LocalStaysInRun(states: seq<Server>, steps: seq<Step>, i: nat, id: string)
    requires IsRun(states, steps) && i < |steps| && id in states[i].sessions && states[i].sessions[id].Local?
    requires steps[i] != Logout(id)
    ensures id in states[i + 1].sessions && states[i + 1].sessions[id] == Local
  {
    assert Follows(states, steps, i);
    LocalStays(states[i], steps[i], id);
  }

  /** Through any changes of the settings and any other logins, a local session lasts until its own logout. */
  lemma {:induction false} LocalSessionsStay(states: seq<Server>, steps: seq<Step>, i: nat, j: nat, id: string)
    requires IsRun(states, steps) && i <= j < |states| && id in states[i].sessions && states[i].sessions[id].Local?
    requires forall m :: i <= m < j ==> steps[m] != Logout(id)
    ensures id in states[j].sessions && states[j].sessions[id] == Local
  {
    if i < j {
      LocalSessionsStay(states, steps, i, j - 1, id);
      LocalStaysInRun(states, steps, j - 1, id);
    }
  }

  // --- Manual grants and their provider ---------------------------------------------------------------

  predicate ProviderChanged(s: Server, t: Server) {
    TrimSlashes(s.config.issuer) != TrimSlashes(t.config.issuer)
  }

  lemma SettingGrants(s: Server, r: WriteRequest, valid: bool, discovered: bool)
    ensures var t := SetSettings(s, r, valid, discovered); ProviderChanged(s, t) ==> t.config.subjects == map[]
  {}

  lemma BootstrapGrants(s: Server, r: BootstrapRequest, d: Option<Deployed>, valid: bool, discovered: bool)
    ensures var t := Bootstrap(s, r, d, valid, discovered); ProviderChanged(s, t) ==> t.config.subjects == map[]
  {}

  /** A manual grant belongs to its provider: whenever a step of a run changes the provider, none is left. */
  lemma GrantsEndWithProvider(states: seq<Server>, steps: seq<Step>, i: nat)
    requires IsRun(states, steps) && i < |steps| && ProviderChanged(states[i], states[i + 1])
    ensures states[i + 1].config.subjects == map[]
  {
    RunsAreGood(states, steps, i);
    assert Follows(states, steps, i);
    var s := states[i];
    match steps[i]
    case Set(r, valid, discovered) => SettingGrants(s, r, valid, discovered);
    case Boot(r, d, valid, discovered) => BootstrapGrants(s, r, d, valid, discovered);
    case _ =>
  }

  predicate Grants(s: Server, subject: string, role: string) {
    subject in s.config.subjects && s.config.subjects[subject] == role
  }

  /** From state k to state n the grant was in force, under one provider. */
  ghost predicate GrantedSince(states: seq<Server>, k: nat, n: nat, subject: string, role: string)
    requires k <= n < |states|
  {
    forall m :: k <= m <= n ==> Grants(states[m], subject, role) && !ProviderChanged(states[m], states[n])
  }

  /** Every manual grant in force was written, or found at the start, under the provider in force now and ever since. */
  lemma {:induction false} GrantsGoBack(states: seq<Server>, steps: seq<Step>, n: nat, subject: string, role: string) returns (k: nat)
    requires IsRun(states, steps) && n < |states| && Grants(states[n], subject, role)
    ensures k <= n && GrantedSince(states, k, n, subject, role)
    ensures k > 0 ==> !Grants(states[k - 1], subject, role)
  {
    k := n;
    if n > 0 && Grants(states[n - 1], subject, role) {
      if ProviderChanged(states[n - 1], states[n]) { GrantsEndWithProvider(states, steps, n - 1); }
      k := GrantsGoBack(states, steps, n - 1, subject, role);
    }
  }

  // --- Grants the access policy would refuse -----------------------------------------------------------

  predicate HasControl(subject: string) {
    exists i :: 0 <= i < |subject| && IsControl(subject[i])
  }

  /** A role is given to a subject with a control character in it. */
  predicate WritesControl(s: Server, step: Step) {
    && step.UserRole? && TrimSpace(step.role) != "" && HasControl(TrimSpace(step.userId))
    && RoleAccepted(s, TrimSpace(step.userId), TrimSpace(step.role), step.valid)
  }

  /** Nothing keeps such a subject out: a tab inside is enough. */
  lemma TabIsWritten(s: Server)
    ensures WritesControl(s, UserRole("a\tb", "viewer", true))
  {
    var subject := "a\tb";
    assert TrimSpace(subject) == subject && IsControl(subject[1]);
    assert TrimSpace("viewer") == "viewer";
  }

  lemma RoleGrants(s: Server, userId: string, role: string, valid: bool)
    requires Good(s) && ValidSubjects(s.config.subjects)
    ensures ValidSubjects(SetUserRole(s, userId, role, valid).config.subjects) <==> !WritesControl(s, UserRole(userId, role, valid))
  {
    var subject, given := TrimSpace(userId), TrimSpace(role);
    TrimmedStays(userId);
    assert Base(s).subjects == s.config.subjects;
    if RoleAccepted(s, subject, given, valid) && given != "" {
      var granted := s.config.subjects[subject := given];
      assert SetUserRole(s, userId, role, valid).config.subjects == granted;
      assert subject in granted && granted[subject] == given;
      assert ExactSubject(subject) <==> !HasControl(subject);
    }
  }

  lemma OtherGrants(s: Server, step: Step)
    requires Good(s) && ValidSubjects(s.config.subjects) && !step.UserRole?
    ensures ValidSubjects(Next(s, step).config.subjects)
  {}

  lemma GrantsInRun(states: seq<Server>, steps: seq<Step>, i: nat)
    requires IsRun(states, steps) && i < |steps| && ValidSubjects(states[i].config.subjects)
    ensures ValidSubjects(states[i + 1].config.subjects) <==> !WritesControl(states[i], steps[i])
  {
    RunsAreGood(states, steps, i);
    assert Follows(states, steps, i);
    if steps[i].UserRole? {
      RoleGrants(states[i], steps[i].userId, steps[i].role, steps[i].valid);
    } else {
      OtherGrants(states[i], steps[i]);
    }
  }

  ghost predicate AlwaysValid(states: seq<Server>, n: nat)
    requires n < |states|
  {
    forall m :: 0 <= m <= n ==> ValidSubjects(states[m].config.subjects)
  }

  ghost predicate NeverWritesControl(states: seq<Server>, steps: seq<Step>, n: nat)
    requires n <= |steps| < |states|
  {
    forall m :: 0 <= m < n ==> !WritesControl(states[m], steps[m])
  }

  /** The grants stay such as the access policy accepts exactly when no role was given to a subject with a control character. */
  lemma {:induction false} GrantsValidExactlyWhen(states: seq<Server>, steps: seq<Step>, n: nat)
    requires IsRun(states, steps) && n < |states| && ValidSubjects(states[0].config.subjects)
    ensures AlwaysValid(states, n) <==> NeverWritesControl(states, steps, n)
  {
    if n > 0 {
      GrantsValidExactlyWhen(states, steps, n - 1);
      if AlwaysValid(states, n - 1) { GrantsInRun(states, steps, n - 1); }
      assert AlwaysValid(states, n) <==> AlwaysValid(states, n - 1) && ValidSubjects(states[n].config.subjects);
      assert NeverWritesControl(states, steps, n) <==>
             NeverWritesControl(states, steps, n - 1) && !WritesControl(states[n - 1], steps[n - 1]);
    }
  }

  /** While such a grant is in force, no change of the settings that inherits the grants is accepted. */
  lemma InheritingIsRefused(s: Server, r: WriteRequest, valid: bool, discovered: bool)
    requires !ValidSubjects(s.config.subjects) && r.subjects.None?
    requires TrimSlashes(TrimUrl(r.issuer)) == TrimSlashes(s.config.issuer)
    ensures SetSettings(s, r, valid, discovered) == s
  {}
}
