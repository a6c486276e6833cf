/**
 * What each identity handler does to the settings, the configuration and the sessions, said in terms of the request
 * and the stored fields alone.
 */
module IdentityEffects {
  import opened Text
  import opened Identity
  import opened IdentityRuns

  // --- Storing a value ------------------------------------------------------------------------------------

  /** The configuration in force has every field of the value but the domain. */
  predicate Configures(c: Config, v: Settings) {
    && c.enabled == v.enabled && c.issuer == v.issuer && c.backchannel == v.backchannel
    && c.clientId == v.clientId && c.clientSecret == v.clientSecret && c.redirect == v.redirect
    && c.groupsClaim == v.groupsClaim && c.roles == v.roles && c.defaultRole == v.defaultRole
    && c.subjects == v.subjects && c.allowLocal == v.allowLocal
  }

  /** The value is stored and in force, and the external sessions are gone if they had to be revoked. */
  ghost predicate Applied(s: Server, t: Server, v: Settings, revoked: bool) {
    && t.stored == Some(v) && Configures(t.config, v) && t.authEnabled == s.authEnabled
    && (forall id :: id in t.sessions <==> id in s.sessions && (revoked ==> s.sessions[id] == Local))
    && (forall id :: id in t.sessions ==> t.sessions[id] == s.sessions[id])
  }

  lemma SaveApplies(s: Server, v: Settings, revoked: bool)
    ensures Applied(s, Save(s, v, revoked), v, revoked)
  {}

  function Url(raw: string): string { TrimSlashes(TrimSpace(raw)) }

  /** The seven values a connection of the domain was made for, up to white space around and slashes behind. */
  predicate SameBinding(a: Settings, b: Settings) {
    && Url(a.issuer) == Url(b.issuer) && Url(a.backchannel) == Url(b.backchannel) && Url(a.redirect) == Url(b.redirect)
    && TrimSpace(a.clientId) == TrimSpace(b.clientId) && a.clientSecret == b.clientSecret
    && TrimSpace(a.groupsClaim) == TrimSpace(b.groupsClaim) && a.roles == b.roles
  }

  lemma BindingIs(a: Settings, b: Settings)
    ensures SameBinding(a, b) <==> BindingOf(a) == BindingOf(b)
    ensures SameBinding(a, b) <==> !BindingChanged(a, b)
  {}

  /** The configuration in force as a value without a domain. */
  predicate InForceIs(s: Server, v: Settings) { Configures(s.config, v) && v.domain == NO_DOMAIN }

  /** External sessions have to go: the binding or the access policy is another one. */
  predicate Revokes(current: Settings, v: Settings) {
    !SameBinding(current, v) || current.defaultRole != v.defaultRole || current.subjects != v.subjects
  }

  /** The domain stays with the binding it was connected for. */
  predicate DomainFor(stored: Option<Settings>, v: Settings) {
    v.domain == (if stored.Some? && SameBinding(stored.value, v) then stored.value.domain else NO_DOMAIN)
  }

  predicate Acceptable(v: Settings, valid: bool, discovered: bool) {
    && (v.allowLocal || (v.enabled && v.domain.connected)) && (v.enabled ==> valid && discovered)
  }

  lemma CheckedSave(s: Server, v: Settings, valid: bool, discovered: bool, current: Settings)
    requires Acceptable(v, valid, discovered) && InForceIs(s, current)
    ensures Applied(s, SaveChecked(s, v, valid, discovered), v, Revokes(current, v))
  {
    BindingIs(current, v);
    assert current == InForce(s);
    SaveApplies(s, v, Revokes(current, v));
  }

  // --- The access policy ----------------------------------------------------------------------------------

  predicate GrantFits(subject: string, role: string) {
    && subject != "" && |subject| <= 255 && TrimSpace(subject) == subject
    && (forall i :: 0 <= i < |subject| ==> !(subject[i] < ' ' || '\U{007F}' <= subject[i] <= '\U{009F}'))
    && role in {"admin", "operator", "viewer"}
  }

  /** The policy the request asks for, or inherits; grants do not move to another provider. */
  ghost predicate PolicyAsked(c: Config, issuer: string, role: Option<string>, subjects: Option<map<string, string>>, v: Settings) {
    var moved := TrimSlashes(issuer) != TrimSlashes(c.issuer);
    && v.defaultRole == (if role.Some? then role.value else c.defaultRole)
    && v.subjects == (if moved then map[] else if subjects.Some? then subjects.value else c.subjects)
    && (role.Some? ==> role.value == "" || role.value == "viewer")
    && (moved && subjects.Some? ==> subjects.value == map[])
    && forall u :: u in v.subjects ==> GrantFits(u, v.subjects[u])
  }

  lemma PolicyIs(value: Settings, c: Config, role: Option<string>, subjects: Option<map<string, string>>, v: Settings)
    requires v == value.(defaultRole := v.defaultRole, subjects := v.subjects)
    ensures AccessPolicy(value, c, role, subjects) == Some(v) <==> PolicyAsked(c, value.issuer, role, subjects, v)
  {
    assert ValidSubjects(v.subjects) <==> forall u :: u in v.subjects ==> GrantFits(u, v.subjects[u]) by {
      forall u | u in v.subjects
        ensures ExactSubject(u) && BuiltinRole(v.subjects[u]) <==> GrantFits(u, v.subjects[u])
      {}
    }
  }

  // --- Setting the settings ---------------------------------------------------------------------------------

  /** Every field of the new value is the one of the request, cleaned; the secret in use stands for an empty one. */
  ghost predicate AsksFor(s: Server, r: WriteRequest, v: Settings) {
    && v.enabled == r.enabled && v.allowLocal == r.allowLocal && v.roles == r.roles
    && v.issuer == Url(r.issuer) && v.backchannel == Url(r.backchannel) && v.redirect == Url(r.redirect)
    && v.clientId == TrimSpace(r.clientId)
    && v.groupsClaim == (if TrimSpace(r.groupsClaim) == "" then "groups" else TrimSpace(r.groupsClaim))
    && v.clientSecret == (if r.clientSecret == "" && v.clientId == TrimSpace(s.config.clientId) && v.issuer == Url(s.config.issuer)
                          then s.config.clientSecret else r.clientSecret)
    && (r.enabled ==> v.clientSecret != "")
    && PolicyAsked(s.config, v.issuer, r.defaultRole, r.subjects, v) && DomainFor(s.stored, v)
  }

  /** The settings are stored exactly as asked for. */
  lemma SettingsStored(s: Server, r: WriteRequest, valid: bool, discovered: bool, v: Settings, current: Settings)
    requires AsksFor(s, r, v) && Acceptable(v, valid, discovered) && InForceIs(s, current)
    ensures Applied(s, Next(s, Set(r, valid, discovered)), v, Revokes(current, v))
  {
    SetValue(s, r, v);
    assert Next(s, Set(r, valid, discovered)) == SaveChecked(s, v, valid, discovered);
    CheckedSave(s, v, valid, discovered, current);
  }

  lemma SetValue(s: Server, r: WriteRequest, v: Settings)
    requires AsksFor(s, r, v)
    ensures AccessPolicy(Written(r, s.config), s.config, r.defaultRole, r.subjects) == Some(v.(domain := NO_DOMAIN))
    ensures SecretFor(r, s.config) == v.clientSecret && KeepDomain(s.stored, v.(domain := NO_DOMAIN)) == v
  {
    var bare := v.(domain := NO_DOMAIN);
    PolicyIs(Written(r, s.config), s.config, r.defaultRole, r.subjects, bare);
    if s.stored.Some? { BindingIs(s.stored.value, bare); }
  }

  /** Otherwise nothing changes. */
  lemma SettingsRefused(s: Server, r: WriteRequest, valid: bool, discovered: bool)
    requires forall v :: AsksFor(s, r, v) ==> !Acceptable(v, valid, discovered)
    ensures Next(s, Set(r, valid, discovered)) == s
  {
    var written := AccessPolicy(Written(r, s.config), s.config, r.defaultRole, r.subjects);
    if written.Some? && !(r.enabled && SecretFor(r, s.config) == "") {
      var v := KeepDomain(s.stored, written.value);
      PolicyIs(Written(r, s.config), s.config, r.defaultRole, r.subjects, written.value);
      if s.stored.Some? { BindingIs(s.stored.value, written.value); }
      assert AsksFor(s, r, v);
    }
  }

  // --- The embedded provider --------------------------------------------------------------------------------

  /** The value for the embedded provider: enabled, under the announced issuer, with what the helper reports. */
  ghost predicate DeploysTo(s: Server, r: BootstrapRequest, d: Deployed, v: Settings) {
    && v.enabled && v.allowLocal == r.allowLocal && v.roles == r.roles && v.groupsClaim == "groups"
    && v.issuer == Url(r.publicUrl) + "/realms/" + TrimSpace(r.realm) && v.clientId == TrimSpace(r.clientId)
    && v.backchannel == d.backchannel && v.clientSecret == d.clientSecret && v.redirect == d.redirect
    && PolicyAsked(s.config, v.issuer, r.defaultRole, r.subjects, v) && DomainFor(s.stored, v)
  }

  lemma BootValue(s: Server, r: BootstrapRequest, d: Deployed, v: Settings)
    requires DeploysTo(s, r, d, v)
    ensures var base := IdentityFromConfig(s.config).(issuer := EmbeddedIssuer(r));
            var policy := AccessPolicy(base, s.config, r.defaultRole, r.subjects);
            policy.Some? && KeepDomain(s.stored, Bootstrapped(r, d, policy.value)) == v
  {
    var base, bare := IdentityFromConfig(s.config).(issuer := EmbeddedIssuer(r)), v.(domain := NO_DOMAIN);
    PolicyIs(base, s.config, r.defaultRole, r.subjects, base.(defaultRole := v.defaultRole, subjects := v.subjects));
    if s.stored.Some? { BindingIs(s.stored.value, bare); }
  }

  lemma BootstrapStored(s: Server, r: BootstrapRequest, d: Deployed, valid: bool, discovered: bool, v: Settings, current: Settings)
    requires DeploysTo(s, r, d, v) && Acceptable(v, valid, discovered) && InForceIs(s, current)
    ensures Applied(s, Next(s, Boot(r, Some(d), valid, discovered)), v, Revokes(current, v))
  {
    BootValue(s, r, d, v);
    assert Next(s, Boot(r, Some(d), valid, discovered)) == SaveChecked(s, v, valid, discovered);
    CheckedSave(s, v, valid, discovered, current);
  }

  lemma BootstrapRefused(s: Server, r: BootstrapRequest, d: Option<Deployed>, valid: bool, discovered: bool)
    requires d.Some? ==> forall v :: DeploysTo(s, r, d.value, v) ==> !Acceptable(v, valid, discovered)
    ensures Next(s, Boot(r, d, valid, discovered)) == s
  {
    var base := IdentityFromConfig(s.config).(issuer := EmbeddedIssuer(r));
    var policy := AccessPolicy(base, s.config, r.defaultRole, r.subjects);
    if policy.Some? && d.Some? {
      var bare := Bootstrapped(r, d.value, policy.value);
      var v := KeepDomain(s.stored, bare);
      PolicyIs(base, s.config, r.defaultRole, r.subjects, policy.value);
      if s.stored.Some? { BindingIs(s.stored.value, bare); }
      assert DeploysTo(s, r, d.value, v);
    }
  }

  // --- The domain ---------------------------------------------------------------------------------------------

  /** Each of the three groups has its role; without a name it has none, and the later role wins. */
  ghost predicate RolesOf(r: DomainRequest, roles: map<string, string>) {
    if r.domain.groupMode == "manual" then roles == map[]
    else
      && (forall g :: g in roles <==> g != "" && (g == r.admins || g == r.operators || g == r.viewers))
      && (r.viewers != "" ==> roles[r.viewers] == "viewer")
      && (r.operators != "" && r.operators != r.viewers ==> roles[r.operators] == "operator")
      && (r.admins != "" && r.admins != r.operators && r.admins != r.viewers ==> roles[r.admins] == "admin")
  }

  lemma DomainRolesAre(r: DomainRequest)
    ensures RolesOf(r, DomainRoles(r.domain.groupMode, r.admins, r.operators, r.viewers))
  {}

  /** What is stored, or what is in force while nothing is. */
  predicate BaseIs(s: Server, base: Settings) {
    if s.stored.Some? then base == s.stored.value else InForceIs(s, base)
  }

  /**
   * A connection that succeeds puts the domain and the roles of its groups in force, changes nothing else of the
   * settings, and revokes the external sessions; any other changes nothing.
   */
  lemma Connecting(s: Server, r: DomainRequest, succeeds: bool, base: Settings)
    requires BaseIs(s, base)
    ensures var t := Next(s, Connect(r, succeeds));
            if s.config.enabled && succeeds
            then t.stored.Some? && RolesOf(r, t.config.roles)
                 && Applied(s, t, base.(domain := r.domain.(connected := true), roles := t.config.roles), true)
            else t == s
  {
    DomainRolesAre(r);
    assert base == Base(s);
    SaveApplies(s, base.(domain := r.domain.(connected := true),
                         roles := DomainRoles(r.domain.groupMode, r.admins, r.operators, r.viewers)), true);
  }

  // --- A single role ------------------------------------------------------------------------------------------

  /** One grant is written, or with an empty role taken away, and the external sessions are revoked. */
  lemma GivingARole(s: Server, userId: string, role: string, valid: bool, base: Settings)
    requires BaseIs(s, base)
    ensures var t, u, given := Next(s, UserRole(userId, role, valid)), TrimSpace(userId), TrimSpace(role);
            if u != "" && |u| <= 255 && given in {"", "admin", "operator", "viewer"} && (base.enabled ==> valid)
            then Applied(s, t, base.(subjects := if given == "" then base.subjects - {u} else base.subjects[u := given]), true)
            else t == s
  {
    assert base == Base(s);
    var u, given := TrimSpace(userId), TrimSpace(role);
    SaveApplies(s, base.(subjects := if given == "" then base.subjects - {u} else base.subjects[u := given]), true);
  }

  // --- Sessions -------------------------------------------------------------------------------------------------

  /** Sessions begin with a login that is allowed, and end with a logout or a recheck that fails. */
  lemma Sessions(s: Server, id: string, accepted: bool)
    ensures var t := Next(s, LocalLogin(id)); t == s.(sessions := t.sessions)
    ensures Next(s, LocalLogin(id)).sessions == if s.config.allowLocal && id !in s.sessions then s.sessions[id := Local] else s.sessions
    ensures Next(s, Logout(id)) == s.(sessions := s.sessions - {id})
    ensures id !in s.sessions ==>
              (id in Next(s, ExternalLogin(id)).sessions <==> s.authEnabled && s.config.enabled)
    ensures id in s.sessions ==> Next(s, ExternalLogin(id)) == s
    ensures id in s.sessions && s.sessions[id].External? ==>
              (id in Next(s, Recheck(id, accepted)).sessions <==> accepted && s.authEnabled && s.config.enabled)
    ensures !(id in s.sessions && s.sessions[id].External?) ==> Next(s, Recheck(id, accepted)) == s
  {}

  // --- Where the roles of groups come from ------------------------------------------------------------------------

  /** The step puts this role mapping in force, because it asked for it. */
  ghost predicate AsksForRoles(step: Step, roles: map<string, string>) {
    || (step.Set? && roles == step.request.roles)
    || (step.Boot? && roles == step.boot.roles)
    || (step.Connect? && RolesOf(step.connect, roles))
  }

  lemma RolesStep(s: Server, step: Step)
    requires Good(s)
    ensures Next(s, step).config.roles == s.config.roles || AsksForRoles(step, Next(s, step).config.roles)
  {
    if step.Connect? { DomainRolesAre(step.connect); }
  }

  lemma RolesInRun(states: seq<Server>, steps: seq<Step>, i: nat)
    requires IsRun(states, steps) && i < |steps|
    ensures states[i + 1].config.roles == states[i].config.roles || AsksForRoles(steps[i], states[i + 1].config.roles)
  {
    RunsAreGood(states, steps, i);
    assert Follows(states, steps, i);
    RolesStep(states[i], steps[i]);
  }

  /** In every run the role mapping in force is what the latest step that changed it asked for, or the one of the start. */
  lemma {:induction false} RolesGoBack(states: seq<Server>, steps: seq<Step>, n: nat) returns (k: nat)
    requires IsRun(states, steps) && n < |states|
    ensures k <= n && (k > 0 ==> AsksForRoles(steps[k - 1], states[k].config.roles))
    ensures forall m :: k <= m <= n ==> states[m].config.roles == states[n].config.roles
    ensures k > 0 ==> states[k - 1].config.roles != states[k].config.roles
  {
    k := n;
    if n > 0 {
      RolesInRun(states, steps, n - 1);
      if states[n - 1].config.roles == states[n].config.roles { k := RolesGoBack(states, steps, n - 1); }
    }
  }
}
