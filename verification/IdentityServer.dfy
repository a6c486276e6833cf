/** The identity handlers as they update the stored settings, the configuration in force and the sessions. */
module IdentityServer {
  import opened Text
  import opened Identity

  /** Looks at the manual grants one by one. */
  method CheckSubjects(subjects: map<string, string>) returns (good: bool)
    ensures good == ValidSubjects(subjects)
  {
    var rest := subjects.Keys;
    while rest != {}
      invariant rest <= subjects.Keys
      invariant forall s :: s in subjects && s !in rest ==> ExactSubject(s) && BuiltinRole(subjects[s])
      decreases rest
    {
      var s :| s in rest;
      rest := rest - {s};
      if !ExactSubject(s) || !BuiltinRole(subjects[s]) { return false; }
    }
    return true;
  }

  /** Fills in the access policy of a new value, or refuses it. */
  method ApplyAccessPolicy(value: Settings, current: Config, fallback: Option<string>, subjects: Option<map<string, string>>)
      returns (r: Option<Settings>)
    ensures r == AccessPolicy(value, current, fallback, subjects)
  {
    var role := current.defaultRole;
    if fallback.Some? {
      if fallback.value != "" && fallback.value != "viewer" { return None; }
      role := fallback.value;
    }
    var granted := current.subjects;
    if TrimSlashes(value.issuer) != TrimSlashes(current.issuer) {
      granted := map[];
      if subjects.Some? && subjects.value != map[] { return None; }
    } else if subjects.Some? {
      granted := subjects.value;
    }
    var good := CheckSubjects(granted);
    if !good { return None; }
    return Some(value.(defaultRole := role, subjects := granted));
  }

  class Handlers {
    var stored: Option<Settings>
    var config: Config
    var authEnabled: bool
    var sessions: map<string, Session>

    ghost function View(): Server
      reads this
    {
      Server(stored, config, authEnabled, sessions)
    }

    /** Revokes if need be, stores the value and puts it in force. */
    method Store(value: Settings, revoke: bool)
      modifies `stored, `config, `sessions
      ensures View() == Save(old(View()), value, revoke)
    {
      if revoke { sessions := WithoutExternal(sessions); }
      stored := Some(value);
      config := ConfigFromIdentity(value);
    }

    method StoreChecked(value: Settings, valid: bool, discovered: bool)
      modifies `stored, `config, `sessions
      ensures View() == SaveChecked(old(View()), value, valid, discovered)
    {
      var current := IdentityFromConfig(config);
      var changed := BindingChanged(current, value) || PolicyChanged(current, value);
      if !value.allowLocal && (!value.enabled || !value.domain.connected) { return; }
      if value.enabled && (!valid || !discovered) { return; }
      Store(value, changed);
    }

    /** The value a request asks for, its access policy not yet filled in. */
    method Candidate(r: WriteRequest) returns (value: Settings)
      ensures value == Written(r, config)
    {
      var secret := r.clientSecret;
      if secret == "" && TrimSpace(r.clientId) == TrimSpace(config.clientId) && TrimUrl(r.issuer) == TrimUrl(config.issuer) {
        secret := config.clientSecret;
      }
      var claim := TrimSpace(r.groupsClaim);
      if claim == "" { claim := "groups"; }
      value := Settings(r.enabled, TrimUrl(r.issuer), TrimUrl(r.backchannel), TrimSpace(r.clientId), secret,
                        TrimUrl(r.redirect), claim, r.roles, "", map[], r.allowLocal, NO_DOMAIN);
    }

    method SetIdentitySettings(r: WriteRequest, valid: bool, discovered: bool)
      modifies `stored, `config, `sessions
      ensures View() == Next(old(View()), Set(r, valid, discovered))
    {
      var value := Candidate(r);
      if r.enabled && value.clientSecret == "" { return; }
      var checked := ApplyAccessPolicy(value, config, r.defaultRole, r.subjects);
      if checked.None? { return; }
      value := checked.value;
      if stored.Some? {
        value := value.(domain := stored.value.domain);
        if BindingChanged(stored.value, value) { value := value.(domain := NO_DOMAIN); }
      }
      StoreChecked(value, valid, discovered);
    }

    /** A new value keeps the connected domain if the binding stays the same. */
    method InheritDomain(value: Settings) returns (kept: Settings)
      requires value.domain == NO_DOMAIN
      ensures kept == KeepDomain(stored, value)
    {
      kept := value;
      if stored.Some? && !BindingChanged(stored.value, value) { kept := value.(domain := stored.value.domain); }
    }

    method EmbeddedPolicy(r: BootstrapRequest) returns (policy: Option<Settings>)
      ensures policy == AccessPolicy(IdentityFromConfig(config).(issuer := EmbeddedIssuer(r)), config, r.defaultRole, r.subjects)
    {
      policy := ApplyAccessPolicy(IdentityFromConfig(config).(issuer := EmbeddedIssuer(r)), config, r.defaultRole, r.subjects);
    }

    method BootstrapEmbedded(r: BootstrapRequest, d: Option<Deployed>, valid: bool, discovered: bool)
      modifies `stored, `config, `sessions
      ensures View() == Next(old(View()), Boot(r, d, valid, discovered))
    {
      var policy := EmbeddedPolicy(r);
      if policy.None? || d.None? { return; }
      var value := Bootstrapped(r, d.value, policy.value);
      value := InheritDomain(value);
      StoreChecked(value, valid, discovered);
    }

    method ConfigureDomain(r: DomainRequest, succeeds: bool)
      modifies `stored, `config, `sessions
      ensures View() == Next(old(View()), Connect(r, succeeds))
    {
      if !config.enabled || !succeeds { return; }
      var value := IdentityFromConfig(config);
      if stored.Some? { value := stored.value; }
      value := value.(domain := r.domain.(connected := true), roles := map[]);
      if r.domain.groupMode != "manual" {
        value := value.(roles := map[r.admins := "admin"][r.operators := "operator"][r.viewers := "viewer"] - {""});
      }
      Store(value, true);
    }

    method SetIdentityUserRole(userId: string, role: string, valid: bool)
      modifies `stored, `config, `sessions
      ensures View() == Next(old(View()), UserRole(userId, role, valid))
    {
      var subject, given := TrimSpace(userId), TrimSpace(role);
      if subject == "" || |subject| > 255 { return; }
      if given != "" && !BuiltinRole(given) { return; }
      var value := IdentityFromConfig(config);
      if stored.Some? { value := stored.value; }
      if given == "" {
        value := value.(subjects := value.subjects - {subject});
      } else {
        value := value.(subjects := value.subjects[subject := given]);
      }
      if value.enabled && !valid { return; }
      Store(value, true);
    }
  }
}
