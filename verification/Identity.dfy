/** The settings of the external login, the handlers that change them, and the sessions that depend on them. */
module Identity {
  import opened Text

  datatype Domain = Domain(
    connected: bool, name: string, provider: string, url: string,
    usersDn: string, groupsDn: string, bindDn: string, groupMode: string, checkedAt: Option<int>)

  const NO_DOMAIN := Domain(false, "", "", "", "", "", "", "", None)

  /** What the database holds. */
  datatype Settings = Settings(
    enabled: bool, issuer: string, backchannel: string, clientId: string, clientSecret: string,
    redirect: string, groupsClaim: string, roles: map<string, string>,
    defaultRole: string, subjects: map<string, string>, allowLocal: bool, domain: Domain)

  /** What the login works with. */
  datatype Config = Config(
    enabled: bool, issuer: string, backchannel: string, clientId: string, clientSecret: string,
    redirect: string, groupsClaim: string, roles: map<string, string>,
    defaultRole: string, subjects: map<string, string>, allowLocal: bool)

  function ConfigFromIdentity(s: Settings): Config {
    Config(s.enabled, s.issuer, s.backchannel, s.clientId, s.clientSecret, s.redirect, s.groupsClaim, s.roles,
           s.defaultRole, s.subjects, s.allowLocal)
  }

  function IdentityFromConfig(c: Config): Settings {
    Settings(c.enabled, c.issuer, c.backchannel, c.clientId, c.clientSecret, c.redirect, c.groupsClaim, c.roles,
             c.defaultRole, c.subjects, c.allowLocal, NO_DOMAIN)
  }

  // --- Binding and policy -----------------------------------------------------------------------

  function TrimUrl(s: string): string { TrimSlashes(TrimSpace(s)) }

  /** The values a check of the domain was made for, up to surrounding white space and trailing slashes. */
  datatype Binding = Binding(
    issuer: string, backchannel: string, clientId: string, clientSecret: string,
    redirect: string, groupsClaim: string, roles: map<string, string>)

  function BindingOf(s: Settings): Binding {
    Binding(TrimUrl(s.issuer), TrimUrl(s.backchannel), TrimSpace(s.clientId), s.clientSecret,
            TrimUrl(s.redirect), TrimSpace(s.groupsClaim), s.roles)
  }

  predicate BindingChanged(before: Settings, after: Settings) {
    || TrimUrl(before.issuer) != TrimUrl(after.issuer)
    || TrimUrl(before.backchannel) != TrimUrl(after.backchannel)
    || TrimSpace(before.clientId) != TrimSpace(after.clientId)
    || before.clientSecret != after.clientSecret
    || TrimUrl(before.redirect) != TrimUrl(after.redirect)
    || TrimSpace(before.groupsClaim) != TrimSpace(after.groupsClaim)
    || before.roles != after.roles
  }

  datatype Policy = Policy(defaultRole: string, subjects: map<string, string>)

  function PolicyOf(s: Settings): Policy { Policy(s.defaultRole, s.subjects) }

  predicate PolicyChanged(before: Settings, after: Settings) {
    before.defaultRole != after.defaultRole || before.subjects != after.subjects
  }

  /** "Not changed" is sameness of the binding, hence an equivalence, and so it is for the policy. */
  lemma UnchangedIsSame(a: Settings, b: Settings)
    ensures !BindingChanged(a, b) <==> BindingOf(a) == BindingOf(b)
    ensures !PolicyChanged(a, b) <==> PolicyOf(a) == PolicyOf(b)
  {}

  /** Going through the configuration loses neither the binding nor the policy. */
  lemma ConversionKeeps(s: Settings)
    ensures BindingOf(IdentityFromConfig(ConfigFromIdentity(s))) == BindingOf(s)
    ensures PolicyOf(IdentityFromConfig(ConfigFromIdentity(s))) == PolicyOf(s)
    ensures IdentityFromConfig(ConfigFromIdentity(s)) == s.(domain := NO_DOMAIN)
  {}

  // --- Access policy ----------------------------------------------------------------------------

  predicate BuiltinRole(role: string) { role == "admin" || role == "operator" || role == "viewer" }

  predicate IsControl(c: char) { c < ' ' || '\U{007F}' <= c <= '\U{009F}' }

  predicate ExactSubject(subject: string) {
    && subject != "" && |subject| <= 255 && TrimSpace(subject) == subject
    && forall i :: 0 <= i < |subject| ==> !IsControl(subject[i])
  }

  predicate ValidSubjects(subjects: map<string, string>) {
    forall s :: s in subjects ==> ExactSubject(s) && BuiltinRole(subjects[s])
  }

  /** The access policy of a new value: inherited or requested, and without manual grants from another provider. */
  function AccessPolicy(value: Settings, current: Config, fallback: Option<string>, subjects: Option<map<string, string>>)
      : (r: Option<Settings>)
    ensures r.Some? ==> r.value == value.(defaultRole := r.value.defaultRole, subjects := r.value.subjects)
    ensures r.Some? ==> ValidSubjects(r.value.subjects)
    ensures r.Some? && TrimSlashes(value.issuer) != TrimSlashes(current.issuer) ==> r.value.subjects == map[]
    ensures r.Some? ==> r.value.defaultRole in {current.defaultRole, "", "viewer"}
  {
    var moved := TrimSlashes(value.issuer) != TrimSlashes(current.issuer);
    var role := if fallback.Some? then fallback.value else current.defaultRole;
    var granted := if moved then map[] else if subjects.Some? then subjects.value else current.subjects;
    if fallback.Some? && role != "" && role != "viewer" then None
    else if moved && subjects.Some? && subjects.value != map[] then None
    else if !ValidSubjects(granted) then None
    else Some(value.(defaultRole := role, subjects := granted))
  }

  /** Local login may be off only with the external one on and its domain connected. */
  predicate FallbackKept(s: Settings) {
    s.allowLocal || (s.enabled && s.domain.connected)
  }

  // --- The state ----------------------------------------------------------------------------------

  /** An external session remembers what it was last checked under. */
  datatype Session = Local | External(binding: Binding, policy: Policy)

  datatype Server = Server(stored: Option<Settings>, config: Config, authEnabled: bool, sessions: map<string, Session>)

  /** The settings in force. */
  function InForce(s: Server): Settings { IdentityFromConfig(s.config) }

  function WithoutExternal(sessions: map<string, Session>): map<string, Session> {
    map id | id in sessions && sessions[id].Local? :: sessions[id]
  }

  function Save(s: Server, value: Settings, revoke: bool): Server {
    s.(stored := Some(value), config := ConfigFromIdentity(value),
       sessions := if revoke then WithoutExternal(s.sessions) else s.sessions)
  }

  /** A value keeps the connection of the domain only if the binding it was made for is the same. */
  function KeepDomain(stored: Option<Settings>, value: Settings): Settings {
    value.(domain := if stored.Some? && !BindingChanged(stored.value, value) then stored.value.domain else NO_DOMAIN)
  }

  /** Sessions are revoked when the binding or the access policy in force changes. */
  predicate MustRevoke(s: Server, value: Settings) {
    BindingChanged(InForce(s), value) || PolicyChanged(InForce(s), value)
  }

  // --- Handlers -----------------------------------------------------------------------------------

  datatype WriteRequest = WriteRequest(
    enabled: bool, issuer: string, backchannel: string, clientId: string, clientSecret: string,
    redirect: string, groupsClaim: string, roles: map<string, string>,
    defaultRole: Option<string>, subjects: Option<map<string, string>>, allowLocal: bool)

  /** An empty secret stands for the one in use, as long as client and provider stay the same. */
  function SecretFor(r: WriteRequest, current: Config): string {
    if r.clientSecret == "" && TrimSpace(r.clientId) == TrimSpace(current.clientId) && TrimUrl(r.issuer) == TrimUrl(current.issuer)
    then current.clientSecret else r.clientSecret
  }

  function Written(r: WriteRequest, current: Config): Settings {
    Settings(r.enabled, TrimUrl(r.issuer), TrimUrl(r.backchannel), TrimSpace(r.clientId), SecretFor(r, current),
             TrimUrl(r.redirect), if TrimSpace(r.groupsClaim) == "" then "groups" else TrimSpace(r.groupsClaim), r.roles,
             "", map[], r.allowLocal, NO_DOMAIN)
  }

  /** Saves a value unless it loses the fallback, is refused by validation, or the provider is not found. */
  function SaveChecked(s: Server, value: Settings, valid: bool, discovered: bool): Server {
    if !FallbackKept(value) || (value.enabled && (!valid || !discovered)) then s
    else Save(s, value, MustRevoke(s, value))
  }

  function SetSettings(s: Server, r: WriteRequest, valid: bool, discovered: bool): Server {
    if r.enabled && SecretFor(r, s.config) == "" then s
    else
      var value := AccessPolicy(Written(r, s.config), s.config, r.defaultRole, r.subjects);
      if value.None? then s else SaveChecked(s, KeepDomain(s.stored, value.value), valid, discovered)
  }

  /** What the host helper reports after deploying the embedded provider, and the redirect address of the server. */
  datatype Deployed = Deployed(backchannel: string, clientSecret: string, redirect: string)

  datatype BootstrapRequest = BootstrapRequest(
    publicUrl: string, realm: string, clientId: string, roles: map<string, string>,
    defaultRole: Option<string>, subjects: Option<map<string, string>>, allowLocal: bool)

  /** The issuer the handler judges manual grants by; the helper forms the one it reports in the same way. */
  function EmbeddedIssuer(r: BootstrapRequest): string {
    TrimUrl(r.publicUrl) + "/realms/" + TrimSpace(r.realm)
  }

  function Bootstrapped(r: BootstrapRequest, d: Deployed, policy: Settings): Settings {
    Settings(true, EmbeddedIssuer(r), d.backchannel, TrimSpace(r.clientId), d.clientSecret, d.redirect, "groups", r.roles,
             policy.defaultRole, policy.subjects, r.allowLocal, NO_DOMAIN)
  }

  function Bootstrap(s: Server, r: BootstrapRequest, d: Option<Deployed>, valid: bool, discovered: bool): Server {
    var policy := AccessPolicy(IdentityFromConfig(s.config).(issuer := EmbeddedIssuer(r)), s.config, r.defaultRole, r.subjects);
    if policy.None? || d.None? then s
    else SaveChecked(s, KeepDomain(s.stored, Bootstrapped(r, d.value, policy.value)), valid, discovered)
  }

  /** The groups of a domain and their roles; a later role wins when two share a group. */
  function DomainRoles(mode: string, admins: string, operators: string, viewers: string): map<string, string> {
    if mode == "manual" then map[]
    else map[admins := "admin"][operators := "operator"][viewers := "viewer"] - {""}
  }

  /** What is stored, or else what is in force. */
  function Base(s: Server): Settings {
    if s.stored.Some? then s.stored.value else InForce(s)
  }

  datatype DomainRequest = DomainRequest(domain: Domain, admins: string, operators: string, viewers: string)

  predicate DomainConfigured(s: Server, succeeds: bool) { s.config.enabled && succeeds }

  function ConfigureDomain(s: Server, r: DomainRequest, succeeds: bool): Server {
    if !DomainConfigured(s, succeeds) then s
    else
      Save(s, Base(s).(domain := r.domain.(connected := true),
                       roles := DomainRoles(r.domain.groupMode, r.admins, r.operators, r.viewers)), true)
  }

  /** The subject is not checked for control characters, as it is in the access policy. */
  predicate RoleAccepted(s: Server, subject: string, role: string, valid: bool) {
    subject != "" && |subject| <= 255 && (role == "" || BuiltinRole(role)) && (Base(s).enabled ==> valid)
  }

  function SetRole(s: Server, subject: string, role: string, valid: bool): Server {
    var base := Base(s);
    if !RoleAccepted(s, subject, role, valid) then s
    else
      Save(s, base.(subjects := if role == "" then base.subjects - {subject} else base.subjects[subject := role]), true)
  }

  function SetUserRole(s: Server, userId: string, role: string, valid: bool): Server {
    SetRole(s, TrimSpace(userId), TrimSpace(role), valid)
  }

  datatype Step =
    | Set(request: WriteRequest, valid: bool, discovered: bool)
    | Boot(boot: BootstrapRequest, deployed: Option<Deployed>, valid: bool, discovered: bool)
    | Connect(connect: DomainRequest, succeeds: bool)
    | UserRole(userId: string, role: string, valid: bool)
    | LocalLogin(id: string)
    | Logout(id: string)
    | ExternalLogin(id: string)
    | Recheck(id: string, accepted: bool)
    | Restart

  function Next(s: Server, step: Step): Server {
    match step
    case Set(r, valid, discovered) => SetSettings(s, r, valid, discovered)
    case Boot(r, d, valid, discovered) => Bootstrap(s, r, d, valid, discovered)
    case Connect(r, succeeds) => ConfigureDomain(s, r, succeeds)
    case UserRole(userId, role, valid) => SetUserRole(s, userId, role, valid)
    case LocalLogin(id) => if s.config.allowLocal && id !in s.sessions then s.(sessions := s.sessions[id := Local]) else s
    case Logout(id) => s.(sessions := s.sessions - {id})
    case ExternalLogin(id) =>
      if s.authEnabled && s.config.enabled && id !in s.sessions
      then s.(sessions := s.sessions[id := External(BindingOf(InForce(s)), PolicyOf(InForce(s)))]) else s
    case Recheck(id, accepted) =>
      if id !in s.sessions || s.sessions[id].Local? then s
      else if !accepted || !s.authEnabled || !s.config.enabled then s.(sessions := s.sessions - {id})
      else s.(sessions := s.sessions[id := External(BindingOf(InForce(s)), PolicyOf(InForce(s)))])
    case Restart => if s.stored.Some? then s.(config := ConfigFromIdentity(s.stored.value)) else s
  }
}
