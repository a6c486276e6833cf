/**
 * The table of logins started at the external provider, which holds the state, the nonce and the PKCE
 * secret of each until the browser comes back (sections 4.1.1 and 10.12 of RFC 6749, section 4.1 of
 * RFC 7636, section 3.1.2.1 of OpenID Connect Core 1.0). Times are in seconds.
 */
module StartedLogins {
  import opened Text
  import opened Eviction
  import opened Sizes

  const TTL := 600
  const MAX_ENTRIES := 1024

  datatype Login = Login(state: string, nonce: string, verifier: string, redirect: string)

  datatype Entry = Entry(login: Login, expires: int)

  type Table = map<string, Entry>

  function Live(t: Table, now: int): Table {
    map k | k in t && now <= t[k].expires :: t[k]
  }

  function Ages(t: Table): map<string, int> {
    map k | k in t :: t[k].expires
  }

  predicate MustForce(t: Table, now: int) {
    |t| >= MAX_ENTRIES && |Live(t, now)| >= MAX_ENTRIES
  }

  /** Among the logins that expire first, the order the table is read in decides. */
  predicate Eligible(t: Table, now: int, victim: string) {
    MustForce(t, now) ==> IsOldest(Ages(Live(t, now)), victim)
  }

  function Evicted(t: Table, now: int, victim: string): Table {
    if |t| < MAX_ENTRIES then t
    else if |Live(t, now)| < MAX_ENTRIES then Live(t, now)
    else Without(Live(t, now), victim)
  }

  function Begun(t: Table, key: string, login: Login, now: int, victim: string): Table {
    Evicted(t, now, victim)[key := Entry(login, now + TTL)]
  }

  function Taken(t: Table, key: string, now: int): Option<Login> {
    if key in t && now <= t[key].expires then Some(t[key].login) else None
  }

  class Pending {
    var items: Table

    ghost predicate Valid()
      reads this
    {
      forall k :: k in items ==> items[k].expires > 0
    }

    constructor ()
      ensures Valid() && items == map[]
    {
      items := map[];
    }

    /** Remembers a started login. */
    method Begin(key: string, login: Login, now: int) returns (ghost victim: string)
      requires Valid() && now > 0
      modifies this
      ensures Valid() && Eligible(old(items), now, victim)
      ensures items == Begun(old(items), key, login, now, victim)
    {
      victim := Evict(now);
      items := items[key := Entry(login, now + TTL)];
    }

    /** Returns a started login and forgets it at once. */
    method Take(key: string, now: int) returns (login: Option<Login>)
      requires Valid()
      modifies this
      ensures Valid() && login == Taken(old(items), key, now) && items == old(items) - {key}
    {
      if key !in items { return None; }
      var entry := items[key];
      items := items - {key};
      if now > entry.expires { return None; }
      return Some(entry.login);
    }

    method Evict(now: int) returns (ghost victim: string)
      requires Valid()
      modifies this
      ensures Valid() && Eligible(old(items), now, victim) && items == Evicted(old(items), now, victim)
    {
      victim := "";
      if |items| < MAX_ENTRIES { return; }
      ghost var before := items;
      var rest := items.Keys;
      while rest != {}
        invariant rest <= before.Keys
        invariant items == map k | k in before && (k in rest || now <= before[k].expires) :: before[k]
        decreases rest
      {
        var k :| k in rest;
        rest := rest - {k};
        if now > items[k].expires { items := items - {k}; }
      }
      assert items == Live(before, now);
      if |items| < MAX_ENTRIES { return; }
      var oldest := FindOldest(Ages(items));
      assert Ages(items).Keys == items.Keys;
      victim := oldest;
      if oldest != "" { items := items - {oldest}; }
    }
  }

  // --- Runs -----------------------------------------------------------------------------------

  datatype Call =
    | Begin(key: string, at: int, login: Login, victim: string)
    | Take(key: string, at: int)

  function Next(t: Table, c: Call): Table {
    match c
    case Begin(key, at, login, victim) => Begun(t, key, login, at, victim)
    case Take(key, _) => t - {key}
  }

  predicate Follows(tables: seq<Table>, calls: seq<Call>, i: nat)
    requires |tables| == |calls| + 1 && i < |calls|
  {
    && calls[i].at > 0 && tables[i + 1] == Next(tables[i], calls[i])
    && (calls[i].Begin? ==> Eligible(tables[i], calls[i].at, calls[i].victim))
  }

  predicate NotLater(calls: seq<Call>, i: nat, j: nat)
    requires i <= j < |calls|
  {
    calls[i].at <= calls[j].at
  }

  predicate IsRun(tables: seq<Table>, calls: seq<Call>) {
    && |tables| == |calls| + 1 && tables[0] == map[]
    && (forall i: nat :: i < |calls| ==> Follows(tables, calls, i))
    && (forall i: nat, j: nat :: i <= j < |calls| ==> NotLater(calls, i, j))
  }

  /** The latest call for the key before call i, or -1. */
  function Latest(calls: seq<Call>, key: string, i: nat): (b: int)
    requires i <= |calls|
    ensures -1 <= b < i && (b >= 0 ==> calls[b].key == key)
    ensures forall m :: b < m < i ==> calls[m].key != key
  {
    if i == 0 then -1 else if calls[i - 1].key == key then i - 1 else Latest(calls, key, i - 1)
  }

  /** An ideal one-shot store, which looks only at the calls: what taking the key at call i should give. */
  function Ideal(calls: seq<Call>, key: string, i: nat): Option<Login>
    requires i < |calls|
  {
    var b := Latest(calls, key, i);
    if b >= 0 && calls[b].Begin? && calls[i].at <= calls[b].at + TTL then Some(calls[b].login) else None
  }

  /** The begun login of the key was forced out between its begin and call i. */
  predicate ForcedOut(tables: seq<Table>, calls: seq<Call>, key: string, i: nat)
    requires |tables| == |calls| + 1 && i <= |calls|
  {
    exists m :: Latest(calls, key, i) < m < i && calls[m].Begin? && calls[m].victim == key && MustForce(tables[m], calls[m].at)
  }

  /** What the table holds is what was begun last. */
  predicate Holds(t: Table, calls: seq<Call>, key: string, i: nat)
    requires i <= |calls|
  {
    key in t ==> var b := Latest(calls, key, i);
                 b >= 0 && calls[b].Begin? && t[key] == Entry(calls[b].login, calls[b].at + TTL)
  }

  lemma {:induction false} TableHoldsTheLatest(tables: seq<Table>, calls: seq<Call>, key: string, i: nat)
    requires IsRun(tables, calls) && i <= |calls|
    ensures Holds(tables[i], calls, key, i)
  {
    if i > 0 {
      TableHoldsTheLatest(tables, calls, key, i - 1);
      assert Follows(tables, calls, i - 1);
    }
  }

  /** A begun login stays until it is taken, expires or is forced out. */
  lemma {:induction false} BegunStays(tables: seq<Table>, calls: seq<Call>, key: string, i: nat, now: int)
    requires IsRun(tables, calls) && i <= |calls| && (i > 0 ==> calls[i - 1].at <= now)
    requires var b := Latest(calls, key, i); b >= 0 && calls[b].Begin? && now <= calls[b].at + TTL
    requires !ForcedOut(tables, calls, key, i)
    ensures key in tables[i]
  {
    assert Follows(tables, calls, i - 1);
    if calls[i - 1].key != key {
      assert NotLater(calls, i - 2, i - 1);
      BegunStays(tables, calls, key, i - 1, now);
      TableHoldsTheLatest(tables, calls, key, i - 1);
      StaysUnlessForced(tables[i - 1], calls[i - 1], key);
    }
  }

  /** A live login leaves the table only when taken, or when nothing expired could make room for another. */
  lemma StaysUnlessForced(t: Table, c: Call, key: string)
    requires key in t && c.key != key && c.at <= t[key].expires
    requires c.Begin? ==> Eligible(t, c.at, c.victim)
    ensures key !in Next(t, c) ==>
              c.Begin? && MustForce(t, c.at) && c.victim == key && forall k :: k in Live(t, c.at) ==> t[key].expires <= t[k].expires
    ensures key in Next(t, c) ==> Next(t, c)[key] == t[key]
  {
    assert key in Live(t, c.at);
    if key !in Next(t, c) {
      assert IsOldest(Ages(Live(t, c.at)), key);
      assert forall k :: k in Live(t, c.at) ==> k in Ages(Live(t, c.at));
    }
  }

  /** Taking never yields anything but what the ideal store would, and yields exactly that unless it was forced out. */
  lemma TakeIsIdeal(tables: seq<Table>, calls: seq<Call>, i: nat)
    requires IsRun(tables, calls) && i < |calls| && calls[i].Take?
    ensures var got := Taken(tables[i], calls[i].key, calls[i].at);
            && (got.Some? ==> got == Ideal(calls, calls[i].key, i))
            && (!ForcedOut(tables, calls, calls[i].key, i) ==> got == Ideal(calls, calls[i].key, i))
  {
    var key := calls[i].key;
    TableHoldsTheLatest(tables, calls, key, i);
    if Ideal(calls, key, i).Some? && !ForcedOut(tables, calls, key, i) {
      assert NotLater(calls, i - 1, i);
      BegunStays(tables, calls, key, i, calls[i].at);
    }
  }

  /** Every successful take has its own begin, at most ten minutes earlier, and returns what was begun. */
  lemma TakenOnce(tables: seq<Table>, calls: seq<Call>, i: nat, j: nat)
    requires IsRun(tables, calls) && i < j < |calls| && calls[i].Take? && calls[j].Take?
    requires Taken(tables[i], calls[i].key, calls[i].at).Some? && Taken(tables[j], calls[j].key, calls[j].at).Some?
    ensures var a, b := Latest(calls, calls[i].key, i), Latest(calls, calls[j].key, j);
            && a >= 0 && b >= 0 && a != b && calls[a].Begin? && calls[b].Begin?
            && calls[i].at - calls[a].at <= TTL && calls[j].at - calls[b].at <= TTL
            && Taken(tables[i], calls[i].key, calls[i].at).value == calls[a].login
            && Taken(tables[j], calls[j].key, calls[j].at).value == calls[b].login
  {
    TakeIsIdeal(tables, calls, i);
    TakeIsIdeal(tables, calls, j);
  }

  // --- The table stays bounded ---------------------------------------------------------------

  /** Eviction makes room, except when the login to drop has the empty key. */
  lemma EvictionMakesRoom(t: Table, now: int, victim: string)
    requires |t| <= MAX_ENTRIES && Eligible(t, now, victim)
    ensures if MustForce(t, now) && victim == ""
            then Evicted(t, now, victim) == Live(t, now) && |Live(t, now)| == MAX_ENTRIES
            else |Evicted(t, now, victim)| < MAX_ENTRIES
  {
    SmallerMap(Live(t, now), t);
    if MustForce(t, now) {
      assert victim in Ages(Live(t, now));
      RemoveSize(Live(t, now), victim);
    }
  }

  /** Beginning a login keeps the table within its bound, except when a new key comes and the empty one should go. */
  lemma BoundExactlyWhen(t: Table, key: string, login: Login, now: int, victim: string)
    requires |t| <= MAX_ENTRIES && Eligible(t, now, victim)
    ensures |Begun(t, key, login, now, victim)| <= MAX_ENTRIES <==>
            !(MustForce(t, now) && victim == "" && key !in Live(t, now))
  {
    EvictionMakesRoom(t, now, victim);
    InsertSize(Evicted(t, now, victim), key, Entry(login, now + TTL));
  }

  predicate Bounded(t: Table) { |t| <= MAX_ENTRIES && "" !in t }

  lemma BoundStep(t: Table, c: Call)
    requires Bounded(t)
    requires c.Begin? ==> Eligible(t, c.at, c.victim) && c.key != ""
    ensures Bounded(Next(t, c))
  {
    if c.Begin? {
      BoundExactlyWhen(t, c.key, c.login, c.at, c.victim);
      assert "" !in Live(t, c.at);
    } else {
      RemoveSize(t, c.key);
    }
  }

  lemma BoundFollows(tables: seq<Table>, calls: seq<Call>, i: nat)
    requires |tables| == |calls| + 1 && i < |calls| && Follows(tables, calls, i)
    requires Bounded(tables[i]) && (calls[i].Begin? ==> calls[i].key != "")
    ensures Bounded(tables[i + 1])
  {
    BoundStep(tables[i], calls[i]);
  }

  /** As long as no login is begun under the empty key, the table never exceeds its bound. */
  lemma {:induction false} TableIsBounded(tables: seq<Table>, calls: seq<Call>, i: nat)
    requires IsRun(tables, calls) && i < |tables|
    requires forall m :: 0 <= m < i && calls[m].Begin? ==> calls[m].key != ""
    ensures Bounded(tables[i])
  {
    if i > 0 {
      TableIsBounded(tables, calls, i - 1);
      BoundFollows(tables, calls, i - 1);
    }
  }

  /** The logins that can still be completed. */
  function Current(t: Table, now: int): set<string> {
    set k | k in t && now <= t[k].expires
  }

  /** A login that can still be completed is dropped only when 1024 of them can. */
  lemma ForcedExactlyWhen(t: Table, now: int)
    ensures MustForce(t, now) <==> |Current(t, now)| >= 1024
  {
    assert Live(t, now).Keys == Current(t, now);
    SmallerSet(Current(t, now), t.Keys);
  }

  /** A login that was just begun can be completed for ten minutes, the last one included, and not later. */
  lemma TenMinutes(t: Table, key: string, login: Login, now: int, victim: string, later: int)
    ensures Taken(Begun(t, key, login, now, victim), key, later) == if later <= now + 10 * 60 then Some(login) else None
  {}
}
