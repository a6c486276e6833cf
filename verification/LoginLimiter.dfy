/** The login limiter: a bounded table of recent failures per account. Times are in nanoseconds. */
module LoginLimiter {
  import opened Eviction
  import Sizes

  const SECOND := 1_000_000_000
  const MINUTE := 60 * SECOND
  const THRESHOLD := 5
  const BASE_COOLDOWN := MINUTE
  const MAX_COOLDOWN := 15 * MINUTE
  const WINDOW := 30 * MINUTE
  const MAX_ENTRIES := 4096

  /** A time of zero means "never"; every clock reading is positive. */
  datatype Attempts = Attempts(failures: nat, blockedTo: int, seen: int)

  type Table = map<string, Attempts>

  const FRESH := Attempts(0, 0, 0)

  function Pow2(n: nat): (p: nat)
    ensures p >= 1
  {
    if n == 0 then 1 else 2 * Pow2(n - 1)
  }

  /** The pause after the given number of failures. */
  function Cooldown(failures: nat): int
    requires failures >= THRESHOLD
  {
    var over := failures - THRESHOLD;
    var shifted := BASE_COOLDOWN * Pow2(if over < 8 then over else 8);
    if shifted > MAX_COOLDOWN || shifted <= 0 then MAX_COOLDOWN else shifted
  }

  predicate Allows(t: Table, key: string, now: int) {
    key !in t || t[key].blockedTo <= now
  }

  /** How long to wait, to the nearest second. */
  function Wait(t: Table, key: string, now: int): int {
    if Allows(t, key, now) then 0 else (t[key].blockedTo - now + SECOND / 2) / SECOND * SECOND
  }

  /** The entry after one more failure; an old series does not count. */
  function Failure(e: Attempts, now: int): Attempts {
    var failures := (if e.seen != 0 && now - e.seen > WINDOW then 0 else e.failures) + 1;
    Attempts(failures, if failures >= THRESHOLD then now + Cooldown(failures) else e.blockedTo, now)
  }

  predicate Stale(e: Attempts, now: int) {
    e.blockedTo < now && now - e.seen > WINDOW
  }

  function Purged(t: Table, now: int): Table {
    map k | k in t && !Stale(t[k], now) :: t[k]
  }

  function Ages(t: Table): map<string, int> {
    map k | k in t :: t[k].seen
  }

  /** Nothing stale is left to drop, so a current entry has to go. */
  predicate MustForce(t: Table, now: int) {
    |t| >= MAX_ENTRIES && |Purged(t, now)| >= MAX_ENTRIES
  }

  /** Which current entry goes is up to the order the table is read in, among the oldest ones. */
  predicate Eligible(t: Table, now: int, victim: string) {
    MustForce(t, now) ==> IsOldest(Ages(Purged(t, now)), victim)
  }

  function Evicted(t: Table, now: int, victim: string): Table {
    if |t| < MAX_ENTRIES then t
    else if |Purged(t, now)| < MAX_ENTRIES then Purged(t, now)
    else Without(Purged(t, now), victim)
  }

  function Failed(t: Table, key: string, now: int, victim: string): Table {
    if key in t then t[key := Failure(t[key], now)]
    else Evicted(t, now, victim)[key := Failure(FRESH, now)]
  }

  class Limiter {
    var users: Table

    ghost predicate Valid()
      reads this
    {
      forall k :: k in users ==> users[k].seen > 0
    }

    constructor ()
      ensures Valid() && users == map[]
    {
      users := map[];
    }

    method Allow(key: string, now: int) returns (ok: bool, wait: int)
      ensures ok == Allows(users, key, now) && wait == Wait(users, key, now)
    {
      if key !in users { return true, 0; }
      var st := users[key];
      if now < st.blockedTo {
        return false, (st.blockedTo - now + SECOND / 2) / SECOND * SECOND;
      }
      return true, 0;
    }

    method Fail(key: string, now: int) returns (ghost victim: string)
      requires Valid() && now > 0
      modifies this
      ensures Valid()
      ensures key !in old(users) ==> Eligible(old(users), now, victim)
      ensures users == Failed(old(users), key, now, victim)
    {
      victim := "";
      var st := FRESH;
      if key in users {
        st := users[key];
      } else {
        victim := Evict(now);
      }
      if st.seen != 0 && now - st.seen > WINDOW { st := st.(failures := 0); }
      st := st.(failures := st.failures + 1, seen := now);
      if st.failures >= THRESHOLD {
        st := st.(blockedTo := now + Cooldown(st.failures));
      }
      users := users[key := st];
    }

    method Reset(key: string)
      requires Valid()
      modifies this
      ensures Valid() && users == old(users) - {key}
    {
      users := users - {key};
    }

    /** Makes room before an entry is added: first what is stale, then the oldest. */
    method Evict(now: int) returns (ghost victim: string)
      requires Valid()
      modifies this
      ensures Valid() && Eligible(old(users), now, victim) && users == Evicted(old(users), now, victim)
    {
      victim := "";
      if |users| < MAX_ENTRIES { return; }
      ghost var before := users;
      var rest := users.Keys;
      while rest != {}
        invariant rest <= before.Keys
        invariant users == map k | k in before && (k in rest || !Stale(before[k], now)) :: before[k]
        decreases rest
      {
        var k :| k in rest;
        rest := rest - {k};
        if Stale(users[k], now) { users := users - {k}; }
      }
      assert users == Purged(before, now);
      if |users| < MAX_ENTRIES { return; }
      var oldest := FindOldest(Ages(users));
      assert Ages(users).Keys == users.Keys;
      victim := oldest;
      if oldest != "" { users := users - {oldest}; }
    }
  }

  /** The shifted pause equals the doubling one, capped, and always fits sixty-three bits. */
  lemma CooldownDoubles(failures: nat)
    requires failures >= THRESHOLD
    ensures Cooldown(failures) ==
            var doubled := BASE_COOLDOWN * Pow2(failures - THRESHOLD);
            if doubled < MAX_COOLDOWN then doubled else MAX_COOLDOWN
    ensures 0 < BASE_COOLDOWN * Pow2(if failures - THRESHOLD < 8 then failures - THRESHOLD else 8) < 0x8000_0000_0000_0000
  {
    var over := failures - THRESHOLD;
    Pow2Grows(if over < 8 then over else 8, 8);
    if over >= 8 { Pow2Grows(4, over); Pow2Grows(4, 8); }
    assert Pow2(4) == 16 && Pow2(8) == 16 * Pow2(4);
  }

  lemma {:induction false} Pow2Grows(a: nat, b: nat)
    requires a <= b
    ensures Pow2(a) <= Pow2(b)
  {
    if a < b { Pow2Grows(a, b - 1); }
  }

  lemma CooldownGrows(a: nat, b: nat)
    requires THRESHOLD <= a <= b
    ensures Cooldown(a) <= Cooldown(b)
  {
    var m, n := a - THRESHOLD, b - THRESHOLD;
    Pow2Grows(m, n);
    assert BASE_COOLDOWN * Pow2(m) <= BASE_COOLDOWN * Pow2(n);
    CooldownDoubles(a);
    CooldownDoubles(b);
  }

  /** The wait is the rest of the pause to the nearest whole second, and none when there is no pause. */
  lemma WaitIsNearest(t: Table, key: string, now: int)
    ensures key !in t || t[key].blockedTo <= now ==> Wait(t, key, now) == 0
    ensures key in t && now < t[key].blockedTo ==>
              var wait, rest := Wait(t, key, now), t[key].blockedTo - now;
              wait % SECOND == 0 && rest - SECOND / 2 < wait <= rest + SECOND / 2
  {}

  /** One more failure: the series goes on, or begins anew after half an hour, and the fifth and later ones block. */
  lemma FailureIs(e: Attempts, now: int)
    ensures var f := Failure(e, now);
            && f.seen == now && f.failures == (if e.seen != 0 && now - e.seen > 30 * MINUTE then 1 else e.failures + 1)
            && (f.failures < 5 ==> f.blockedTo == e.blockedTo) && (f.failures >= 5 ==> f.blockedTo == now + Cooldown(f.failures))
  {}

  /** The entries that still matter: blocked, or seen within half an hour. */
  function Current(t: Table, now: int): set<string> {
    set k | k in t && (t[k].blockedTo >= now || now - t[k].seen <= 30 * MINUTE)
  }

  /** An entry that matters is dropped only when 4096 of them do. */
  lemma ForcedExactlyWhen(t: Table, now: int)
    ensures MustForce(t, now) <==> |Current(t, now)| >= 4096
  {
    assert Purged(t, now).Keys == Current(t, now);
    Sizes.SmallerSet(Current(t, now), t.Keys);
  }
}
