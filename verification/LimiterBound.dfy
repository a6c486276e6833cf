/** How large the table of the login limiter can become. */
module LimiterBound {
  import opened Eviction
  import opened Sizes
  import opened LoginLimiter
  import opened LimiterRuns

  // --- One failure ------------------------------------------------------------------------------

  /** Eviction makes room, except when the entry to drop is the empty name or the table is too large already. */
  lemma EvictionMakesRoom(t: Table, now: int, victim: string)
    requires Eligible(t, now, victim)
    ensures |Evicted(t, now, victim)| < MAX_ENTRIES <==>
            (MustForce(t, now) ==> victim != "" && |Purged(t, now)| == MAX_ENTRIES)
  {
    if MustForce(t, now) {
      assert victim in Ages(Purged(t, now));
      RemoveSize(Purged(t, now), victim);
    }
  }

  /** What a failure does to the bound, whatever the size of the table and whichever entry is dropped. */
  lemma BoundExactlyWhen(t: Table, key: string, now: int, victim: string)
    requires Eligible(t, now, victim)
    ensures |Failed(t, key, now, victim)| <= MAX_ENTRIES <==>
            if key in t then |t| <= MAX_ENTRIES
            else MustForce(t, now) ==> victim != "" && |Purged(t, now)| == MAX_ENTRIES
  {
    if key in t {
      InsertSize(t, key, Failure(t[key], now));
    } else {
      EvictionMakesRoom(t, now, victim);
      InsertSize(Evicted(t, now, victim), key, Failure(FRESH, now));
    }
  }

  /** The blank name is among the oldest entries the next eviction would choose from. */
  predicate BlankIsOldest(t: Table, now: int) {
    IsOldest(Ages(Purged(t, now)), "")
  }

  /** The table is within its bound afterwards, however the oldest entry is chosen. */
  ghost predicate SafeToFail(t: Table, key: string, now: int) {
    forall victim :: Eligible(t, now, victim) ==> |Failed(t, key, now, victim)| <= MAX_ENTRIES
  }

  lemma SomeVictim(t: Table, now: int) returns (victim: string)
    ensures Eligible(t, now, victim)
  {
    victim := "";
    if MustForce(t, now) {
      var ages := Ages(Purged(t, now));
      assert ages.Keys == Purged(t, now).Keys;
      victim := OldestExists(ages);
    }
  }

  /** The same without naming the dropped entry: a condition on the table and the name before the call. */
  lemma SafeExactlyWhen(t: Table, key: string, now: int)
    ensures SafeToFail(t, key, now) <==>
            if key in t then |t| <= MAX_ENTRIES
            else MustForce(t, now) ==> !BlankIsOldest(t, now) && |Purged(t, now)| == MAX_ENTRIES
    ensures |t| <= MAX_ENTRIES ==>
              (SafeToFail(t, key, now) <==> !(key !in t && MustForce(t, now) && BlankIsOldest(t, now)))
  {
    forall victim | Eligible(t, now, victim)
      ensures |Failed(t, key, now, victim)| <= MAX_ENTRIES <==>
              if key in t then |t| <= MAX_ENTRIES
              else MustForce(t, now) ==> victim != "" && |Purged(t, now)| == MAX_ENTRIES
    {
      BoundExactlyWhen(t, key, now, victim);
    }
    var some := SomeVictim(t, now);
    assert MustForce(t, now) && BlankIsOldest(t, now) ==> Eligible(t, now, "");
    SmallerMap(Purged(t, now), t);
  }

  // --- Whole runs ---------------------------------------------------------------------------------

  /** A new name fails while the table is full of current entries, and the entry to drop is the blank name. */
  predicate BlankIsKept(t: Table, c: Check) {
    GoesWrong(t, c) && c.key !in t && MustForce(t, c.at) && c.victim == ""
  }

  lemma BoundStep(t: Table, c: Check)
    requires |t| <= MAX_ENTRIES && Eligible(t, c.at, c.victim)
    ensures |Next(t, c)| <= MAX_ENTRIES <==> !BlankIsKept(t, c)
  {
    BoundExactlyWhen(t, c.key, c.at, c.victim);
    SmallerMap(Purged(t, c.at), t);
    RemoveSize(t, c.key);
  }

  lemma BoundInRun(tables: seq<Table>, checks: seq<Check>, i: nat)
    requires IsRun(tables, checks) && i < |checks| && |tables[i]| <= MAX_ENTRIES
    ensures |tables[i + 1]| <= MAX_ENTRIES <==> !BlankIsKept(tables[i], checks[i])
  {
    assert Follows(tables, checks, i);
    BoundStep(tables[i], checks[i]);
  }

  ghost predicate BlankNeverKept(tables: seq<Table>, checks: seq<Check>, n: nat)
    requires n <= |checks| && |tables| == |checks| + 1
  {
    forall m :: 0 <= m < n ==> !BlankIsKept(tables[m], checks[m])
  }

  ghost predicate WithinBound(tables: seq<Table>, n: nat)
    requires n < |tables|
  {
    forall m :: 0 <= m <= n ==> |tables[m]| <= MAX_ENTRIES
  }

  /** A run stays within the bound up to a point exactly when the blank name was not kept before it. */
  lemma {:induction false} RunBoundedExactlyWhen(tables: seq<Table>, checks: seq<Check>, n: nat)
    requires IsRun(tables, checks) && n < |tables|
    ensures WithinBound(tables, n) <==> BlankNeverKept(tables, checks, n)
  {
    if n > 0 {
      RunBoundedExactlyWhen(tables, checks, n - 1);
      if WithinBound(tables, n - 1) { BoundInRun(tables, checks, n - 1); }
      assert WithinBound(tables, n) <==> WithinBound(tables, n - 1) && |tables[n]| <= MAX_ENTRIES;
      assert BlankNeverKept(tables, checks, n) <==>
             BlankNeverKept(tables, checks, n - 1) && !BlankIsKept(tables[n - 1], checks[n - 1]);
    }
  }

  lemma {:induction false} BlankStaysOut(tables: seq<Table>, checks: seq<Check>, i: nat)
    requires IsRun(tables, checks) && i < |tables|
    requires forall m :: 0 <= m < i ==> checks[m].key != ""
    ensures "" !in tables[i]
  {
    if i > 0 {
      BlankStaysOut(tables, checks, i - 1);
      assert Follows(tables, checks, i - 1);
    }
  }

  /** As long as nobody logs in under a blank name, the table never exceeds its bound. */
  lemma TableIsBounded(tables: seq<Table>, checks: seq<Check>, n: nat)
    requires IsRun(tables, checks) && n < |tables|
    requires forall m :: 0 <= m < n ==> checks[m].key != ""
    ensures WithinBound(tables, n)
  {
    forall m | 0 <= m < n
      ensures !BlankIsKept(tables[m], checks[m])
    {
      BlankStaysOut(tables, checks, m);
      assert Follows(tables, checks, m);
      assert "" !in Ages(Purged(tables[m], checks[m].at));
    }
    RunBoundedExactlyWhen(tables, checks, n);
  }

  // --- With a blank name there is no bound ------------------------------------------------------------

  function FillingTime(n: nat): int { if n == 0 then 1 else 2 }

  /** The table after n different names failed, the blank one at time one and all others at time two. */
  function Filled(n: nat): Table {
    if n == 0 then map[] else Filled(n - 1)[Name(n - 1) := Attempts(1, 0, FillingTime(n - 1))]
  }

  lemma {:induction false} FilledIs(n: nat)
    ensures |Filled(n)| == n
    ensures forall k :: k in Filled(n) ==> |k| < n && Filled(n)[k] == Attempts(1, 0, if k == "" then 1 else 2)
    ensures n > 0 ==> "" in Filled(n)
  {
    if n > 0 {
      FilledIs(n - 1);
      assert Name(n - 1) == "" <==> n == 1;
      assert Name(n - 1) !in Filled(n - 1);
      assert Filled(n).Keys == Filled(n - 1).Keys + {Name(n - 1)};
    }
  }

  /** Dropping is not a matter of chance: only the blank name can be chosen. */
  predicate OnlyBlank(t: Table, now: int) {
    forall victim :: victim in Ages(Purged(t, now)) && IsOldest(Ages(Purged(t, now)), victim) ==> victim == ""
  }

  /** One entry of an earlier time under the blank name, and nothing stale. */
  predicate BlankFirst(t: Table, now: int) {
    && (forall k :: k in t ==> t[k].seen == (if k == "" then 1 else 2) && !Stale(t[k], now))
    && (t != map[] ==> "" in t)
  }

  lemma BlankFirstIsOldest(t: Table, now: int)
    requires BlankFirst(t, now)
    ensures Purged(t, now) == t && OnlyBlank(t, now)
    ensures t != map[] ==> BlankIsOldest(t, now)
  {
    assert Purged(t, now) == t;
    var ages := Ages(t);
    assert forall k :: k in ages ==> ages[k] == if k == "" then 1 else 2;
    forall victim | victim in ages && IsOldest(ages, victim)
      ensures victim == ""
    {
      assert "" in ages && ages[victim] <= ages[""];
    }
  }

  lemma FilledIsCurrent(n: nat)
    ensures BlankFirst(Filled(n), FillingTime(n)) && (Filled(n) == map[] <==> n == 0)
  {
    FilledIs(n);
  }

  function FillingCheck(n: nat): Check { Check(Name(n), FillingTime(n), false, "") }

  lemma FillingStep(n: nat)
    ensures Eligible(Filled(n), FillingTime(n), "") && Next(Filled(n), FillingCheck(n)) == Filled(n + 1)
  {
    FilledIs(n);
    FilledIsCurrent(n);
    var t := Filled(n);
    BlankFirstIsOldest(t, FillingTime(n));
    assert Name(n) !in t;
    assert Evicted(t, FillingTime(n), "") == t;
    assert Failure(FRESH, FillingTime(n)) == Attempts(1, 0, FillingTime(n));
  }

  lemma FillingFollows(tables: seq<Table>, checks: seq<Check>, n: nat)
    requires |tables| == |checks| + 1 && n < |checks|
    requires tables[n] == Filled(n) && tables[n + 1] == Filled(n + 1) && checks[n] == FillingCheck(n)
    ensures Follows(tables, checks, n) && OnlyBlank(tables[n], checks[n].at)
  {
    FillingStep(n);
    FilledIsCurrent(n);
    BlankFirstIsOldest(tables[n], checks[n].at);
  }

  /** After one failure under a blank name the table has no bound at all, however the oldest entry is chosen. */
  lemma BlankNameOverflows(size: nat) returns (tables: seq<Table>, checks: seq<Check>)
    ensures IsRun(tables, checks) && |tables[|checks|]| == size
    ensures forall m :: 0 <= m < |checks| ==> OnlyBlank(tables[m], checks[m].at)
  {
    tables := seq(size + 1, n requires n >= 0 => Filled(n));
    checks := seq(size, n requires n >= 0 => FillingCheck(n));
    forall n: nat | n < size
      ensures Follows(tables, checks, n) && OnlyBlank(tables[n], checks[n].at)
    {
      FillingFollows(tables, checks, n);
    }
    FilledIs(size);
  }
}
