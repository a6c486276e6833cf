/** What the login limiter guarantees over whole runs. */
module LimiterRuns {
  import opened Eviction
  import opened LoginLimiter

  /** One password check of an account; victim is what a forced eviction would drop. */
  datatype Check = Check(key: string, at: int, success: bool, victim: string)

  /** The check gets past the limiter and fails. */
  predicate GoesWrong(t: Table, c: Check) {
    Allows(t, c.key, c.at) && !c.success
  }

  /** A blocked check changes nothing, a successful one forgets the account, a failed one is counted. */
  function Next(t: Table, c: Check): Table {
    if !Allows(t, c.key, c.at) then t
    else if c.success then t - {c.key}
    else Failed(t, c.key, c.at, c.victim)
  }

  /** The check drops a current entry of the table. */
  predicate Forces(t: Table, c: Check) {
    GoesWrong(t, c) && c.key !in t && MustForce(t, c.at)
  }

  /** Check i leads from one table to the next. */
  predicate Follows(tables: seq<Table>, checks: seq<Check>, i: nat)
    requires |tables| == |checks| + 1 && i < |checks|
  {
    && checks[i].at > 0 && Eligible(tables[i], checks[i].at, checks[i].victim)
    && tables[i + 1] == Next(tables[i], checks[i])
  }

  predicate NotLater(checks: seq<Check>, i: nat, j: nat)
    requires i <= j < |checks|
  {
    checks[i].at <= checks[j].at
  }

  /** Checks made one at a time, by a clock that never goes back, from an empty table. */
  predicate IsRun(tables: seq<Table>, checks: seq<Check>) {
    && |tables| == |checks| + 1 && tables[0] == map[]
    && (forall i: nat :: i < |checks| ==> Follows(tables, checks, i))
    && (forall i: nat, j: nat :: i <= j < |checks| ==> NotLater(checks, i, j))
  }

  // --- At most ten failures in half an hour -----------------------------------------------

  function FailCount(tables: seq<Table>, checks: seq<Check>, key: string, i: nat, j: nat): nat
    requires |tables| == |checks| + 1 && i <= j <= |checks|
  {
    if i == j then 0
    else FailCount(tables, checks, key, i, j - 1)
         + if checks[j - 1].key == key && GoesWrong(tables[j - 1], checks[j - 1]) then 1 else 0
  }

  /** From check i to check j nobody logs in to the account, and its entry is not forced out. */
  predicate Undisturbed(tables: seq<Table>, checks: seq<Check>, key: string, i: nat, j: nat)
    requires |tables| == |checks| + 1 && j <= |checks|
  {
    forall m :: i <= m < j ==>
      && !(checks[m].key == key && checks[m].success && Allows(tables[m], key, checks[m].at))
      && !(Forces(tables[m], checks[m]) && checks[m].victim == key)
  }

  /** The least time the given number of failures takes. */
  function Delay(failures: nat): int {
    if failures <= THRESHOLD then 0 else Delay(failures - 1) + Cooldown(failures - 1)
  }

  /** The entry of an account that failed c times since start. */
  predicate Slowed(e: Attempts, c: nat, start: int, now: int) {
    && e.failures >= c && start <= e.seen <= now
    && (c >= THRESHOLD ==> e.seen >= start + Delay(c) && e.blockedTo >= e.seen + Cooldown(c))
  }

  lemma OneMoreFailure(e: Attempts, c: nat, start: int, now: int)
    requires 0 < start <= now <= start + WINDOW
    requires c == 0 || (Slowed(e, c, start, now) && e.blockedTo <= now)
    ensures Slowed(Failure(e, now), c + 1, start, now)
  {
    if c + 1 >= THRESHOLD {
      CooldownGrows(c + 1, Failure(e, now).failures);
    }
  }

  /** Checks of other accounts leave a recent entry alone unless it is the forced victim. */
  lemma OthersKeepIt(t: Table, c: Check, key: string)
    requires key in t && c.key != key && c.at - t[key].seen <= WINDOW
    requires Forces(t, c) ==> c.victim != key
    ensures key in Next(t, c) && Next(t, c)[key] == t[key]
  {
    assert !Stale(t[key], c.at);
  }

  /** What one check does to an account that failed n times since start. */
  lemma StepSlows(t: Table, c: Check, key: string, n: nat, start: int)
    requires 0 < start <= c.at <= start + WINDOW
    requires n > 0 ==> key in t && Slowed(t[key], n, start, c.at)
    requires !(c.key == key && c.success && Allows(t, key, c.at)) && (Forces(t, c) ==> c.victim != key)
    ensures var n' := if c.key == key && GoesWrong(t, c) then n + 1 else n;
            n' > 0 ==> key in Next(t, c) && Slowed(Next(t, c)[key], n', start, c.at)
  {
    if c.key != key {
      if n > 0 { OthersKeepIt(t, c, key); }
    } else if GoesWrong(t, c) {
      OneMoreFailure(if key in t then t[key] else FRESH, n, start, c.at);
    }
  }

  lemma {:induction false} FailuresSlowDown(tables: seq<Table>, checks: seq<Check>, key: string, i: nat, j: nat)
    requires IsRun(tables, checks) && i < j <= |checks| && Undisturbed(tables, checks, key, i, j)
    requires checks[j - 1].at - checks[i].at <= WINDOW
    ensures var c := FailCount(tables, checks, key, i, j);
            c > 0 ==> key in tables[j] && Slowed(tables[j][key], c, checks[i].at, checks[j - 1].at)
  {
    var start, now, n := checks[i].at, checks[j - 1].at, FailCount(tables, checks, key, i, j - 1);
    assert Follows(tables, checks, i) && Follows(tables, checks, j - 1) && NotLater(checks, i, j - 1);
    if i < j - 1 {
      assert NotLater(checks, i, j - 2) && NotLater(checks, j - 2, j - 1);
      FailuresSlowDown(tables, checks, key, i, j - 1);
      assert n > 0 ==> Slowed(tables[j - 1][key], n, start, now);
    }
    StepSlows(tables[j - 1], checks[j - 1], key, n, start);
  }

  /** Eleven failures take longer than the window. */
  lemma ElevenTakeLonger()
    ensures Delay(11) == 45 * MINUTE
  {
    CooldownDoubles(5); CooldownDoubles(6); CooldownDoubles(7);
    CooldownDoubles(8); CooldownDoubles(9); CooldownDoubles(10);
    assert Pow2(1) == 2 && Pow2(2) == 4 && Pow2(3) == 8 && Pow2(4) == 16 && Pow2(5) == 32;
    assert Delay(6) == MINUTE && Delay(7) == 3 * MINUTE && Delay(8) == 7 * MINUTE && Delay(9) == 15 * MINUTE;
    assert Delay(10) == 30 * MINUTE;
  }

  lemma {:induction false} CountStepsByOne(tables: seq<Table>, checks: seq<Check>, key: string, i: nat, j: nat, n: nat) returns (m: nat)
    requires |tables| == |checks| + 1 && i <= j <= |checks| && FailCount(tables, checks, key, i, j) >= n
    ensures i <= m <= j && FailCount(tables, checks, key, i, m) == n
  {
    if FailCount(tables, checks, key, i, j) == n {
      m := j;
    } else {
      m := CountStepsByOne(tables, checks, key, i, j - 1, n);
    }
  }

  /** In any half hour, ends included, at most ten wrong passwords of one account get past the limiter. */
  lemma AtMostTenFailures(tables: seq<Table>, checks: seq<Check>, key: string, i: nat, j: nat)
    requires IsRun(tables, checks) && i < j <= |checks| && Undisturbed(tables, checks, key, i, j)
    requires checks[j - 1].at - checks[i].at <= WINDOW
    ensures FailCount(tables, checks, key, i, j) <= 10
  {
    if FailCount(tables, checks, key, i, j) > 10 {
      var m := CountStepsByOne(tables, checks, key, i, j, 11);
      assert NotLater(checks, m - 1, j - 1);
      FailuresSlowDown(tables, checks, key, i, m);
      ElevenTakeLonger();
    }
  }

  // --- Ten is reached ---------------------------------------------------------------------

  /** When the n-th failure of the fastest series happens, and how long it then blocks. */
  function At(n: nat): int { 1 + Delay(n) }

  function Series(n: nat): Table {
    if n == 0 then map[] else map["a" := Failure(if n == 1 then FRESH else Series(n - 1)["a"], At(n))]
  }

  lemma {:induction false} SeriesIs(n: nat)
    requires 1 <= n <= 10
    ensures "a" in Series(n) && var e := Series(n)["a"];
            && e.failures == n && e.seen == At(n)
            && e.blockedTo == (if n >= THRESHOLD then At(n) + Cooldown(n) else 0)
            && At(n) <= At(n + 1) && (n >= THRESHOLD ==> At(n) + Cooldown(n) == At(n + 1))
            && At(n + 1) - At(n) <= MAX_COOLDOWN
  {
    if n > 1 { SeriesIs(n - 1); }
    if n >= THRESHOLD { CooldownDoubles(n); }
  }

  lemma {:induction false} AtGrows(m: nat, n: nat)
    requires m <= n <= 10
    ensures At(m) <= At(n)
  {
    if m < n {
      AtGrows(m, n - 1);
      if n > 1 { SeriesIs(n - 1); }
    }
  }

  function SeriesCheck(n: nat): Check { Check("a", At(n + 1), false, "") }

  lemma SeriesStep(n: nat)
    requires n < 10
    ensures var c := SeriesCheck(n);
            c.at > 0 && Series(n + 1) == Next(Series(n), c) && GoesWrong(Series(n), c) && !MustForce(Series(n), c.at)
  {
    AtGrows(0, n + 1);
    if n > 0 {
      SeriesIs(n);
      assert Series(n).Keys == {"a"};
    }
  }

  /** The tables and the checks of a row of n failures. */
  predicate IsSeries(tables: seq<Table>, checks: seq<Check>, n: nat) {
    && |tables| == n + 1 && |checks| == n
    && (forall m: nat :: m <= n ==> tables[m] == Series(m))
    && (forall m: nat :: m < n ==> checks[m] == SeriesCheck(m))
  }

  lemma SeriesIsRun(tables: seq<Table>, checks: seq<Check>, n: nat)
    requires n <= 10 && IsSeries(tables, checks, n)
    ensures IsRun(tables, checks)
  {
    forall m: nat | m < n
      ensures Follows(tables, checks, m)
    {
      SeriesStep(m);
    }
    forall i: nat, j: nat | i <= j < n
      ensures NotLater(checks, i, j)
    {
      AtGrows(i + 1, j + 1);
    }
  }

  lemma TenFit()
    ensures At(10) - At(1) == WINDOW
  {
    ElevenTakeLonger();
    CooldownDoubles(10);
    assert Pow2(4) == 16 && Pow2(5) == 2 * Pow2(4);
  }

  lemma SeriesOf(n: nat) returns (tables: seq<Table>, checks: seq<Check>)
    ensures IsSeries(tables, checks, n)
  {
    tables := seq(n + 1, m requires m >= 0 => Series(m));
    checks := seq(n, m requires m >= 0 => SeriesCheck(m));
  }

  lemma SeriesGoesWrong(tables: seq<Table>, checks: seq<Check>, n: nat)
    requires n <= 10 && IsSeries(tables, checks, n)
    ensures FailCount(tables, checks, "a", 0, n) == n && Undisturbed(tables, checks, "a", 0, n)
  {
    forall m: nat | m < n
      ensures checks[m].key == "a" && GoesWrong(tables[m], checks[m]) && !Forces(tables[m], checks[m])
    {
      SeriesStep(m);
    }
    AllWrong(tables, checks, "a", n);
  }

  /** The bound is sharp: ten failures fit into half an hour. */
  lemma TenIsReached() returns (tables: seq<Table>, checks: seq<Check>)
    ensures IsRun(tables, checks) && |checks| == 10 && Undisturbed(tables, checks, "a", 0, 10)
    ensures checks[9].at - checks[0].at == WINDOW && FailCount(tables, checks, "a", 0, 10) == 10
  {
    tables, checks := SeriesOf(10);
    SeriesIsRun(tables, checks, 10);
    SeriesGoesWrong(tables, checks, 10);
    TenFit();
  }

  lemma {:induction false} AllWrong(tables: seq<Table>, checks: seq<Check>, key: string, n: nat)
    requires |tables| == |checks| + 1 && n <= |checks|
    requires forall m :: 0 <= m < n ==> checks[m].key == key && GoesWrong(tables[m], checks[m])
    ensures FailCount(tables, checks, key, 0, n) == n
  {
    if n > 0 { AllWrong(tables, checks, key, n - 1); }
  }

  // --- Dropping stale entries is unobservable ----------------------------------------------------

  /** The same limiter with a table that never drops anything. */
  function IdealNext(u: Table, c: Check): Table {
    if !Allows(u, c.key, c.at) then u
    else if c.success then u - {c.key}
    else u[c.key := Failure(if c.key in u then u[c.key] else FRESH, c.at)]
  }

  predicate IsIdealRun(tables: seq<Table>, checks: seq<Check>) {
    && |tables| == |checks| + 1 && tables[0] == map[]
    && forall i :: 0 <= i < |checks| ==> tables[i + 1] == IdealNext(tables[i], checks[i])
  }

  /** An entry too old to matter: it neither blocks nor counts. */
  predicate Idle(e: Attempts, now: int) {
    e.blockedTo <= now && now - e.seen > WINDOW
  }

  /** Two entries no later check can tell apart: pauses that are over need not agree. */
  predicate Alike(e: Attempts, f: Attempts, now: int) {
    e.failures == f.failures && e.seen == f.seen && (e.blockedTo == f.blockedTo || (e.blockedTo <= now && f.blockedTo <= now))
  }

  predicate Matches(t: Table, u: Table, now: int) {
    && t.Keys <= u.Keys
    && (forall k :: k in u ==> u[k].seen > 0)
    && (forall k :: k in t ==> Alike(t[k], u[k], now))
    && (forall k :: k in u && k !in t ==> Idle(u[k], now))
  }

  lemma PurgeMatches(t: Table, u: Table, now: int)
    requires Matches(t, u, now)
    ensures Matches(Purged(t, now), u, now)
  {}

  lemma AnswersMatch(t: Table, u: Table, key: string, now: int)
    requires Matches(t, u, now)
    ensures Allows(t, key, now) == Allows(u, key, now) && Wait(t, key, now) == Wait(u, key, now)
  {
    if key in t {
      assert Alike(t[key], u[key], now);
    } else if key in u {
      assert Idle(u[key], now);
    }
  }

  lemma FailureMatches(t: Table, u: Table, c: Check)
    requires Matches(t, u, c.at) && c.at > 0 && GoesWrong(t, c) && !Forces(t, c)
    ensures Matches(Failed(t, c.key, c.at, c.victim), IdealNext(u, c), c.at)
  {
    AnswersMatch(t, u, c.key, c.at);
    if c.key in t {
      assert Alike(t[c.key], u[c.key], c.at);
    } else {
      PurgeMatches(t, u, c.at);
      if c.key in u { assert Idle(u[c.key], c.at); }
    }
  }

  lemma StepMatches(t: Table, u: Table, c: Check)
    requires Matches(t, u, c.at) && c.at > 0 && !Forces(t, c)
    ensures Matches(Next(t, c), IdealNext(u, c), c.at)
  {
    AnswersMatch(t, u, c.key, c.at);
    if GoesWrong(t, c) { FailureMatches(t, u, c); }
  }

  lemma LaterMatches(t: Table, u: Table, now: int, later: int)
    requires Matches(t, u, now) && now <= later
    ensures Matches(t, u, later)
  {}

  lemma {:induction false} RunsMatch(tables: seq<Table>, ideal: seq<Table>, checks: seq<Check>, i: nat)
    requires IsRun(tables, checks) && IsIdealRun(ideal, checks) && i < |checks|
    requires forall m :: 0 <= m < i ==> !Forces(tables[m], checks[m])
    ensures Matches(tables[i], ideal[i], checks[i].at)
  {
    if i > 0 {
      RunsMatch(tables, ideal, checks, i - 1);
      assert Follows(tables, checks, i - 1) && NotLater(checks, i - 1, i);
      StepMatches(tables[i - 1], ideal[i - 1], checks[i - 1]);
      LaterMatches(tables[i], ideal[i], checks[i - 1].at, checks[i].at);
    }
  }

  /** Until an entry is forced out, the bounded table answers every check as the unbounded one does. */
  lemma EvictionIsUnobservable(tables: seq<Table>, ideal: seq<Table>, checks: seq<Check>, i: nat)
    requires IsRun(tables, checks) && IsIdealRun(ideal, checks) && i < |checks|
    requires forall m :: 0 <= m < i ==> !Forces(tables[m], checks[m])
    ensures Allows(tables[i], checks[i].key, checks[i].at) == Allows(ideal[i], checks[i].key, checks[i].at)
    ensures Wait(tables[i], checks[i].key, checks[i].at) == Wait(ideal[i], checks[i].key, checks[i].at)
  {
    RunsMatch(tables, ideal, checks, i);
    AnswersMatch(tables[i], ideal[i], checks[i].key, checks[i].at);
  }
}
