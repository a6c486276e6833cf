/** When the order of visiting decides whether a point is offered, and when it does not. */
module CatalogIndifference {
  import opened Text
  import opened CatalogScan
  import opened CatalogVisit
  import opened CatalogOffer
  import opened CatalogOrder
  import opened CatalogParents

  // --- The conditions, read off what was loaded -----------------------------------------------------------

  /** The candidate has a twin of the same hash, or is the only one of its run. */
  predicate HasTwin(loaded: seq<Candidate>, c: Candidate)
    requires c.doc.Some?
  {
    exists t :: t in loaded && TwinOf(loaded, c.doc.value.runId, c, t)
  }

  /** Some order gives the candidate a parent. */
  predicate CanHaveParent(loaded: seq<Candidate>, reg: Registry, c: Candidate)
    requires c.doc.Some?
  {
    NotNeeded(reg, c.doc.value.parentRunId) || Twinned(loaded, c.doc.value.parentRunId)
  }

  /** Some order makes the candidate an offer. */
  predicate CanWin(loaded: seq<Candidate>, reg: Registry, c: Candidate) {
    && c.status.Importable? && c.doc.Some? && RegistryAllows(reg, c)
    && HasTwin(loaded, c) && CanHaveParent(loaded, reg, c)
  }

  /** A manifest of the run that the registry contradicts, and that can have a parent itself. */
  predicate Breaks(loaded: seq<Candidate>, reg: Registry, run: string, p: Candidate) {
    OfRun(p, run) && Contradicted(reg, p) && CanHaveParent(loaded, reg, p)
  }

  predicate CanBreak(loaded: seq<Candidate>, reg: Registry, run: string) {
    exists p :: p in loaded && Breaks(loaded, reg, run, p)
  }

  /** No order takes the run away as a parent. */
  predicate Secure(loaded: seq<Candidate>, reg: Registry, run: string) {
    NotNeeded(reg, run) || (AllEqual(loaded, run) && NoneBroken(loaded, run) && !CanBreak(loaded, reg, run))
  }

  /** No order challenges the candidate or takes its parent away. */
  predicate Certain(loaded: seq<Candidate>, reg: Registry, c: Candidate)
    requires c.doc.Some?
  {
    AllEqual(loaded, c.doc.value.runId) && Secure(loaded, reg, c.doc.value.parentRunId)
  }

  /** The candidate is an offer in this order. */
  predicate WinsIn(order: seq<Candidate>, reg: Registry, c: Candidate) {
    exists i :: 0 <= i < |order| && order[i] == c && Wins(order, reg, i)
  }

  lemma ReorderedIsRaw(order: seq<Candidate>, loaded: seq<Candidate>)
    requires AllRaw(loaded) && Reorders(order, loaded)
    ensures AllRaw(order)
  {
    forall i | 0 <= i < |order|
      ensures Raw(order[i])
    {
      assert order[i] in loaded;
    }
  }

  // --- What an offer needs ------------------------------------------------------------------------------------

  lemma UnchallengedHasTwin(order: seq<Candidate>, i: nat)
    requires Distinct(order) && i < |order| && order[i].doc.Some? && order[i].status.Importable? && Unchallenged(order, i)
    ensures HasTwin(order, order[i])
  {
    var c, run := order[i], order[i].doc.value.runId;
    var f, n := First(order, run), NextOf(order, run, i);
    assert OfRun(order[f], run) && order[f] in order && c in order;
    if f != i {
      assert TwinOf(order, run, c, order[f]);
    } else if n < |order| {
      assert order[n] in order && TwinOf(order, run, c, order[n]);
    } else {
      forall d | d in order && OfRun(d, run)
        ensures d == c
      {
        var m :| 0 <= m < |order| && order[m] == d;
      }
      assert TwinOf(order, run, c, c);
    }
  }

  lemma AvailableCanHaveParent(order: seq<Candidate>, reg: Registry, i: nat)
    requires AllRaw(order) && Distinct(order) && i < |order| && order[i].doc.Some? && Available(order, reg, i)
    ensures CanHaveParent(order, reg, order[i])
  {
    var run := order[i].doc.value.parentRunId;
    if !NotNeeded(reg, run) { StandsNeedsTwin(order, run); }
  }

  lemma TwinReorders(order: seq<Candidate>, loaded: seq<Candidate>, reg: Registry, c: Candidate)
    requires Reorders(order, loaded) && c.doc.Some?
    ensures HasTwin(order, c) ==> HasTwin(loaded, c)
    ensures CanHaveParent(order, reg, c) ==> CanHaveParent(loaded, reg, c)
  {
    TwinnedReorders(order, loaded, c.doc.value.parentRunId);
    if HasTwin(order, c) {
      var t :| t in order && TwinOf(order, c.doc.value.runId, c, t);
      assert TwinOf(loaded, c.doc.value.runId, c, t);
    }
  }

  /** Whoever wins in some order can win. */
  lemma WinNeeds(order: seq<Candidate>, loaded: seq<Candidate>, reg: Registry, c: Candidate)
    requires AllRaw(loaded) && Reorders(order, loaded) && WinsIn(order, reg, c)
    ensures CanWin(loaded, reg, c)
  {
    ReorderedIsRaw(order, loaded);
    var i :| 0 <= i < |order| && order[i] == c && Wins(order, reg, i);
    UnchallengedHasTwin(order, i);
    AvailableCanHaveParent(order, reg, i);
    TwinReorders(order, loaded, reg, c);
  }

  // --- Certain candidates win in every order -------------------------------------------------------------------

  lemma SecureIsAvailable(order: seq<Candidate>, loaded: seq<Candidate>, reg: Registry, i: nat)
    requires AllRaw(loaded) && Reorders(order, loaded) && i < |order| && order[i].doc.Some?
    requires var run := order[i].doc.value.parentRunId; Secure(loaded, reg, run) && CanHaveParent(loaded, reg, order[i])
    ensures Available(order, reg, i)
  {
    var run := order[i].doc.value.parentRunId;
    if !NotNeeded(reg, run) {
      ReorderedIsRaw(order, loaded);
      TwinnedReorders(order, loaded, run);
      var p, t :| p in loaded && t in loaded && TwinOf(loaded, run, p, t);
      AlwaysStands(order, run, p);
      var l := Last(order, run);
      if 0 <= l < i && Contradicted(reg, order[l]) && Available(order, reg, l) {
        AvailableCanHaveParent(order, reg, l);
        TwinReorders(order, loaded, reg, order[l]);
        assert order[l] in loaded && Breaks(loaded, reg, run, order[l]);
        assert false;
      }
    }
  }

  lemma CertainWins(order: seq<Candidate>, loaded: seq<Candidate>, reg: Registry, c: Candidate)
    requires AllRaw(loaded) && Reorders(order, loaded) && c in loaded && CanWin(loaded, reg, c) && Certain(loaded, reg, c)
    ensures WinsIn(order, reg, c)
  {
    ReorderedIsRaw(order, loaded);
    var run := c.doc.value.runId;
    TwinnedReorders(order, loaded, run);
    var i :| 0 <= i < |order| && order[i] == c;
    EqualAllKept(order, run, i);
    KeptExactlyWhen(order, i);
    SecureIsAvailable(order, loaded, reg, i);
    assert Wins(order, reg, i);
  }

  // --- Arranging the candidates --------------------------------------------------------------------------------

  function MinusAll(s: seq<Candidate>, out: seq<Candidate>): seq<Candidate>
    decreases out
  {
    if out == [] then s else MinusAll(Minus(s, out[0]), out[1..])
  }

  lemma {:induction false} MinusAllIs(s: seq<Candidate>, out: seq<Candidate>)
    requires Distinct(s)
    ensures Distinct(MinusAll(s, out)) && forall d :: d in MinusAll(s, out) <==> d in s && d !in out
    decreases out
  {
    if out != [] {
      MinusIs(s, out[0]);
      MinusAllIs(Minus(s, out[0]), out[1..]);
      assert forall d :: d in out <==> d == out[0] || d in out[1..];
    }
  }

  /** Some candidates first, some last, and all others in between. */
  function Arranged(loaded: seq<Candidate>, front: seq<Candidate>, back: seq<Candidate>): seq<Candidate> {
    front + MinusAll(loaded, front + back) + back
  }

  lemma ArrangedReorders(loaded: seq<Candidate>, front: seq<Candidate>, back: seq<Candidate>)
    requires Distinct(loaded) && Distinct(front + back) && forall c :: c in front + back ==> c in loaded
    ensures Reorders(Arranged(loaded, front, back), loaded)
  {
    var ends, middle := front + back, MinusAll(loaded, front + back);
    MinusAllIs(loaded, ends);
    assert forall c :: c in ends <==> c in front || c in back;
    assert Distinct(front) && Distinct(back) by {
      assert forall i :: 0 <= i < |front| ==> ends[i] == front[i];
      assert forall i :: 0 <= i < |back| ==> ends[|front| + i] == back[i];
    }
    DistinctTogether(front, middle);
    assert forall c :: c in front && c in back ==> false by {
      forall i, j | 0 <= i < |front| && 0 <= j < |back|
        ensures front[i] != back[j]
      {
        assert ends[i] == front[i] && ends[|front| + j] == back[j];
      }
    }
    DistinctTogether(front + middle, back);
  }

  lemma DistinctTogether(s: seq<Candidate>, t: seq<Candidate>)
    requires Distinct(s) && Distinct(t) && forall c :: c in s ==> c !in t
    ensures Distinct(s + t)
  {
    forall i, j | 0 <= i < j < |s + t|
      ensures (s + t)[i] != (s + t)[j]
    {
      if i < |s| <= j { assert s[i] in s && t[j - |s|] in t; }
    }
  }

  // --- An order in which a candidate wins -----------------------------------------------------------------------

  lemma AloneReorders(order: seq<Candidate>, loaded: seq<Candidate>, run: string, c: Candidate)
    requires Reorders(order, loaded) && Alone(loaded, run, c)
    ensures Alone(order, run, c)
  {}

  /** In front of its twin, or alone, a candidate is unchallenged. */
  lemma FrontUnchallenged(order: seq<Candidate>, loaded: seq<Candidate>, c: Candidate, t: Candidate)
    requires Reorders(order, loaded) && order != [] && order[0] == c && c.doc.Some?
    requires TwinOf(loaded, c.doc.value.runId, c, t) && (t == c || (|order| > 1 && order[1] == t))
    ensures Unchallenged(order, 0)
  {
    var run := c.doc.value.runId;
    var n := NextOf(order, run, 0);
    assert First(order, run) == 0;
    if t == c {
      AloneReorders(order, loaded, run, c);
      if n < |order| { assert order[n] in order; }
    } else {
      assert n == 1;
    }
  }

  /** Behind its twin, or alone, a candidate that comes last is unchallenged and stands for its run. */
  lemma BackStands(order: seq<Candidate>, loaded: seq<Candidate>, run: string, p: Candidate, u: Candidate, k: nat)
    requires AllRaw(order) && Reorders(order, loaded) && order != [] && order[|order| - 1] == p && TwinOf(loaded, run, p, u)
    requires u != p ==> k < |order| && order[k] == u && forall m :: 0 <= m < k ==> !OfRun(order[m], run)
    ensures Stands(order, run) && Last(order, run) == |order| - 1
    ensures Unchallenged(order, |order| - 1)
  {
    var l, f := |order| - 1, First(order, run);
    assert Last(order, run) == l && OfRun(order[f], run) && order[f] in order;
    if u == p {
      AloneReorders(order, loaded, run, p);
    } else {
      assert f == k;
    }
    StandsExactlyWhen(order, run);
  }

  lemma WinsAtFront(order: seq<Candidate>, loaded: seq<Candidate>, reg: Registry, c: Candidate, t: Candidate)
    requires Reorders(order, loaded) && order != [] && order[0] == c && CanWin(loaded, reg, c)
    requires TwinOf(loaded, c.doc.value.runId, c, t) && (t == c || (|order| > 1 && order[1] == t))
    requires var run := c.doc.value.parentRunId; NotNeeded(reg, run) || Stands(order, run)
    ensures WinsIn(order, reg, c)
  {
    FrontUnchallenged(order, loaded, c, t);
    assert Available(order, reg, 0);
    assert Wins(order, reg, 0);
  }

  /** A parent of another run is put behind the candidate and its twin. */
  lemma WinsBeforeParent(loaded: seq<Candidate>, reg: Registry, c: Candidate, t: Candidate, p: Candidate, u: Candidate)
      returns (order: seq<Candidate>)
    requires AllRaw(loaded) && Distinct(loaded) && c in loaded && t in loaded && p in loaded && u in loaded
    requires CanWin(loaded, reg, c) && TwinOf(loaded, c.doc.value.runId, c, t)
    requires c.doc.value.parentRunId != c.doc.value.runId && TwinOf(loaded, c.doc.value.parentRunId, p, u)
    ensures Reorders(order, loaded) && WinsIn(order, reg, c)
  {
    var start := if t == c then [c] else [c, t];
    order := ParentBehind(loaded, start, c.doc.value.parentRunId, p, u);
    assert order[0] == c && (t != c ==> order[1] == t);
    WinsAtFront(order, loaded, reg, c, t);
  }

  /** Some candidates of other runs first, then a run that stands well. */
  lemma ParentBehind(loaded: seq<Candidate>, start: seq<Candidate>, run: string, p: Candidate, u: Candidate) returns (order: seq<Candidate>)
    requires AllRaw(loaded) && Distinct(loaded) && p in loaded && u in loaded && TwinOf(loaded, run, p, u)
    requires Distinct(start) && forall d :: d in start ==> d in loaded && !OfRun(d, run)
    ensures Reorders(order, loaded) && Stands(order, run) && |order| > |start| && order[..|start|] == start
  {
    var tail := if u == p then [] else [u];
    DistinctTogether(start, tail + [p]);
    assert start + tail + [p] == start + (tail + [p]);
    order := Arranged(loaded, start + tail, [p]);
    ArrangedReorders(loaded, start + tail, [p]);
    ReorderedIsRaw(order, loaded);
    ArrangedPlaces(loaded, start, tail, p);
    assert forall m :: 0 <= m < |start| ==> order[m] == start[m] && start[m] in start;
    BackStands(order, loaded, run, p, u, |start|);
  }

  lemma ArrangedPlaces(loaded: seq<Candidate>, start: seq<Candidate>, tail: seq<Candidate>, p: Candidate)
    ensures var order := Arranged(loaded, start + tail, [p]);
            && |order| > |start + tail| && order[..|start|] == start && order[|order| - 1] == p
            && forall k :: 0 <= k < |tail| ==> order[|start| + k] == tail[k]
  {}

  /** A candidate that is its own parent is put last. */
  lemma WinsAsParent(loaded: seq<Candidate>, reg: Registry, c: Candidate, t: Candidate) returns (order: seq<Candidate>)
    requires AllRaw(loaded) && Distinct(loaded) && c in loaded && t in loaded
    requires CanWin(loaded, reg, c) && TwinOf(loaded, c.doc.value.runId, c, t)
    requires c.doc.value.parentRunId == c.doc.value.runId
    ensures Reorders(order, loaded) && WinsIn(order, reg, c)
  {
    var front := if t == c then [] else [t];
    order := Arranged(loaded, front, [c]);
    ArrangedReorders(loaded, front, [c]);
    ReorderedIsRaw(order, loaded);
    assert t != c ==> order[0] == t;
    var i := |order| - 1;
    BackStands(order, loaded, c.doc.value.runId, c, t, 0);
    assert order[i] == c && Available(order, reg, i);
    assert Wins(order, reg, i);
  }

  lemma SomeOrderWins(loaded: seq<Candidate>, reg: Registry, c: Candidate) returns (order: seq<Candidate>)
    requires AllRaw(loaded) && Distinct(loaded) && c in loaded && CanWin(loaded, reg, c)
    ensures Reorders(order, loaded) && WinsIn(order, reg, c)
  {
    var t :| t in loaded && TwinOf(loaded, c.doc.value.runId, c, t);
    var parent := c.doc.value.parentRunId;
    if NotNeeded(reg, parent) {
      var front := if t == c then [c] else [c, t];
      order := Arranged(loaded, front, []);
      ArrangedReorders(loaded, front, []);
      assert order[0] == c && (t != c ==> order[1] == t);
      WinsAtFront(order, loaded, reg, c, t);
    } else if parent == c.doc.value.runId {
      order := WinsAsParent(loaded, reg, c, t);
    } else {
      var p, u :| p in loaded && u in loaded && TwinOf(loaded, parent, p, u);
      order := WinsBeforeParent(loaded, reg, c, t, p, u);
    }
  }

  // --- An order in which a candidate loses ----------------------------------------------------------------------

  lemma LosesWithoutParent(order: seq<Candidate>, reg: Registry, c: Candidate)
    requires c.doc.Some? && !NotNeeded(reg, c.doc.value.parentRunId) && !Stands(order, c.doc.value.parentRunId)
    ensures !WinsIn(order, reg, c)
  {}

  lemma LosesToOther(loaded: seq<Candidate>, reg: Registry, c: Candidate) returns (order: seq<Candidate>)
    requires AllRaw(loaded) && Distinct(loaded) && c.doc.Some? && !AllEqual(loaded, c.doc.value.runId)
    ensures Reorders(order, loaded) && !WinsIn(order, reg, c)
  {
    var run := c.doc.value.runId;
    var x, y :| x in loaded && y in loaded && OfRun(x, run) && OfRun(y, run) && x.hash != y.hash;
    var z := if x.hash != c.hash then x else y;
    order := [z] + Minus(loaded, z);
    ToTheFront(loaded, z);
    assert order[0] == z && First(order, run) == 0;
  }

  lemma LosesToBroken(loaded: seq<Candidate>, reg: Registry, c: Candidate) returns (order: seq<Candidate>)
    requires AllRaw(loaded) && Distinct(loaded) && c.doc.Some?
    requires var run := c.doc.value.parentRunId;
             !NotNeeded(reg, run) && (!AllEqual(loaded, run) || !NoneBroken(loaded, run))
    ensures Reorders(order, loaded) && !WinsIn(order, reg, c)
  {
    var run := c.doc.value.parentRunId;
    if !AllEqual(loaded, run) {
      var x, y :| x in loaded && y in loaded && OfRun(x, run) && OfRun(y, run) && x.hash != y.hash;
      order := Framed(loaded, x, y);
      FramedReorders(loaded, x, y);
      FramedStands(loaded, run, x, y);
    } else {
      var y :| y in loaded && OfRun(y, run) && Broken(y.status);
      order := Arranged(loaded, [], [y]);
      ArrangedReorders(loaded, [], [y]);
      ReorderedIsRaw(order, loaded);
      assert order[|order| - 1] == y && Last(order, run) == |order| - 1;
      StandsExactlyWhen(order, run);
    }
    LosesWithoutParent(order, reg, c);
  }

  /** The candidates of a run. */
  function Of(s: seq<Candidate>, run: string): seq<Candidate> {
    if s == [] then [] else (if OfRun(s[0], run) then [s[0]] else []) + Of(s[1..], run)
  }

  lemma {:induction false} OfIs(s: seq<Candidate>, run: string)
    requires Distinct(s)
    ensures Distinct(Of(s, run)) && forall d :: d in Of(s, run) <==> d in s && OfRun(d, run)
  {
    if s != [] {
      assert forall d :: d in s <==> d == s[0] || d in s[1..];
      OfIs(s[1..], run);
      if OfRun(s[0], run) { DistinctTogether([s[0]], Of(s[1..], run)); }
    }
  }

  /** The whole run in front, p the last of it. */
  predicate RunInFront(order: seq<Candidate>, loaded: seq<Candidate>, run: string, p: Candidate, k: nat) {
    && k < |order| && order[k] == p
    && (forall m :: 0 <= m <= k ==> OfRun(order[m], run)) && (forall m :: k < m < |order| ==> !OfRun(order[m], run))
  }

  /** The candidates of the run, p the last of them. */
  lemma RunEndingWith(loaded: seq<Candidate>, run: string, p: Candidate) returns (start: seq<Candidate>)
    requires Distinct(loaded) && p in loaded && OfRun(p, run)
    ensures start != [] && start[|start| - 1] == p && Distinct(start)
    ensures forall d :: d in start <==> d in loaded && OfRun(d, run)
  {
    var others := Minus(Of(loaded, run), p);
    OfIs(loaded, run);
    MinusIs(Of(loaded, run), p);
    DistinctTogether(others, [p]);
    start := others + [p];
  }

  lemma OwnRunStands(order: seq<Candidate>, loaded: seq<Candidate>, run: string, p: Candidate, k: nat)
    requires AllRaw(loaded) && Reorders(order, loaded) && RunInFront(order, loaded, run, p, k)
    requires AllEqual(loaded, run) && NoneBroken(loaded, run)
    ensures Stands(order, run) && Last(order, run) == k
  {
    ReorderedIsRaw(order, loaded);
    TwinnedReorders(order, loaded, run);
    assert order[k] in order;
    AlwaysStands(order, run, p);
  }

  lemma OtherRunBehind(loaded: seq<Candidate>, run: string, p: Candidate, parent: string, q: Candidate, u: Candidate, start: seq<Candidate>)
      returns (order: seq<Candidate>)
    requires AllRaw(loaded) && Distinct(loaded) && start != [] && start[|start| - 1] == p && Distinct(start)
    requires forall d :: d in start <==> d in loaded && OfRun(d, run)
    requires parent != run && q in loaded && u in loaded && TwinOf(loaded, parent, q, u)
    ensures Reorders(order, loaded) && RunInFront(order, loaded, run, p, |start| - 1)
    ensures Stands(order, parent) && Last(order, parent) == |order| - 1 >= |start|
  {
    var next := if u == q then [] else [u];
    order := FrontOrder(loaded, run, p, start, next, [q]);
    ReorderedIsRaw(order, loaded);
    assert order[|order| - 1] == q && (u != q ==> order[|start|] == u);
    BackStands(order, loaded, parent, q, u, |start|);
  }

  /** An order with the run in front, p the last of it, and a parent of p still to come. */
  lemma BreakingOrder(loaded: seq<Candidate>, reg: Registry, run: string, p: Candidate) returns (order: seq<Candidate>, k: nat)
    requires AllRaw(loaded) && Distinct(loaded) && p in loaded && OfRun(p, run) && CanHaveParent(loaded, reg, p)
    requires AllEqual(loaded, run) && NoneBroken(loaded, run)
    ensures Reorders(order, loaded) && RunInFront(order, loaded, run, p, k) && Available(order, reg, k)
  {
    var parent := p.doc.value.parentRunId;
    var start := RunEndingWith(loaded, run, p);
    k := |start| - 1;
    if NotNeeded(reg, parent) || parent == run {
      order := FrontOrder(loaded, run, p, start, [], []);
      OwnRunStands(order, loaded, run, p, k);
    } else {
      var q, u :| q in loaded && u in loaded && TwinOf(loaded, parent, q, u);
      order := OtherRunBehind(loaded, run, p, parent, q, u, start);
    }
  }

  lemma FrontOrder(loaded: seq<Candidate>, run: string, p: Candidate, start: seq<Candidate>, next: seq<Candidate>, back: seq<Candidate>)
      returns (order: seq<Candidate>)
    requires Distinct(loaded) && start != [] && start[|start| - 1] == p && Distinct(start)
    requires forall d :: d in start <==> d in loaded && OfRun(d, run)
    requires Distinct(next + back) && forall d :: d in next + back ==> d in loaded && !OfRun(d, run)
    ensures order == Arranged(loaded, start + next, back) && Reorders(order, loaded)
    ensures RunInFront(order, loaded, run, p, |start| - 1)
  {
    DistinctTogether(start, next + back);
    assert start + next + back == start + (next + back);
    order := Arranged(loaded, start + next, back);
    ArrangedReorders(loaded, start + next, back);
    assert forall j :: 0 <= j < |start| ==> order[j] == start[j];
    forall m | 0 <= m < |order|
      ensures OfRun(order[m], run) <==> m < |start|
    {
      if m < |start| {
        assert start[m] in start;
      } else {
        assert order[m] in order;
      }
    }
  }

  lemma LosesToRegistry(loaded: seq<Candidate>, reg: Registry, c: Candidate) returns (order: seq<Candidate>)
    requires AllRaw(loaded) && Distinct(loaded) && c in loaded && CanWin(loaded, reg, c) && AllEqual(loaded, c.doc.value.runId)
    requires var run := c.doc.value.parentRunId;
             !NotNeeded(reg, run) && AllEqual(loaded, run) && NoneBroken(loaded, run) && CanBreak(loaded, reg, run)
    ensures Reorders(order, loaded) && !WinsIn(order, reg, c)
  {
    var run := c.doc.value.parentRunId;
    var p :| p in loaded && Breaks(loaded, reg, run, p);
    assert !OfRun(c, run);
    var k;
    order, k := BreakingOrder(loaded, reg, run, p);
    OwnRunStands(order, loaded, run, p, k);
    forall i | 0 <= i < |order| && order[i] == c
      ensures !Available(order, reg, i)
    {
      assert i > k;
    }
  }

  lemma SomeOrderLoses(loaded: seq<Candidate>, reg: Registry, c: Candidate) returns (order: seq<Candidate>)
    requires AllRaw(loaded) && Distinct(loaded) && c in loaded && CanWin(loaded, reg, c) && !Certain(loaded, reg, c)
    ensures Reorders(order, loaded) && !WinsIn(order, reg, c)
  {
    var run := c.doc.value.parentRunId;
    if !AllEqual(loaded, c.doc.value.runId) {
      order := LosesToOther(loaded, reg, c);
    } else if !AllEqual(loaded, run) || !NoneBroken(loaded, run) {
      order := LosesToBroken(loaded, reg, c);
    } else {
      order := LosesToRegistry(loaded, reg, c);
    }
  }

  // --- The order does not matter exactly when ----------------------------------------------------------------------

  ghost predicate OfferIndifferent(loaded: seq<Candidate>, reg: Registry, c: Candidate) {
    forall order :: Reorders(order, loaded) ==> (WinsIn(order, reg, c) <==> WinsIn(loaded, reg, c))
  }

  /**
   * Whatever was loaded and registered, a candidate is offered in every order or in none exactly when no order makes
   * it an offer, or nothing can challenge it and nothing can take its parent away.
   */
  lemma OfferIndifferentExactlyWhen(loaded: seq<Candidate>, reg: Registry, c: Candidate)
    requires AllRaw(loaded) && Distinct(loaded) && c in loaded
    ensures OfferIndifferent(loaded, reg, c) <==> (CanWin(loaded, reg, c) ==> Certain(loaded, reg, c))
  {
    assert Reorders(loaded, loaded);
    if !CanWin(loaded, reg, c) {
      forall order | Reorders(order, loaded)
        ensures !WinsIn(order, reg, c)
      {
        if WinsIn(order, reg, c) { WinNeeds(order, loaded, reg, c); }
      }
    } else if Certain(loaded, reg, c) {
      forall order | Reorders(order, loaded)
        ensures WinsIn(order, reg, c)
      {
        CertainWins(order, loaded, reg, c);
      }
    } else {
      var won := SomeOrderWins(loaded, reg, c);
      var lost := SomeOrderLoses(loaded, reg, c);
    }
  }

  /** The candidates both passes leave on offer. */
  function Offers(order: seq<Candidate>, reg: Registry): set<Candidate> {
    set i | 0 <= i < |order| && Offered(After(order, reg).all[i]) :: order[i]
  }

  lemma OffersAreWinners(order: seq<Candidate>, reg: Registry, c: Candidate)
    requires AllRaw(order)
    ensures c in Offers(order, reg) <==> WinsIn(order, reg, c)
  {
    forall i | 0 <= i < |order|
      ensures Offered(After(order, reg).all[i]) <==> Wins(order, reg, i)
    {
      WinsExactlyWhen(order, reg, i);
    }
  }

  ghost predicate OffersIndifferent(loaded: seq<Candidate>, reg: Registry) {
    forall order :: Reorders(order, loaded) ==> Offers(order, reg) == Offers(loaded, reg)
  }

  predicate AllCertain(loaded: seq<Candidate>, reg: Registry) {
    forall c :: c in loaded && CanWin(loaded, reg, c) ==> Certain(loaded, reg, c)
  }

  lemma SameOffers(order: seq<Candidate>, loaded: seq<Candidate>, reg: Registry)
    requires AllRaw(loaded) && Reorders(order, loaded)
    ensures Offers(order, reg) == Offers(loaded, reg) <==>
            forall c :: c in loaded ==> (WinsIn(order, reg, c) <==> WinsIn(loaded, reg, c))
  {
    ReorderedIsRaw(order, loaded);
    forall c
      ensures c in Offers(order, reg) <==> WinsIn(order, reg, c)
      ensures c in Offers(loaded, reg) <==> WinsIn(loaded, reg, c)
      ensures WinsIn(order, reg, c) || WinsIn(loaded, reg, c) ==> c in loaded
    {
      OffersAreWinners(order, reg, c);
      OffersAreWinners(loaded, reg, c);
    }
  }

  /** The offers of a scan are the same in every order exactly when every candidate that can win is certain to. */
  lemma OffersIndifferentExactlyWhen(loaded: seq<Candidate>, reg: Registry)
    requires AllRaw(loaded) && Distinct(loaded)
    ensures OffersIndifferent(loaded, reg) <==> AllCertain(loaded, reg)
  {
    forall order | Reorders(order, loaded)
      ensures Offers(order, reg) == Offers(loaded, reg) <==>
              forall c :: c in loaded ==> (WinsIn(order, reg, c) <==> WinsIn(loaded, reg, c))
    {
      SameOffers(order, loaded, reg);
    }
    forall c | c in loaded
      ensures OfferIndifferent(loaded, reg, c) <==> (CanWin(loaded, reg, c) ==> Certain(loaded, reg, c))
    {
      OfferIndifferentExactlyWhen(loaded, reg, c);
    }
    assert OffersIndifferent(loaded, reg) <==> forall c :: c in loaded ==> OfferIndifferent(loaded, reg, c);
  }
}
