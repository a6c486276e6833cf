/** When the order of visiting decides whether a run is good enough to be a parent. */
module CatalogParents {
  import opened Text
  import opened CatalogScan
  import opened CatalogVisit
  import opened CatalogOffer
  import opened CatalogOrder

  /** After the first pass, the candidate that stands for the run is in order. */
  predicate Stands(order: seq<Candidate>, run: string) {
    var f := VisitAll(order);
    run in f.byRun && !Broken(f.all[f.byRun[run]].status)
  }

  /** The last candidate of the run, or -1. */
  function Last(order: seq<Candidate>, run: string): (i: int)
    ensures -1 <= i < |order| && (i >= 0 ==> OfRun(order[i], run))
    ensures forall m :: 0 <= m < |order| && OfRun(order[m], run) ==> 0 <= m <= i
  {
    if order == [] then -1
    else if OfRun(order[|order| - 1], run) then |order| - 1
    else Last(order[..|order| - 1], run)
  }

  /** A run stands well exactly when the last of it to be visited is in order and has the hash of the first. */
  predicate EndsWell(order: seq<Candidate>, run: string) {
    var l := Last(order, run);
    l >= 0 && order[l].hash == order[First(order, run)].hash && !Broken(order[l].status)
  }

  lemma StandsExactlyWhen(order: seq<Candidate>, run: string)
    requires Fresh(order)
    ensures Stands(order, run) <==> EndsWell(order, run)
  {
    Standing(order, run);
    var f, l := VisitAll(order), Last(order, run);
    if run in f.byRun {
      var b := f.byRun[run];
      KeptExactlyWhen(order, b);
      assert b <= l && NextOf(order, run, b) <= |order|;
      if b == l {
        assert NextOf(order, run, b) == |order|;
      } else {
        assert order[l].hash != order[b].hash;
        assert NextOf(order, run, b) <= l;
      }
    }
  }

  /** Some candidate that is in order has a twin of the same hash, or is the only one of the run. */
  predicate Twinned(loaded: seq<Candidate>, run: string) {
    exists p, t :: p in loaded && t in loaded && TwinOf(loaded, run, p, t)
  }

  predicate TwinOf(loaded: seq<Candidate>, run: string, p: Candidate, t: Candidate) {
    && OfRun(p, run) && OfRun(t, run) && !Broken(p.status) && p.hash == t.hash
    && (p != t || Alone(loaded, run, p))
  }

  predicate NoneBroken(loaded: seq<Candidate>, run: string) {
    forall c :: c in loaded && OfRun(c, run) ==> !Broken(c.status)
  }

  lemma StandsNeedsTwin(order: seq<Candidate>, run: string)
    requires Fresh(order) && Distinct(order) && Stands(order, run)
    ensures Twinned(order, run)
  {
    StandsExactlyWhen(order, run);
    var f, l := First(order, run), Last(order, run);
    var p, t := order[l], order[f];
    if f == l {
      forall d | d in order && OfRun(d, run)
        ensures d == p
      {
        var m :| 0 <= m < |order| && order[m] == d;
      }
    }
    assert TwinOf(order, run, p, t);
  }

  lemma AlwaysStands(order: seq<Candidate>, run: string, c: Candidate)
    requires Fresh(order) && AllEqual(order, run) && NoneBroken(order, run) && c in order && OfRun(c, run)
    ensures Stands(order, run)
  {
    StandsExactlyWhen(order, run);
    var m :| 0 <= m < |order| && order[m] == c;
    var f, l := First(order, run), Last(order, run);
    assert 0 <= f <= m <= l;
    assert order[l] in order && order[f] in order;
  }

  /** One candidate first, another one last. */
  function Framed(loaded: seq<Candidate>, x: Candidate, y: Candidate): seq<Candidate> {
    [x] + Minus(Minus(loaded, x), y) + [y]
  }

  lemma FramedReorders(loaded: seq<Candidate>, x: Candidate, y: Candidate)
    requires Distinct(loaded) && x in loaded && y in loaded && x != y
    ensures Reorders(Framed(loaded, x, y), loaded)
  {
    MinusIs(loaded, x);
    MinusIs(Minus(loaded, x), y);
  }

  lemma FramedStands(loaded: seq<Candidate>, run: string, x: Candidate, y: Candidate)
    requires Fresh(loaded) && Distinct(loaded) && x in loaded && y in loaded && x != y && OfRun(x, run) && OfRun(y, run)
    ensures Stands(Framed(loaded, x, y), run) <==> x.hash == y.hash && !Broken(y.status)
  {
    var order := Framed(loaded, x, y);
    FramedReorders(loaded, x, y);
    ReorderedIsFresh(order, loaded);
    StandsExactlyWhen(order, run);
    assert order[0] == x && order[|order| - 1] == y;
    assert First(order, run) == 0 && Last(order, run) == |order| - 1;
  }

  /** No order of visiting makes a difference to whether the run stands well. */
  ghost predicate StandingIndifferent(loaded: seq<Candidate>, run: string) {
    forall order :: Reorders(order, loaded) ==> (Stands(order, run) <==> Stands(loaded, run))
  }

  lemma TwinnedReorders(order: seq<Candidate>, loaded: seq<Candidate>, run: string)
    requires Reorders(order, loaded)
    ensures Twinned(order, run) ==> Twinned(loaded, run)
    ensures AllEqual(loaded, run) ==> AllEqual(order, run)
    ensures NoneBroken(loaded, run) ==> NoneBroken(order, run)
  {
    if Twinned(order, run) {
      var p, t :| p in order && t in order && TwinOf(order, run, p, t);
      assert TwinOf(loaded, run, p, t);
    }
  }

  lemma IndifferentStanding(loaded: seq<Candidate>, run: string, order: seq<Candidate>)
    requires Fresh(loaded) && Distinct(loaded) && Reorders(order, loaded)
    requires !Twinned(loaded, run) || (AllEqual(loaded, run) && NoneBroken(loaded, run))
    ensures Stands(order, run) <==> Stands(loaded, run)
  {
    ReorderedIsFresh(order, loaded);
    TwinnedReorders(order, loaded, run);
    if !Twinned(loaded, run) {
      if Stands(order, run) { StandsNeedsTwin(order, run); }
      if Stands(loaded, run) { StandsNeedsTwin(loaded, run); }
    } else {
      var p, t :| p in loaded && t in loaded && TwinOf(loaded, run, p, t);
      AlwaysStands(order, run, p);
      AlwaysStands(loaded, run, p);
    }
  }

  lemma DifferentStanding(loaded: seq<Candidate>, run: string, p: Candidate, t: Candidate)
    requires Fresh(loaded) && Distinct(loaded) && p in loaded && t in loaded && TwinOf(loaded, run, p, t)
    requires !AllEqual(loaded, run) || !NoneBroken(loaded, run)
    ensures !StandingIndifferent(loaded, run)
  {
    if !AllEqual(loaded, run) {
      var x, y :| x in loaded && y in loaded && OfRun(x, run) && OfRun(y, run) && x.hash != y.hash;
      FramedReorders(loaded, x, y);
      FramedStands(loaded, run, x, y);
    } else {
      var y :| y in loaded && OfRun(y, run) && Broken(y.status);
      FramedReorders(loaded, p, y);
      FramedStands(loaded, run, p, y);
    }
    assert p != t;
    FramedReorders(loaded, t, p);
    FramedStands(loaded, run, t, p);
  }

  /**
   * Whatever was loaded, the order of visiting makes no difference to whether a run is good enough to be a parent
   * exactly when no order makes it so, or all its manifests are equal and in order.
   */
  lemma StandingIndifferentExactlyWhen(loaded: seq<Candidate>, run: string)
    requires Fresh(loaded) && Distinct(loaded)
    ensures StandingIndifferent(loaded, run) <==>
            !Twinned(loaded, run) || (AllEqual(loaded, run) && NoneBroken(loaded, run))
  {
    if !Twinned(loaded, run) || (AllEqual(loaded, run) && NoneBroken(loaded, run)) {
      forall order | Reorders(order, loaded)
        ensures Stands(order, run) <==> Stands(loaded, run)
      {
        IndifferentStanding(loaded, run, order);
      }
    } else {
      var p, t :| p in loaded && t in loaded && TwinOf(loaded, run, p, t);
      DifferentStanding(loaded, run, p, t);
    }
  }

  // --- What the second pass makes of it, read off the order alone --------------------------------------

  /** A candidate as loading leaves it: in order with its manifest, or broken, and nothing else. */
  predicate Raw(c: Candidate) {
    (c.status.Importable? && c.doc.Some?) || (Broken(c.status) && !c.status.Conflict?)
  }

  predicate AllRaw(order: seq<Candidate>) { forall i :: 0 <= i < |order| ==> Raw(order[i]) }

  /** The run is nobody's parent, or has a healthy copy on the storage. */
  predicate NotNeeded(reg: Registry, run: string) {
    run == "" || (run in reg.copies && reg.copies[run])
  }

  /**
   * The parent of candidate i is to be had: not needed, or standing well; and if the manifest that stands for it
   * was visited earlier, the registry has not broken it, for which that one needs a parent in turn.
   */
  predicate Available(order: seq<Candidate>, reg: Registry, i: nat)
    requires i < |order| && order[i].doc.Some?
    decreases i
  {
    var run := order[i].doc.value.parentRunId;
    || NotNeeded(reg, run)
    || (Stands(order, run) && var p := Last(order, run);
        0 <= p < i ==> !(Contradicted(reg, order[p]) && Available(order, reg, p)))
  }

  lemma StandsIsLast(order: seq<Candidate>, run: string)
    requires AllRaw(order) && Stands(order, run)
    ensures var l, f := Last(order, run), VisitAll(order);
            l >= 0 && f.byRun[run] == l && f.all[l] == order[l] && order[l].status.Importable?
  {
    StandsExactlyWhen(order, run);
    Standing(order, run);
    var b, l := VisitAll(order).byRun[run], Last(order, run);
    assert b == l;
    KeptExactlyWhen(order, b);
    assert Raw(order[l]);
  }

  /** The table after both passes. */
  function After(order: seq<Candidate>, reg: Registry): (f: Found)
    ensures f.Valid() && |f.all| == |order|
  {
    SettleAll(Scanned(VisitAll(order), reg), |order|).found
  }

  lemma BrokenStays(order: seq<Candidate>, reg: Registry, i: nat)
    requires i < |order| && !VisitAll(order).all[i].status.Importable?
    ensures After(order, reg).all[i] == VisitAll(order).all[i]
  {
    SettledOnce(Scanned(VisitAll(order), reg), i, |order|);
  }

  lemma {:induction false} AvailableExactlyWhen(order: seq<Candidate>, reg: Registry, i: nat)
    requires AllRaw(order) && i < |order| && order[i].doc.Some?
    ensures VisitAll(order).all[i].doc == order[i].doc
    ensures HasParent(VisitAll(order), After(order, reg), reg, i) <==> Available(order, reg, i)
    decreases i
  {
    var v, run := VisitAll(order), order[i].doc.value.parentRunId;
    VisitedHaveOneHash(order);
    assert Demoted(order[i], v.all[i]);
    if !NotNeeded(reg, run) && run in v.byRun {
      var p := v.byRun[run];
      if Stands(order, run) {
        StandsIsLast(order, run);
        if p < i {
          AvailableExactlyWhen(order, reg, p);
          BrokenExactlyWhen(v, reg, p);
        }
      } else {
        BrokenStays(order, reg, p);
      }
    }
  }

  /** A candidate is offered exactly when it is in order, unchallenged, allowed, and its parent is to be had. */
  predicate Wins(order: seq<Candidate>, reg: Registry, i: nat)
    requires i < |order|
  {
    && order[i].status.Importable? && order[i].doc.Some? && RegistryAllows(reg, order[i])
    && Unchallenged(order, i) && Available(order, reg, i)
  }

  lemma WinsExactlyWhen(order: seq<Candidate>, reg: Registry, i: nat)
    requires AllRaw(order) && i < |order|
    ensures Offered(After(order, reg).all[i]) <==> Wins(order, reg, i)
  {
    var v := VisitAll(order);
    VisitedHaveOneHash(order);
    assert Raw(order[i]) && Demoted(order[i], v.all[i]);
    KeptExactlyWhen(order, i);
    if v.all[i].status.Importable? {
      AvailableExactlyWhen(order, reg, i);
      SettledExactlyWhen(v, reg, i);
    } else {
      BrokenStays(order, reg, i);
    }
  }

  // --- Every status, read off the order and the registry ---------------------------------------------------

  /** The registry knows the point. */
  predicate Registered(reg: Registry, c: Candidate)
    requires c.doc.Some?
  {
    c.doc.value.runId in reg.hashes
  }

  predicate CopiedHere(reg: Registry, c: Candidate)
    requires c.doc.Some?
  {
    c.doc.value.runId in reg.copies
  }

  lemma SettledStatus(v: Found, reg: Registry, i: nat)
    requires v.Valid() && OneHash(v) && i < |v.all| && v.all[i].doc.Some? && v.all[i].status.Importable?
    ensures var after, c := SettleAll(Scanned(v, reg), |v.all|).found, v.all[i];
            after.all[i].status ==
            if !HasParent(v, after, reg, i) then MissingParent
            else if !Registered(reg, c) then Importable
            else if Contradicted(reg, c) then Conflict
            else if CopiedHere(reg, c) then Known else AdditionalCopy
  {
    var s := SettleAll(Scanned(v, reg), i);
    RegistryGrows(v, reg, i);
    SettledOnce(Scanned(v, reg), i, |v.all|);
    ParentWhenSettled(v, reg, i);
    assert s.found.all[i] == v.all[i];
    assert Contradicted(reg, v.all[i]) <==> Contradicted(s.registry, v.all[i]);
  }

  /** The candidate comes through the first pass in order. */
  predicate Passes(order: seq<Candidate>, i: nat)
    requires i < |order|
  {
    order[i].doc.Some? && order[i].status.Importable? && Unchallenged(order, i)
  }

  /** It passes and finds its parent in the second pass. */
  predicate Complete(order: seq<Candidate>, reg: Registry, i: nat)
    requires i < |order|
  {
    Passes(order, i) && Available(order, reg, i)
  }

  /** When each status is given, for every order and every registry. */
  lemma StatusExactlyWhen(order: seq<Candidate>, reg: Registry, i: nat)
    requires AllRaw(order) && i < |order|
    ensures var status, c := After(order, reg).all[i].status, order[i];
            && (status.Known? <==> Complete(order, reg, i) && Registered(reg, c) && !Contradicted(reg, c) && CopiedHere(reg, c))
            && (status.AdditionalCopy? <==> Complete(order, reg, i) && Registered(reg, c) && !Contradicted(reg, c) && !CopiedHere(reg, c))
            && (status.Importable? <==> Complete(order, reg, i) && !Registered(reg, c))
            && (status.MissingParent? <==> Passes(order, i) && !Available(order, reg, i))
            && (status.Conflict? <==> (c.doc.Some? && !Unchallenged(order, i)) || (Complete(order, reg, i) && Contradicted(reg, c)))
            && (status == c.status || Passes(order, i) || status.Conflict?)
  {
    var v := VisitAll(order);
    VisitedHaveOneHash(order);
    assert Raw(order[i]) && Demoted(order[i], v.all[i]);
    KeptExactlyWhen(order, i);
    if v.all[i].status.Importable? {
      AvailableExactlyWhen(order, reg, i);
      SettledStatus(v, reg, i);
    } else {
      BrokenStays(order, reg, i);
    }
  }

  // --- The hashes that are filled in ------------------------------------------------------------------------

  /** One of the first n candidates of the run is settled as known, with or without a copy here. */
  predicate Counted(f: Found, run: string, n: nat)
    requires n <= |f.all|
  {
    exists i :: 0 <= i < n && IsKnown(f.all[i], run)
  }

  predicate NobodyCounted(f: Found) {
    forall i :: 0 <= i < |f.all| && f.all[i].doc.Some? ==> !f.all[i].status.Known? && !f.all[i].status.AdditionalCopy?
  }

  lemma {:induction false} FilledUpTo(v: Found, reg: Registry, run: string, n: nat)
    requires v.Valid() && OneHash(v) && NobodyCounted(v) && n <= |v.all| && run in reg.hashes
    ensures var t := SettleAll(Scanned(v, reg), n);
            && t.registry.copies == reg.copies && t.registry.hashes.Keys == reg.hashes.Keys
            && (Counted(t.found, run, n) ==> run in v.byRun)
            && t.registry.hashes[run] ==
               if reg.hashes[run] == "" && Counted(t.found, run, n) then v.all[v.byRun[run]].hash else reg.hashes[run]
  {
    if n > 0 {
      FilledUpTo(v, reg, run, n - 1);
      var i, s := n - 1, SettleAll(Scanned(v, reg), n - 1);
      assert s.found.all[i] == v.all[i];
      FillOne(s, i, run);
      CountedNext(s.found, SettleOne(s, i).found, run, i);
      if OfRun(v.all[i], run) && v.all[i].status.Importable? {
        assert run in v.byRun && v.all[i].hash == v.all[v.byRun[run]].hash;
      }
    }
  }

  predicate IsKnown(c: Candidate, run: string) {
    OfRun(c, run) && (c.status.Known? || c.status.AdditionalCopy?)
  }

  /** Settling one candidate fills in a missing hash exactly if it turns out known. */
  lemma FillOne(s: Scanned, i: nat, run: string)
    requires s.found.Valid() && i < |s.found.all| && run in s.registry.hashes && !IsKnown(s.found.all[i], run)
    ensures var t, c := SettleOne(s, i), s.found.all[i];
            && t.registry.copies == s.registry.copies && t.registry.hashes.Keys == s.registry.hashes.Keys
            && (IsKnown(t.found.all[i], run) ==> OfRun(c, run) && c.status.Importable?)
            && t.registry.hashes[run] ==
               if s.registry.hashes[run] == "" && IsKnown(t.found.all[i], run) then c.hash else s.registry.hashes[run]
  {}

  lemma CountedNext(f: Found, g: Found, run: string, i: nat)
    requires i < |f.all| == |g.all| && forall j :: 0 <= j < i ==> g.all[j] == f.all[j]
    ensures Counted(g, run, i + 1) <==>
            Counted(f, run, i) || IsKnown(g.all[i], run)
  {
    if Counted(f, run, i) {
      var j :| 0 <= j < i && IsKnown(f.all[j], run);
      assert g.all[j] == f.all[j];
    }
  }

  lemma SettledHash(v: Found, reg: Registry, i: nat)
    requires v.Valid() && i < |v.all|
    ensures var c := SettleAll(Scanned(v, reg), |v.all|).found.all[i]; c.hash == v.all[i].hash && c.doc == v.all[i].doc
  {
    SettledOnce(Scanned(v, reg), i, |v.all|);
  }

  /** The registry after both passes. */
  function RegistryAfter(order: seq<Candidate>, reg: Registry): Registry {
    SettleAll(Scanned(VisitAll(order), reg), |order|).registry
  }

  /** The point is settled as known, with or without a copy here. */
  predicate KnownAt(order: seq<Candidate>, reg: Registry, run: string, i: nat)
    requires i < |order|
  {
    OfRun(order[i], run) && (After(order, reg).all[i].status.Known? || After(order, reg).all[i].status.AdditionalCopy?)
  }

  /** A missing hash of a point that turns out known becomes the one of its manifest, and no other hash changes. */
  lemma HashesFilledExactlyWhen(order: seq<Candidate>, reg: Registry, run: string)
    requires AllRaw(order) && run in reg.hashes
    ensures var later := RegistryAfter(order, reg);
            && later.copies == reg.copies && later.hashes.Keys == reg.hashes.Keys
            && (forall i :: 0 <= i < |order| && KnownAt(order, reg, run, i) ==> later.hashes[run] == order[i].hash)
            && (reg.hashes[run] != "" || (forall i :: 0 <= i < |order| ==> !KnownAt(order, reg, run, i))
                ==> later.hashes[run] == reg.hashes[run])
  {
    var v, after := VisitAll(order), After(order, reg);
    VisitedHaveOneHash(order);
    forall i | 0 <= i < |order|
      ensures v.all[i].doc == order[i].doc == after.all[i].doc && v.all[i].hash == order[i].hash
      ensures v.all[i].doc.Some? ==> !v.all[i].status.Known? && !v.all[i].status.AdditionalCopy?
    {
      assert Raw(order[i]) && Demoted(order[i], v.all[i]);
      SettledHash(v, reg, i);
    }
    FilledUpTo(v, reg, run, |order|);
    forall i | 0 <= i < |order| && KnownAt(order, reg, run, i)
      ensures RegistryAfter(order, reg).hashes[run] == order[i].hash
    {
      StatusExactlyWhen(order, reg, i);
      KeptExactlyWhen(order, i);
      assert IsKnown(after.all[i], run) && Counted(after, run, |order|);
    }
    if Counted(after, run, |order|) {
      var i :| 0 <= i < |order| && IsKnown(after.all[i], run);
      assert KnownAt(order, reg, run, i);
    }
  }
}
