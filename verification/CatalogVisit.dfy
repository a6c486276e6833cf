/** Finding the manifests of one run that contradict each other, in whatever order they are visited. */
module CatalogVisit {
  import opened Text
  import opened CatalogScan

  /** The candidates visited so far, and for every run the one that stands for it. */
  datatype Found = Found(all: seq<Candidate>, byRun: map<string, nat>)
  {
    predicate Valid() { forall r :: r in byRun ==> byRun[r] < |all| }
  }

  /** A second manifest for the same run with another hash puts both in conflict. */
  function Visit(f: Found, c: Candidate): (g: Found)
    requires f.Valid()
    ensures g.Valid() && |g.all| == |f.all| + 1
  {
    if c.doc.None? then f.(all := f.all + [c])
    else
      var run := c.doc.value.runId;
      if run in f.byRun && f.all[f.byRun[run]].hash != c.hash
      then f.(all := f.all[f.byRun[run] := f.all[f.byRun[run]].(status := Conflict)] + [c.(status := Conflict)])
      else Found(f.all + [c], f.byRun[run := |f.all|])
  }

  function VisitAll(loaded: seq<Candidate>): (f: Found)
    ensures f.Valid() && |f.all| == |loaded|
  {
    if loaded == [] then Found([], map[]) else Visit(VisitAll(loaded[..|loaded| - 1]), loaded[|loaded| - 1])
  }

  /** Every candidate has the hash of the one that stands for its run, or is in conflict. */
  predicate OneHash(f: Found)
    requires f.Valid()
  {
    forall i :: 0 <= i < |f.all| && f.all[i].doc.Some? ==>
      && f.all[i].doc.value.runId in f.byRun
      && (f.all[i].status.Conflict? || f.all[i].hash == f.all[f.byRun[f.all[i].doc.value.runId]].hash)
  }

  /** A candidate that kept its status, or was put in conflict. */
  predicate Demoted(c: Candidate, d: Candidate) {
    d == c || d == c.(status := Conflict)
  }

  lemma VisitKeepsOneHash(f: Found, c: Candidate)
    requires f.Valid() && OneHash(f)
    ensures OneHash(Visit(f, c))
    ensures forall i :: 0 <= i < |f.all| ==> Demoted(f.all[i], Visit(f, c).all[i])
    ensures Demoted(c, Visit(f, c).all[|f.all|])
  {}

  lemma {:induction false} VisitedHaveOneHash(loaded: seq<Candidate>)
    ensures OneHash(VisitAll(loaded))
    ensures forall i :: 0 <= i < |loaded| ==> Demoted(loaded[i], VisitAll(loaded).all[i])
  {
    if loaded != [] {
      var init, last := loaded[..|loaded| - 1], loaded[|loaded| - 1];
      VisitedHaveOneHash(init);
      VisitKeepsOneHash(VisitAll(init), last);
      assert forall i :: 0 <= i < |init| ==> Demoted(VisitAll(init).all[i], VisitAll(loaded).all[i]);
    }
  }

  // --- Who is put in conflict, read off the order alone ---------------------------------------------

  predicate OfRun(c: Candidate, run: string) { c.doc.Some? && c.doc.value.runId == run }

  /** Loading puts nobody in conflict. */
  predicate Fresh(loaded: seq<Candidate>) {
    forall i :: 0 <= i < |loaded| ==> !loaded[i].status.Conflict?
  }

  /** The first candidate of the run, or -1. */
  function First(loaded: seq<Candidate>, run: string): (i: int)
    ensures -1 <= i < |loaded| && (i >= 0 ==> OfRun(loaded[i], run))
    ensures forall m :: 0 <= m < |loaded| && OfRun(loaded[m], run) ==> 0 <= i <= m
  {
    if loaded == [] then -1
    else
      var i := First(loaded[..|loaded| - 1], run);
      if i >= 0 then i else if OfRun(loaded[|loaded| - 1], run) then |loaded| - 1 else -1
  }

  /** The next candidate of the run after i, or the end. */
  function NextOf(loaded: seq<Candidate>, run: string, i: nat): (j: nat)
    requires i < |loaded|
    ensures i < j <= |loaded| && (j < |loaded| ==> OfRun(loaded[j], run))
    ensures forall m :: i < m < j ==> !OfRun(loaded[m], run)
    decreases |loaded| - i
  {
    if i + 1 == |loaded| || OfRun(loaded[i + 1], run) then i + 1 else NextOf(loaded, run, i + 1)
  }

  /** The candidate has the hash of the first one of its run, and so has the next one, if there is a next one. */
  predicate Unchallenged(loaded: seq<Candidate>, i: nat)
    requires i < |loaded| && loaded[i].doc.Some?
  {
    var run := loaded[i].doc.value.runId;
    && loaded[i].hash == loaded[First(loaded, run)].hash
    && (NextOf(loaded, run, i) < |loaded| ==> loaded[NextOf(loaded, run, i)].hash == loaded[i].hash)
  }

  /** The one that stands for a run is the last with the hash of the first one. */
  predicate StandsRight(loaded: seq<Candidate>, run: string, f: Found)
    requires f.Valid() && |f.all| == |loaded|
  {
    && (run in f.byRun <==> First(loaded, run) >= 0)
    && (run in f.byRun ==>
          && OfRun(loaded[f.byRun[run]], run) && loaded[f.byRun[run]].hash == loaded[First(loaded, run)].hash
          && forall m :: f.byRun[run] < m < |loaded| && OfRun(loaded[m], run) ==> loaded[m].hash != loaded[f.byRun[run]].hash)
  }

  lemma {:induction false} Standing(loaded: seq<Candidate>, run: string)
    ensures StandsRight(loaded, run, VisitAll(loaded))
  {
    if loaded != [] {
      var init, c := loaded[..|loaded| - 1], loaded[|loaded| - 1];
      Standing(init, run);
      VisitedHaveOneHash(init);
      var f, g := VisitAll(init), VisitAll(loaded);
      assert forall m :: 0 <= m < |init| ==> loaded[m] == init[m];
      if !OfRun(c, run) {
        assert (run in g.byRun <==> run in f.byRun) && (run in f.byRun ==> g.byRun[run] == f.byRun[run]);
      }
    }
  }

  lemma NextAfterOneMore(init: seq<Candidate>, c: Candidate, run: string, i: nat)
    requires i < |init|
    ensures var j := NextOf(init, run, i);
            NextOf(init + [c], run, i) == if j < |init| then j else if OfRun(c, run) then |init| else |init| + 1
  {
    var loaded, j, k := init + [c], NextOf(init, run, i), NextOf(init + [c], run, i);
    assert forall m :: 0 <= m < |init| ==> loaded[m] == init[m];
    assert loaded[|init|] == c;
    if j < |init| {
      assert OfRun(loaded[j], run);
    }
    if k < |init| {
      assert OfRun(init[k], run);
    }
  }

  /** One more candidate challenges exactly the one that stands for its run, if the hashes differ. */
  lemma VisitChallenges(f: Found, c: Candidate, i: nat)
    requires f.Valid() && i < |f.all|
    ensures var hit := c.doc.Some? && c.doc.value.runId in f.byRun && f.byRun[c.doc.value.runId] == i && f.all[i].hash != c.hash;
            Visit(f, c).all[i] == if hit then f.all[i].(status := Conflict) else f.all[i]
  {}

  lemma OneMoreUnchallenged(init: seq<Candidate>, c: Candidate, i: nat)
    requires i < |init| && init[i].doc.Some?
    ensures var run, f := init[i].doc.value.runId, VisitAll(init);
            && run in f.byRun
            && (Unchallenged(init + [c], i) <==>
                Unchallenged(init, i) && !(OfRun(c, run) && i == f.byRun[run] && init[i].hash != c.hash))
  {
    var run, loaded := init[i].doc.value.runId, init + [c];
    Standing(init, run);
    NextAfterOneMore(init, c, run, i);
    assert loaded[..|init|] == init;
    assert OfRun(init[i], run) && First(loaded, run) == First(init, run);
    var j, b := NextOf(init, run, i), VisitAll(init).byRun[run];
    if Unchallenged(init, i) && j < |init| && b == i {
      assert false;
    }
  }

  lemma EarlierKept(init: seq<Candidate>, c: Candidate, i: nat)
    requires i < |init| && !init[i].status.Conflict?
    requires var f := VisitAll(init);
             && Demoted(init[i], f.all[i]) && (f.all[i] == init[i] <==> (init[i].doc.Some? ==> Unchallenged(init, i)))
    ensures Visit(VisitAll(init), c).all[i] == init[i] <==> (init[i].doc.Some? ==> Unchallenged(init + [c], i))
  {
    VisitChallenges(VisitAll(init), c, i);
    if c.doc.Some? { Standing(init, c.doc.value.runId); }
    if init[i].doc.Some? { OneMoreUnchallenged(init, c, i); }
  }

  lemma LatestUnchallenged(init: seq<Candidate>, c: Candidate)
    requires c.doc.Some?
    ensures var i := First(init, c.doc.value.runId);
            Unchallenged(init + [c], |init|) <==> (i >= 0 ==> init[i].hash == c.hash)
  {
    var loaded := init + [c];
    assert loaded[..|init|] == init && loaded[|init|] == c;
  }

  lemma LatestVisited(f: Found, c: Candidate)
    requires f.Valid() && c.doc.Some? && !c.status.Conflict?
    ensures var run := c.doc.value.runId;
            Visit(f, c).all[|f.all|] == c <==> (run in f.byRun ==> f.all[f.byRun[run]].hash == c.hash)
  {}

  lemma HashStays(loaded: seq<Candidate>, i: nat)
    requires i < |loaded|
    ensures VisitAll(loaded).all[i].hash == loaded[i].hash
  {
    VisitedHaveOneHash(loaded);
  }

  lemma LatestKept(init: seq<Candidate>, c: Candidate)
    requires c.doc.Some? && !c.status.Conflict?
    ensures Visit(VisitAll(init), c).all[|init|] == c <==> Unchallenged(init + [c], |init|)
  {
    var run := c.doc.value.runId;
    Standing(init, run);
    if run in VisitAll(init).byRun { HashStays(init, VisitAll(init).byRun[run]); }
    LatestUnchallenged(init, c);
    LatestVisited(VisitAll(init), c);
  }

  /** A candidate keeps its status exactly when it is unchallenged in the order of visiting. */
  lemma {:induction false} KeptExactlyWhen(loaded: seq<Candidate>, i: nat)
    requires Fresh(loaded) && i < |loaded|
    ensures Demoted(loaded[i], VisitAll(loaded).all[i])
    ensures VisitAll(loaded).all[i] == loaded[i] <==> (loaded[i].doc.Some? ==> Unchallenged(loaded, i))
  {
    VisitedHaveOneHash(loaded);
    var init, c := loaded[..|loaded| - 1], loaded[|loaded| - 1];
    assert loaded == init + [c];
    if i < |init| {
      KeptExactlyWhen(init, i);
      EarlierKept(init, c, i);
    } else if c.doc.Some? {
      LatestKept(init, c);
    }
  }
}
