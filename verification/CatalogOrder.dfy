/** When the order of visiting decides which manifests of a run are put in conflict, and when it does not. */
module CatalogOrder {
  import opened Text
  import opened CatalogScan
  import opened CatalogVisit

  predicate Distinct(s: seq<Candidate>) {
    forall i, j :: 0 <= i < j < |s| ==> s[i] != s[j]
  }

  /** The same candidates in another order. */
  ghost predicate Reorders(order: seq<Candidate>, loaded: seq<Candidate>) {
    Distinct(order) && forall c :: c in order <==> c in loaded
  }

  predicate Keeps(order: seq<Candidate>, run: string, i: nat)
    requires i < |order|
  {
    OfRun(order[i], run) && VisitAll(order).all[i] == order[i]
  }

  /** The candidates of the run that keep their status in this order. */
  function Kept(order: seq<Candidate>, run: string): set<Candidate> {
    set i | 0 <= i < |order| && Keeps(order, run, i) :: order[i]
  }

  predicate AllEqual(loaded: seq<Candidate>, run: string) {
    forall c, d :: c in loaded && d in loaded && OfRun(c, run) && OfRun(d, run) ==> c.hash == d.hash
  }

  predicate AllDifferent(loaded: seq<Candidate>, run: string) {
    forall c, d :: c in loaded && d in loaded && OfRun(c, run) && OfRun(d, run) && c != d ==> c.hash != d.hash
  }

  /** No order of visiting makes a difference for the run. */
  ghost predicate OrderIndifferent(loaded: seq<Candidate>, run: string) {
    forall order :: Reorders(order, loaded) ==> Kept(order, run) == Kept(loaded, run)
  }

  lemma ReorderedIsFresh(order: seq<Candidate>, loaded: seq<Candidate>)
    requires Fresh(loaded) && Reorders(order, loaded)
    ensures Fresh(order)
  {
    forall i | 0 <= i < |order|
      ensures !order[i].status.Conflict?
    {
      assert order[i] in loaded;
    }
  }

  // --- The order does not matter ---------------------------------------------------------------------

  lemma EqualAllKept(order: seq<Candidate>, run: string, i: nat)
    requires Fresh(order) && AllEqual(order, run) && i < |order| && OfRun(order[i], run)
    ensures Keeps(order, run, i)
  {
    KeptExactlyWhen(order, i);
    var f, j := First(order, run), NextOf(order, run, i);
    assert OfRun(order[f], run) && order[f] in order && order[i] in order;
    if j < |order| { assert OfRun(order[j], run) && order[j] in order; }
  }

  predicate Alone(order: seq<Candidate>, run: string, c: Candidate) {
    forall d :: d in order && OfRun(d, run) ==> d == c
  }

  lemma DifferentKeptAlone(order: seq<Candidate>, run: string, i: nat)
    requires Fresh(order) && Distinct(order) && AllDifferent(order, run) && i < |order| && OfRun(order[i], run)
    ensures Keeps(order, run, i) <==> Alone(order, run, order[i])
  {
    KeptExactlyWhen(order, i);
    var f, j := First(order, run), NextOf(order, run, i);
    assert OfRun(order[f], run) && order[f] in order && order[i] in order;
    if j < |order| { assert order[j] in order; }
    if Keeps(order, run, i) {
      assert f == i;
      forall d | d in order && OfRun(d, run)
        ensures d == order[i]
      {
        var m :| 0 <= m < |order| && order[m] == d;
      }
    }
  }

  lemma KeptIs(order: seq<Candidate>, run: string)
    requires Fresh(order) && Distinct(order)
    ensures AllEqual(order, run) ==> forall c :: c in Kept(order, run) <==> c in order && OfRun(c, run)
    ensures AllDifferent(order, run) ==> forall c :: c in Kept(order, run) <==> c in order && OfRun(c, run) && Alone(order, run, c)
  {
    forall i | 0 <= i < |order| && OfRun(order[i], run)
      ensures AllEqual(order, run) ==> Keeps(order, run, i)
      ensures AllDifferent(order, run) ==> (Keeps(order, run, i) <==> Alone(order, run, order[i]))
    {
      if AllEqual(order, run) { EqualAllKept(order, run, i); }
      if AllDifferent(order, run) { DifferentKeptAlone(order, run, i); }
    }
  }

  lemma IndifferentIf(loaded: seq<Candidate>, run: string)
    requires Fresh(loaded) && Distinct(loaded) && (AllEqual(loaded, run) || AllDifferent(loaded, run))
    ensures OrderIndifferent(loaded, run)
  {
    forall order | Reorders(order, loaded)
      ensures Kept(order, run) == Kept(loaded, run)
    {
      ReorderedIsFresh(order, loaded);
      KeptIs(order, run);
      KeptIs(loaded, run);
      assert AllEqual(loaded, run) ==> AllEqual(order, run);
      assert AllDifferent(loaded, run) ==> AllDifferent(order, run);
      assert forall c :: Alone(order, run, c) <==> Alone(loaded, run, c);
      assert forall c :: c in Kept(order, run) <==> c in Kept(loaded, run);
    }
  }

  // --- The order matters -----------------------------------------------------------------------------

  /** All but the given candidate. */
  function Minus(s: seq<Candidate>, c: Candidate): seq<Candidate> {
    if s == [] then [] else if s[0] == c then s[1..] else [s[0]] + Minus(s[1..], c)
  }

  lemma {:induction false} MinusIs(s: seq<Candidate>, c: Candidate)
    requires Distinct(s)
    ensures Distinct(Minus(s, c)) && forall d :: d in Minus(s, c) <==> d in s && d != c
  {
    if s != [] {
      assert forall d :: d in s <==> d == s[0] || d in s[1..];
      MinusIs(s[1..], c);
      if s[0] != c {
        var rest := Minus(s[1..], c);
        assert s[0] !in rest;
        assert forall j :: 0 <= j < |rest| ==> rest[j] in rest;
      }
    }
  }

  lemma ToTheFront(loaded: seq<Candidate>, c: Candidate)
    requires Distinct(loaded) && c in loaded
    ensures Reorders([c] + Minus(loaded, c), loaded)
  {
    MinusIs(loaded, c);
  }

  /** Behind a candidate of another hash nobody keeps its status. */
  lemma LosesBehind(order: seq<Candidate>, run: string, a: Candidate)
    requires Fresh(order) && order != [] && OfRun(order[0], run) && a.hash != order[0].hash
    ensures a !in Kept(order, run)
  {
    assert First(order, run) == 0;
    forall i | 0 <= i < |order| && order[i] == a
      ensures !Keeps(order, run, i)
    {
      KeptExactlyWhen(order, i);
    }
  }

  /** In front of an equal one a candidate keeps its status, whatever follows. */
  lemma WinsInFront(order: seq<Candidate>, run: string)
    requires Fresh(order) && |order| >= 2 && OfRun(order[0], run) && OfRun(order[1], run) && order[0].hash == order[1].hash
    ensures order[0] in Kept(order, run)
  {
    KeptExactlyWhen(order, 0);
    assert First(order, run) == 0 && NextOf(order, run, 0) == 1;
    assert Keeps(order, run, 0);
  }

  lemma MattersIf(loaded: seq<Candidate>, run: string, a: Candidate, b: Candidate, c: Candidate)
    requires Fresh(loaded) && Distinct(loaded) && a in loaded && b in loaded && c in loaded
    requires OfRun(a, run) && OfRun(b, run) && OfRun(c, run) && a != b && a.hash == b.hash != c.hash
    ensures !OrderIndifferent(loaded, run)
  {
    var behind := [c] + Minus(loaded, c);
    ToTheFront(loaded, c);
    ReorderedIsFresh(behind, loaded);
    LosesBehind(behind, run, a);
    var others := Minus(loaded, a);
    MinusIs(loaded, a);
    ToTheFront(others, b);
    var front := [a] + ([b] + Minus(others, b));
    assert Reorders(front, loaded);
    ReorderedIsFresh(front, loaded);
    WinsInFront(front, run);
    assert Kept(front, run) != Kept(behind, run);
  }

  /**
   * Whatever was loaded, the order of visiting makes no difference for a run exactly when the hashes of its
   * manifests are all equal or all different.
   */
  lemma OrderIndifferentExactlyWhen(loaded: seq<Candidate>, run: string)
    requires Fresh(loaded) && Distinct(loaded)
    ensures OrderIndifferent(loaded, run) <==> AllEqual(loaded, run) || AllDifferent(loaded, run)
  {
    if AllEqual(loaded, run) || AllDifferent(loaded, run) {
      IndifferentIf(loaded, run);
    } else {
      var a, b :| a in loaded && b in loaded && OfRun(a, run) && OfRun(b, run) && a != b && a.hash == b.hash;
      var x, y :| x in loaded && y in loaded && OfRun(x, run) && OfRun(y, run) && x.hash != y.hash;
      MattersIf(loaded, run, a, b, if x.hash != a.hash then x else y);
    }
  }
}
