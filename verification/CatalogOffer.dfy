/** Which of the candidates found in a repository are offered for import, in whatever order they are visited. */
module CatalogOffer {
  import opened Text
  import opened CatalogScan
  import opened CatalogVisit

  // --- Comparing with what is registered -------------------------------------------------------

  /** The registered runs with their manifest hashes, and the runs with a copy on this storage, healthy or not. */
  datatype Registry = Registry(hashes: map<string, string>, copies: map<string, bool>)

  predicate Broken(s: Status) {
    s.Corrupt? || s.Unsupported? || s.Incomplete? || s.MissingObject? || s.Conflict?
  }

  predicate ParentAvailable(f: Found, reg: Registry, parent: string)
    requires f.Valid()
  {
    || (parent in f.byRun && !Broken(f.all[f.byRun[parent]].status))
    || (parent in reg.copies && reg.copies[parent])
  }

  /** The status of a candidate that is in order by itself. */
  function Settled(f: Found, reg: Registry, c: Candidate): Status
    requires f.Valid() && c.doc.Some?
  {
    var doc := c.doc.value;
    if doc.parentRunId != "" && !ParentAvailable(f, reg, doc.parentRunId) then MissingParent
    else if doc.runId !in reg.hashes then Importable
    else if reg.hashes[doc.runId] != "" && reg.hashes[doc.runId] != c.hash then Conflict
    else if doc.runId in reg.copies then Known
    else AdditionalCopy
  }

  predicate Offered(c: Candidate) {
    c.status.Importable? || c.status.AdditionalCopy?
  }

  /** The registry knows no other manifest for the point, and its parent was found or is on the storage. */
  predicate Fits(reg: Registry, byRun: map<string, nat>, c: Candidate)
    requires c.doc.Some?
  {
    var doc := c.doc.value;
    && (doc.runId in reg.hashes ==> reg.hashes[doc.runId] == c.hash)
    && (doc.parentRunId == "" || doc.parentRunId in byRun || (doc.parentRunId in reg.copies && reg.copies[doc.parentRunId]))
  }

  predicate GoodOffer(repo: Repository, reg: Registry, f: Found, c: Candidate) {
    c.doc.Some? && Readable(c.doc.value) && Intact(repo, c.prefix, c.doc.value) && Fits(reg, f.byRun, c)
  }

  /** Among offers for one run there is one manifest. */
  predicate OffersAgree(all: seq<Candidate>) {
    forall i, j :: 0 <= i < |all| && 0 <= j < |all| && Offered(all[i]) && Offered(all[j])
      && all[i].doc.Some? && all[j].doc.Some? && all[i].doc.value.runId == all[j].doc.value.runId
      ==> all[i].hash == all[j].hash
  }

  /** A candidate as loading leaves it. */
  predicate LoadedFrom(repo: Repository, c: Candidate) {
    && !c.status.AdditionalCopy?
    && (c.doc.Some? ==> Readable(c.doc.value) && c.hash != "")
    && (c.status.Importable? ==> c.doc.Some? && Intact(repo, c.prefix, c.doc.value))
  }

  /** Only the status may change, and nothing becomes an offer that was not importable before. */
  predicate Restated(before: seq<Candidate>, after: seq<Candidate>) {
    && |before| == |after|
    && (forall j :: 0 <= j < |after| ==> after[j].(status := before[j].status) == before[j])
    && (forall j :: 0 <= j < |after| && Offered(after[j]) ==> before[j].status.Importable?)
  }

  /** Hashes are filled in, never replaced. */
  predicate FilledIn(reg: Registry, registered: Registry) {
    && registered.copies == reg.copies && registered.hashes.Keys == reg.hashes.Keys
    && forall r :: r in reg.hashes && reg.hashes[r] != "" ==> registered.hashes[r] == reg.hashes[r]
  }

  // --- The scan as a function of the visiting order -------------------------------------------------

  function LoadAll(repo: Repository, order: seq<string>): (loaded: seq<Candidate>)
    ensures |loaded| == |order|
  {
    seq(|order|, i requires 0 <= i < |order| => Load(repo, order[i]))
  }

  datatype Scanned = Scanned(found: Found, registry: Registry)

  /** A point that is known without its hash gets it. */
  function FillIn(reg: Registry, c: Candidate, status: Status): Registry
    requires c.doc.Some?
  {
    var run := c.doc.value.runId;
    if (status.Known? || status.AdditionalCopy?) && run in reg.hashes && reg.hashes[run] == ""
    then reg.(hashes := reg.hashes[run := c.hash]) else reg
  }

  function SettleOne(s: Scanned, i: nat): (t: Scanned)
    requires s.found.Valid() && i < |s.found.all|
    ensures t.found.Valid() && t.found.byRun == s.found.byRun && |t.found.all| == |s.found.all|
    ensures t.found.all == s.found.all[i := s.found.all[i].(status := t.found.all[i].status)]
  {
    var f, c := s.found, s.found.all[i];
    if c.doc.None? || !c.status.Importable? then s
    else
      var status := Settled(f, s.registry, c);
      Scanned(f.(all := f.all[i := c.(status := status)]), FillIn(s.registry, c, status))
  }

  /** The first n candidates compared with what is registered, one after another. */
  function SettleAll(s: Scanned, n: nat): (t: Scanned)
    requires s.found.Valid() && n <= |s.found.all|
    ensures t.found.Valid() && t.found.byRun == s.found.byRun && |t.found.all| == |s.found.all|
    ensures forall j :: n <= j < |s.found.all| ==> t.found.all[j] == s.found.all[j]
  {
    if n == 0 then s else SettleOne(SettleAll(s, n - 1), n - 1)
  }

  function ScanAll(repo: Repository, order: seq<string>, reg: Registry): (t: Scanned)
    ensures t.found.Valid() && |t.found.all| == |order|
  {
    SettleAll(Scanned(VisitAll(LoadAll(repo, order)), reg), |order|)
  }

  // --- Which candidates are offered ------------------------------------------------------------------

  /** A candidate is settled once and for all. */
  lemma {:induction false} SettledOnce(s: Scanned, i: nat, n: nat)
    requires s.found.Valid() && i < n <= |s.found.all|
    ensures SettleAll(s, n).found.all[i] == SettleAll(s, i + 1).found.all[i]
  {
    if i + 1 < n { SettledOnce(s, i, n - 1); }
  }

  /** Whatever hash is filled in is the one of the candidate that stands for the run. */
  predicate FilledFrom(v: Found, reg: Registry, later: Registry)
    requires v.Valid()
  {
    && later.copies == reg.copies && later.hashes.Keys == reg.hashes.Keys
    && forall r :: r in reg.hashes ==>
         || later.hashes[r] == reg.hashes[r]
         || (reg.hashes[r] == "" && r in v.byRun && later.hashes[r] == v.all[v.byRun[r]].hash)
  }

  lemma {:induction false} RegistryGrows(v: Found, reg: Registry, n: nat)
    requires v.Valid() && OneHash(v) && n <= |v.all|
    ensures FilledFrom(v, reg, SettleAll(Scanned(v, reg), n).registry)
  {
    if n > 0 {
      RegistryGrows(v, reg, n - 1);
      var s := SettleAll(Scanned(v, reg), n - 1);
      assert s.found.all[n - 1] == v.all[n - 1];
    }
  }

  /** The parent of candidate i, as it stood when i was settled: those before i had been settled already. */
  predicate HasParent(before: Found, after: Found, reg: Registry, i: nat)
    requires before.Valid() && |after.all| == |before.all| && i < |before.all| && before.all[i].doc.Some?
  {
    var parent := before.all[i].doc.value.parentRunId;
    || parent == ""
    || (parent in before.byRun && var p := before.byRun[parent];
        !Broken(if p < i then after.all[p].status else before.all[p].status))
    || (parent in reg.copies && reg.copies[parent])
  }

  /** The registry knows no other manifest for the point, and no copy of it on this storage. */
  predicate RegistryAllows(reg: Registry, c: Candidate)
    requires c.doc.Some?
  {
    var run := c.doc.value.runId;
    run in reg.hashes ==> (reg.hashes[run] == "" || reg.hashes[run] == c.hash) && run !in reg.copies
  }

  lemma ParentWhenSettled(v: Found, reg: Registry, i: nat)
    requires v.Valid() && OneHash(v) && i < |v.all| && v.all[i].doc.Some?
    ensures var s, parent := SettleAll(Scanned(v, reg), i), v.all[i].doc.value.parentRunId;
            HasParent(v, SettleAll(Scanned(v, reg), |v.all|).found, reg, i) <==>
            parent == "" || ParentAvailable(s.found, s.registry, parent)
  {
    var s, after := SettleAll(Scanned(v, reg), i), SettleAll(Scanned(v, reg), |v.all|).found;
    RegistryGrows(v, reg, i);
    var parent := v.all[i].doc.value.parentRunId;
    if parent in v.byRun {
      var p := v.byRun[parent];
      if p < i {
        SettledOnce(Scanned(v, reg), p, i);
        SettledOnce(Scanned(v, reg), p, |v.all|);
      }
      assert s.found.all[p].status == if p < i then after.all[p].status else v.all[p].status;
    }
  }

  lemma SettledExactlyWhen(v: Found, reg: Registry, i: nat)
    requires v.Valid() && OneHash(v) && i < |v.all| && v.all[i].doc.Some? && v.all[i].status.Importable?
    ensures var after := SettleAll(Scanned(v, reg), |v.all|).found;
            Offered(after.all[i]) <==> HasParent(v, after, reg, i) && RegistryAllows(reg, v.all[i])
  {
    var s := SettleAll(Scanned(v, reg), i);
    RegistryGrows(v, reg, i);
    SettledOnce(Scanned(v, reg), i, |v.all|);
    ParentWhenSettled(v, reg, i);
    SettledAs(s, v.all[i], i);
    RegistryAgrees(v, reg, s.registry, v.all[i]);
  }

  /** The registry has another manifest for the point. */
  predicate Contradicted(reg: Registry, c: Candidate)
    requires c.doc.Some?
  {
    var run := c.doc.value.runId;
    run in reg.hashes && reg.hashes[run] != "" && reg.hashes[run] != c.hash
  }

  /** The second pass breaks a candidate exactly when its parent is to be had and the registry contradicts it. */
  lemma BrokenExactlyWhen(v: Found, reg: Registry, i: nat)
    requires v.Valid() && OneHash(v) && i < |v.all| && v.all[i].doc.Some? && v.all[i].status.Importable?
    ensures var after := SettleAll(Scanned(v, reg), |v.all|).found;
            Broken(after.all[i].status) <==> HasParent(v, after, reg, i) && Contradicted(reg, v.all[i])
  {
    var s, after := SettleAll(Scanned(v, reg), i), SettleAll(Scanned(v, reg), |v.all|).found;
    RegistryGrows(v, reg, i);
    SettledOnce(Scanned(v, reg), i, |v.all|);
    ParentWhenSettled(v, reg, i);
    assert s.found.all[i] == v.all[i];
    assert Contradicted(reg, v.all[i]) <==> Contradicted(s.registry, v.all[i]);
  }

  lemma SettledAs(s: Scanned, c: Candidate, i: nat)
    requires s.found.Valid() && i < |s.found.all| && s.found.all[i] == c && c.doc.Some? && c.status.Importable?
    ensures var parent := c.doc.value.parentRunId;
            Offered(SettleOne(s, i).found.all[i]) <==>
            (parent == "" || ParentAvailable(s.found, s.registry, parent)) && RegistryAllows(s.registry, c)
  {}

  /** Filling in hashes changes nothing for the candidates that are not in conflict. */
  lemma RegistryAgrees(v: Found, reg: Registry, later: Registry, c: Candidate)
    requires v.Valid() && FilledFrom(v, reg, later) && c.doc.Some?
    requires c.doc.value.runId in v.byRun && c.hash == v.all[v.byRun[c.doc.value.runId]].hash
    ensures RegistryAllows(reg, c) <==> RegistryAllows(later, c)
  {}

  /** Everything that makes the candidate at place i of the order an offer. */
  predicate Deserves(repo: Repository, order: seq<string>, reg: Registry, i: nat)
    requires i < |order|
  {
    var loaded := LoadAll(repo, order);
    && Published(repo, order[i]) && Intact(repo, order[i], repo.runs[order[i]].manifest)
    && loaded[i].doc.Some? && Unchallenged(loaded, i)
    && VisitAll(loaded).all[i].doc.Some? && HasParent(VisitAll(loaded), ScanAll(repo, order, reg).found, reg, i)
    && RegistryAllows(reg, loaded[i])
  }

  lemma LoadedIsFresh(repo: Repository, order: seq<string>)
    ensures Fresh(LoadAll(repo, order))
  {
    forall i | 0 <= i < |order|
      ensures !LoadAll(repo, order)[i].status.Conflict?
    {
      LoadedExactlyWhen(repo, order[i]);
    }
  }

  /**
   * A point is offered exactly when its manifest is readable and everything it lists is there and matches, no
   * manifest of its run challenges it, its parent is to be had, and the registry knows neither another
   * manifest of it nor a copy on this storage.
   */
  lemma OfferedExactlyWhen(repo: Repository, order: seq<string>, reg: Registry, i: nat)
    requires i < |order|
    ensures Offered(ScanAll(repo, order, reg).found.all[i]) <==> Deserves(repo, order, reg, i)
  {
    var loaded := LoadAll(repo, order);
    var v := VisitAll(loaded);
    VisitedHaveOneHash(loaded);
    LoadedIsFresh(repo, order);
    LoadedExactlyWhen(repo, order[i]);
    KeptExactlyWhen(loaded, i);
    if v.all[i].doc.Some? && v.all[i].status.Importable? {
      SettledExactlyWhen(v, reg, i);
    } else {
      SettledOnce(Scanned(v, reg), i, |order|);
    }
  }

  // --- What every offer satisfies --------------------------------------------------------------------

  lemma SettleOneFits(s: Scanned, i: nat)
    requires s.found.Valid() && i < |s.found.all| && s.found.all[i].doc.Some? && s.found.all[i].status.Importable?
    ensures var t := SettleOne(s, i);
            FilledIn(s.registry, t.registry) && (Offered(t.found.all[i]) ==> Fits(t.registry, t.found.byRun, t.found.all[i]))
  {}

  lemma FitsLater(reg: Registry, later: Registry, byRun: map<string, nat>, c: Candidate)
    requires FilledIn(reg, later) && c.doc.Some? && Fits(reg, byRun, c) && c.hash != ""
    ensures Fits(later, byRun, c)
  {}

  /** Every candidate among the first n that is an offer fits what is registered. */
  predicate AllFit(t: Scanned, n: nat)
    requires n <= |t.found.all|
  {
    forall j :: 0 <= j < n && Offered(t.found.all[j]) ==>
      t.found.all[j].doc.Some? && Fits(t.registry, t.found.byRun, t.found.all[j])
  }

  lemma {:induction false} SettlingKeeps(repo: Repository, v: Found, reg: Registry, n: nat)
    requires v.Valid() && n <= |v.all| && forall j :: 0 <= j < |v.all| ==> LoadedFrom(repo, v.all[j])
    ensures var t := SettleAll(Scanned(v, reg), n);
            FilledIn(reg, t.registry) && Restated(v.all, t.found.all) && AllFit(t, n)
  {
    if n > 0 {
      SettlingKeeps(repo, v, reg, n - 1);
      var i, s, t := n - 1, SettleAll(Scanned(v, reg), n - 1), SettleAll(Scanned(v, reg), n);
      assert s.found.all[i] == v.all[i] && LoadedFrom(repo, v.all[i]);
      if v.all[i].doc.Some? && v.all[i].status.Importable? {
        SettleOneFits(s, i);
        forall j | 0 <= j < i && Offered(t.found.all[j])
          ensures t.found.all[j].doc.Some? && Fits(t.registry, t.found.byRun, t.found.all[j])
        {
          assert t.found.all[j] == s.found.all[j] && LoadedFrom(repo, v.all[j]);
          FitsLater(s.registry, t.registry, s.found.byRun, s.found.all[j]);
        }
      }
    }
  }

  lemma VisitedAreLoaded(repo: Repository, order: seq<string>)
    requires repo.Valid()
    ensures var v := VisitAll(LoadAll(repo, order));
            forall i :: 0 <= i < |order| ==> v.all[i].prefix == order[i] && LoadedFrom(repo, v.all[i])
  {
    var loaded := LoadAll(repo, order);
    VisitedHaveOneHash(loaded);
    forall i | 0 <= i < |order|
      ensures VisitAll(loaded).all[i].prefix == order[i] && LoadedFrom(repo, VisitAll(loaded).all[i])
    {
      LoadedExactlyWhen(repo, order[i]);
      assert Demoted(loaded[i], VisitAll(loaded).all[i]);
    }
  }

  /** Every offer is intact under its own prefix and fits what is registered, and offers of one run agree. */
  lemma OffersAreGood(repo: Repository, order: seq<string>, reg: Registry)
    requires repo.Valid()
    ensures var t := ScanAll(repo, order, reg);
            && FilledIn(reg, t.registry) && OffersAgree(t.found.all)
            && forall i :: 0 <= i < |order| ==>
                 t.found.all[i].prefix == order[i] && (Offered(t.found.all[i]) ==> GoodOffer(repo, t.registry, t.found, t.found.all[i]))
  {
    var v, t := VisitAll(LoadAll(repo, order)), ScanAll(repo, order, reg);
    VisitedAreLoaded(repo, order);
    VisitedHaveOneHash(LoadAll(repo, order));
    SettlingKeeps(repo, v, reg, |order|);
    AgreementSurvives(v, t.found.all);
    forall i | 0 <= i < |order|
      ensures t.found.all[i].prefix == order[i]
      ensures Offered(t.found.all[i]) ==> GoodOffer(repo, t.registry, t.found, t.found.all[i])
    {
      assert LoadedFrom(repo, v.all[i]) && t.found.all[i].(status := v.all[i].status) == v.all[i];
    }
  }

  // --- The scan ------------------------------------------------------------------------------------

  /**
   * The scan, with the prefixes visited in the given order. Whatever the order, an entry is offered exactly
   * when it deserves it, every offered entry is intact under its own prefix, and no two entries offered under
   * one run have different manifests.
   */
  method Scan(repo: Repository, order: seq<string>, reg: Registry) returns (f: Found, registered: Registry)
    requires repo.Valid()
    ensures Scanned(f, registered) == ScanAll(repo, order, reg)
    ensures f.Valid() && |f.all| == |order|
    ensures forall i :: 0 <= i < |order| ==> f.all[i].prefix == order[i]
    ensures forall i :: 0 <= i < |order| ==> (Offered(f.all[i]) <==> Deserves(repo, order, reg, i))
    ensures forall i :: 0 <= i < |order| && Offered(f.all[i]) ==> GoodOffer(repo, registered, f, f.all[i])
    ensures OffersAgree(f.all)
    ensures FilledIn(reg, registered)
  {
    f := FirstPass(repo, order);
    f, registered := SecondPass(f, reg);
    OffersAreGood(repo, order, reg);
    forall i | 0 <= i < |order|
      ensures Offered(f.all[i]) <==> Deserves(repo, order, reg, i)
    {
      OfferedExactlyWhen(repo, order, reg, i);
    }
  }

  lemma AgreementSurvives(visited: Found, all: seq<Candidate>)
    requires visited.Valid() && OneHash(visited) && Restated(visited.all, all)
    ensures OffersAgree(all)
  {
    forall i | 0 <= i < |all| && Offered(all[i]) && all[i].doc.Some?
      ensures all[i].doc.value.runId in visited.byRun
      ensures all[i].hash == visited.all[visited.byRun[all[i].doc.value.runId]].hash
    {
      assert all[i].doc == visited.all[i].doc && all[i].hash == visited.all[i].hash;
    }
  }

  /** Settles one candidate that is in order by itself. */
  method Settle(f: Found, reg: Registry, i: nat) returns (g: Found, registered: Registry)
    requires f.Valid() && i < |f.all|
    ensures Scanned(g, registered) == SettleOne(Scanned(f, reg), i)
  {
    var c := f.all[i];
    g, registered := f, reg;
    if c.doc.None? || !c.status.Importable? { return; }
    var doc := c.doc.value;
    if doc.parentRunId != "" && !ParentAvailable(f, reg, doc.parentRunId) {
      c := c.(status := MissingParent);
    } else if doc.runId in reg.hashes && reg.hashes[doc.runId] != "" && reg.hashes[doc.runId] != c.hash {
      c := c.(status := Conflict);
    } else if doc.runId in reg.hashes {
      if reg.hashes[doc.runId] == "" { registered := reg.(hashes := reg.hashes[doc.runId := c.hash]); }
      c := c.(status := if doc.runId in reg.copies then Known else AdditionalCopy);
    } else {
      c := c.(status := Importable);
    }
    g := f.(all := f.all[i := c]);
  }

  /** Compares every candidate that is in order with what is registered, and fills in missing hashes. */
  method SecondPass(visited: Found, reg: Registry) returns (f: Found, registered: Registry)
    requires visited.Valid()
    ensures Scanned(f, registered) == SettleAll(Scanned(visited, reg), |visited.all|)
  {
    f, registered := visited, reg;
    var i := 0;
    while i < |f.all|
      invariant i <= |f.all| == |visited.all| && Scanned(f, registered) == SettleAll(Scanned(visited, reg), i)
    {
      f, registered := Settle(f, registered, i);
      i := i + 1;
    }
  }

  /** Visits one candidate: it joins the table, and if it contradicts the one that stands for its run, both are in conflict. */
  method VisitOne(f: Found, candidate: Candidate) returns (g: Found)
    requires f.Valid()
    ensures g == Visit(f, candidate)
  {
    var c := candidate;
    g := f;
    if c.doc.Some? {
      var run := c.doc.value.runId;
      if run in f.byRun && f.all[f.byRun[run]].hash != c.hash {
        c := c.(status := Conflict);
        g := g.(all := g.all[f.byRun[run] := g.all[f.byRun[run]].(status := Conflict)]);
      } else {
        g := g.(byRun := g.byRun[run := |f.all|]);
      }
    }
    g := g.(all := g.all + [c]);
  }

  /** Loads every candidate and finds the conflicts between them. */
  method FirstPass(repo: Repository, order: seq<string>) returns (f: Found)
    ensures f == VisitAll(LoadAll(repo, order))
  {
    f := Found([], map[]);
    ghost var loaded := LoadAll(repo, order);
    var i := 0;
    while i < |order|
      invariant i <= |order| && f == VisitAll(loaded[..i])
    {
      var c := LoadCandidate(repo, order[i]);
      assert loaded[..i + 1][..i] == loaded[..i] && loaded[i] == c;
      f := VisitOne(f, c);
      i := i + 1;
    }
    assert loaded[..i] == loaded;
  }
}
