/** The scan and the import together: repositories on which they do not do what one would expect. */
module CatalogCases {
  import opened Text
  import opened CatalogScan
  import opened CatalogVisit
  import opened CatalogOffer
  import opened CatalogOrder
  import opened CatalogParents
  import opened CatalogIndifference
  import opened CatalogImport

  predicate DistinctPrefixes(order: seq<string>) {
    forall i, j :: 0 <= i < j < |order| ==> order[i] != order[j]
  }

  /**
   * For every repository and every run in it, the order of visiting makes no difference to which manifests are
   * put in conflict exactly when their hashes are all equal or all different.
   */
  lemma ScanOrderExactlyWhen(repo: Repository, order: seq<string>, run: string)
    requires DistinctPrefixes(order)
    ensures var loaded := LoadAll(repo, order);
            OrderIndifferent(loaded, run) <==> AllEqual(loaded, run) || AllDifferent(loaded, run)
  {
    LoadedAreDistinct(repo, order);
    OrderIndifferentExactlyWhen(LoadAll(repo, order), run);
  }

  lemma LoadedAreDistinct(repo: Repository, order: seq<string>)
    requires DistinctPrefixes(order)
    ensures Fresh(LoadAll(repo, order)) && Distinct(LoadAll(repo, order))
  {
    LoadedIsFresh(repo, order);
    forall i | 0 <= i < |order|
      ensures LoadAll(repo, order)[i].prefix == order[i]
    {
      LoadedExactlyWhen(repo, order[i]);
    }
  }

  // --- The offers of a repository -------------------------------------------------------------------

  ghost predicate SamePrefixes(other: seq<string>, order: seq<string>) {
    DistinctPrefixes(other) && forall p :: p in other <==> p in order
  }

  /** The prefixes a scan in this order offers. */
  function OfferedBy(repo: Repository, order: seq<string>, reg: Registry): set<string> {
    set i | 0 <= i < |order| && Offered(ScanAll(repo, order, reg).found.all[i]) :: order[i]
  }

  /** Every order of visiting leads to the same offers. */
  ghost predicate ScanIndifferent(repo: Repository, order: seq<string>, reg: Registry) {
    forall other :: SamePrefixes(other, order) ==> OfferedBy(repo, other, reg) == OfferedBy(repo, order, reg)
  }

  lemma LoadedIsRaw(repo: Repository, order: seq<string>)
    ensures AllRaw(LoadAll(repo, order))
  {
    forall i | 0 <= i < |order|
      ensures Raw(LoadAll(repo, order)[i])
    {
      LoadedExactlyWhen(repo, order[i]);
    }
  }

  lemma LoadedPrefix(repo: Repository, order: seq<string>, i: nat)
    requires i < |order|
    ensures LoadAll(repo, order)[i] == Load(repo, order[i]) && Load(repo, order[i]).prefix == order[i]
  {
    LoadedExactlyWhen(repo, order[i]);
  }

  lemma OfferedAreOffers(repo: Repository, order: seq<string>, reg: Registry, p: string)
    ensures p in OfferedBy(repo, order, reg) <==> Load(repo, p) in Offers(LoadAll(repo, order), reg)
  {
    var loaded := LoadAll(repo, order);
    forall i | 0 <= i < |order|
      ensures loaded[i] == Load(repo, p) <==> order[i] == p
    {
      LoadedPrefix(repo, order, i);
      LoadedExactlyWhen(repo, p);
    }
    assert ScanAll(repo, order, reg).found == After(loaded, reg);
  }

  lemma PrefixesReorder(repo: Repository, other: seq<string>, order: seq<string>)
    requires DistinctPrefixes(order) && SamePrefixes(other, order)
    ensures Reorders(LoadAll(repo, other), LoadAll(repo, order))
  {
    LoadedAreDistinct(repo, other);
    forall c
      ensures c in LoadAll(repo, other) <==> c in LoadAll(repo, order)
    {
      InLoaded(repo, other, c);
      InLoaded(repo, order, c);
    }
  }

  lemma InLoaded(repo: Repository, order: seq<string>, c: Candidate)
    ensures c in LoadAll(repo, order) <==> c.prefix in order && c == Load(repo, c.prefix)
  {
    var loaded := LoadAll(repo, order);
    forall i | 0 <= i < |order|
      ensures loaded[i] == Load(repo, order[i]) && loaded[i].prefix == order[i]
    {
      LoadedPrefix(repo, order, i);
    }
    if c.prefix in order && c == Load(repo, c.prefix) {
      var i :| 0 <= i < |order| && order[i] == c.prefix;
      assert loaded[i] == c;
    }
  }

  /** Every order of the candidates is an order of the prefixes. */
  lemma PrefixesOf(repo: Repository, order: seq<string>, candidates: seq<Candidate>) returns (other: seq<string>)
    requires DistinctPrefixes(order) && Reorders(candidates, LoadAll(repo, order))
    ensures SamePrefixes(other, order) && LoadAll(repo, other) == candidates
  {
    other := seq(|candidates|, i requires 0 <= i < |candidates| => candidates[i].prefix);
    forall i | 0 <= i < |candidates|
      ensures other[i] in order && Load(repo, other[i]) == candidates[i]
    {
      assert candidates[i] in LoadAll(repo, order);
      InLoaded(repo, order, candidates[i]);
    }
    forall p | p in order
      ensures p in other
    {
      LoadedExactlyWhen(repo, p);
      InLoaded(repo, order, Load(repo, p));
      var i :| 0 <= i < |candidates| && candidates[i] == Load(repo, p);
      assert other[i] == p;
    }
  }

  lemma SameOfferedBy(repo: Repository, other: seq<string>, order: seq<string>, reg: Registry)
    ensures OfferedBy(repo, other, reg) == OfferedBy(repo, order, reg) <==>
            forall p :: Load(repo, p) in Offers(LoadAll(repo, other), reg) <==> Load(repo, p) in Offers(LoadAll(repo, order), reg)
  {
    forall p
      ensures p in OfferedBy(repo, other, reg) <==> Load(repo, p) in Offers(LoadAll(repo, other), reg)
      ensures p in OfferedBy(repo, order, reg) <==> Load(repo, p) in Offers(LoadAll(repo, order), reg)
    {
      OfferedAreOffers(repo, other, reg, p);
      OfferedAreOffers(repo, order, reg, p);
    }
  }

  lemma OffersAreLoaded(repo: Repository, order: seq<string>, reg: Registry, c: Candidate)
    requires c in Offers(LoadAll(repo, order), reg)
    ensures c == Load(repo, c.prefix)
  {
    InLoaded(repo, order, c);
  }

  /**
   * For every repository and registry, the scan offers the same points in every order of visiting exactly when every
   * candidate that some order offers can neither be challenged nor lose its parent.
   */
  lemma ScanIndifferentExactlyWhen(repo: Repository, order: seq<string>, reg: Registry)
    requires DistinctPrefixes(order)
    ensures ScanIndifferent(repo, order, reg) <==> AllCertain(LoadAll(repo, order), reg)
  {
    var loaded := LoadAll(repo, order);
    LoadedIsRaw(repo, order);
    LoadedAreDistinct(repo, order);
    OffersIndifferentExactlyWhen(loaded, reg);
    if AllCertain(loaded, reg) {
      forall other | SamePrefixes(other, order)
        ensures OfferedBy(repo, other, reg) == OfferedBy(repo, order, reg)
      {
        PrefixesReorder(repo, other, order);
        SameOfferedBy(repo, other, order, reg);
      }
    }
    if ScanIndifferent(repo, order, reg) {
      forall candidates | Reorders(candidates, loaded)
        ensures Offers(candidates, reg) == Offers(loaded, reg)
      {
        var other := PrefixesOf(repo, order, candidates);
        SameOfferedBy(repo, other, order, reg);
        forall c
          ensures c in Offers(candidates, reg) <==> c in Offers(loaded, reg)
        {
          if c in Offers(candidates, reg) { OffersAreLoaded(repo, other, reg, c); }
          if c in Offers(loaded, reg) { OffersAreLoaded(repo, order, reg, c); }
        }
      }
    }
  }

  // --- Every status of a scan ------------------------------------------------------------------------

  /** When the scan of a repository gives each status, for every order and every registry. */
  lemma ScanStatusExactlyWhen(repo: Repository, order: seq<string>, reg: Registry, i: nat)
    requires i < |order|
    ensures var loaded := LoadAll(repo, order);
            var status, c := ScanAll(repo, order, reg).found.all[i].status, loaded[i];
            && (status.Known? <==> Complete(loaded, reg, i) && Registered(reg, c) && !Contradicted(reg, c) && CopiedHere(reg, c))
            && (status.AdditionalCopy? <==> Complete(loaded, reg, i) && Registered(reg, c) && !Contradicted(reg, c) && !CopiedHere(reg, c))
            && (status.Importable? <==> Complete(loaded, reg, i) && !Registered(reg, c))
            && (status.MissingParent? <==> Passes(loaded, i) && !Available(loaded, reg, i))
            && (status.Conflict? <==> (c.doc.Some? && !Unchallenged(loaded, i)) || (Complete(loaded, reg, i) && Contradicted(reg, c)))
            && (status == c.status || Passes(loaded, i) || status.Conflict?)
  {
    LoadedIsRaw(repo, order);
    StatusExactlyWhen(LoadAll(repo, order), reg, i);
  }

  // --- Small repositories --------------------------------------------------------------------------

  /** A manifest that lists no objects. */
  function Bare(run: string, parent: string, chain: string, index: int): RunManifest {
    RunManifest(FORMAT_NAME, FORMAT_VERSION, run, "server", "vm", chain, index, parent, "", [], [])
  }

  function RepositoryOf(runs: map<string, RunFile>): Repository {
    Repository({}, runs, map[], map[])
  }

  const NOTHING := Registry(map[], map[])

  lemma BareLoads(repo: Repository, prefix: string, hash: string, doc: RunManifest)
    requires prefix in repo.runs && repo.runs[prefix] == Decoded(hash, doc) && Readable(doc) && RequiredKeys(doc) == []
    requires doc.disks == [] && doc.artifacts == []
    ensures Load(repo, prefix) == Candidate(prefix, Some(doc), hash, Importable)
    ensures Intact(repo, prefix, doc) && Published(repo, prefix)
  {}

  // --- The order decides how much is offered -------------------------------------------------------------

  /** Two equal copies of a manifest and one that contradicts them. */
  function Contested(): Repository {
    var d, e := Bare("r", "", "one", 0), Bare("r", "", "two", 0);
    RepositoryOf(map["a/" := Decoded("1", d), "b/" := Decoded("1", d), "c/" := Decoded("2", e)])
  }

  lemma ContestedLoads()
    ensures var repo := Contested(); var d, e := Bare("r", "", "one", 0), Bare("r", "", "two", 0);
            && Load(repo, "a/") == Candidate("a/", Some(d), "1", Importable)
            && Load(repo, "b/") == Candidate("b/", Some(d), "1", Importable)
            && Load(repo, "c/") == Candidate("c/", Some(e), "2", Importable)
            && Published(repo, "a/") && Intact(repo, "a/", d) && repo.runs["a/"] == Decoded("1", d)
  {
    var repo := Contested();
    BareLoads(repo, "a/", "1", Bare("r", "", "one", 0));
    BareLoads(repo, "b/", "1", Bare("r", "", "one", 0));
    BareLoads(repo, "c/", "2", Bare("r", "", "two", 0));
  }

  lemma CopyInFront(x: Candidate, y: Candidate, z: Candidate, run: string)
    requires OfRun(x, run) && OfRun(y, run) && x.hash == y.hash
    ensures Unchallenged([x, y, z], 0)
  {
    var all := [x, y, z];
    assert all[0] == x && all[1] == y && all[2] == z;
    assert First(all, run) == 0 && NextOf(all, run, 0) == 1;
  }

  lemma OtherInFront(x: Candidate, y: Candidate, z: Candidate, run: string)
    requires OfRun(x, run) && OfRun(y, run) && OfRun(z, run) && x.hash != y.hash && x.hash != z.hash
    ensures !Unchallenged([x, y, z], 0) && !Unchallenged([x, y, z], 1) && !Unchallenged([x, y, z], 2)
  {
    var all := [x, y, z];
    assert all[0] == x && all[1] == y && all[2] == z;
    assert First(all, run) == 0 && NextOf(all, run, 0) == 1;
  }

  lemma CopiesFirst()
    ensures Offered(ScanAll(Contested(), ["a/", "b/", "c/"], NOTHING).found.all[0])
  {
    var repo, order := Contested(), ["a/", "b/", "c/"];
    ContestedLoads();
    assert LoadAll(repo, order) == [Load(repo, "a/"), Load(repo, "b/"), Load(repo, "c/")];
    CopyInFront(Load(repo, "a/"), Load(repo, "b/"), Load(repo, "c/"), "r");
    VisitedHaveOneHash(LoadAll(repo, order));
    OfferedExactlyWhen(repo, order, NOTHING, 0);
  }

  lemma OtherFirst(i: nat)
    requires i < 3
    ensures !Offered(ScanAll(Contested(), ["c/", "a/", "b/"], NOTHING).found.all[i])
  {
    var repo, order := Contested(), ["c/", "a/", "b/"];
    ContestedLoads();
    assert LoadAll(repo, order) == [Load(repo, "c/"), Load(repo, "a/"), Load(repo, "b/")];
    OtherInFront(Load(repo, "c/"), Load(repo, "a/"), Load(repo, "b/"), "r");
    OfferedExactlyWhen(repo, order, NOTHING, i);
  }

  /** The scan of one repository in two orders: in one a copy is offered, in the other nothing is. */
  lemma OrderMatters()
    ensures Offered(ScanAll(Contested(), ["a/", "b/", "c/"], NOTHING).found.all[0])
    ensures forall i :: 0 <= i < 3 ==> !Offered(ScanAll(Contested(), ["c/", "a/", "b/"], NOTHING).found.all[i])
  {
    CopiesFirst();
    forall i | 0 <= i < 3
      ensures !Offered(ScanAll(Contested(), ["c/", "a/", "b/"], NOTHING).found.all[i])
    {
      OtherFirst(i);
    }
  }

  // --- The order decides about children --------------------------------------------------------------------

  lemma TwoVisits(x: Candidate, y: Candidate, run: string, other: string)
    requires OfRun(x, run) && OfRun(y, other) && run != other
    ensures VisitAll([x, y]) == Found([x, y], map[run := 0, other := 1])
    ensures Unchallenged([x, y], 0) && Unchallenged([x, y], 1)
  {
    assert [x, y][..1] == [x] && [x][..0] == [];
    assert VisitAll([x]) == Visit(VisitAll([]), x) == Found([x], map[run := 0]);
    var all := [x, y];
    assert all[0] == x && all[1] == y;
    assert First(all, run) == 0 && First(all, other) == 1;
  }

  /** A point and its child. */
  function Family(): Repository {
    RepositoryOf(map["p/" := Decoded("1", Bare("p", "", "one", 0)), "q/" := Decoded("2", Bare("q", "p", "one", 1))])
  }

  /** The registry has another manifest for the parent. */
  const OTHER_PARENT := Registry(map["p" := "other"], map[])

  lemma FamilyLoads()
    ensures var p := Candidate("p/", Some(Bare("p", "", "one", 0)), "1", Importable);
            var q := Candidate("q/", Some(Bare("q", "p", "one", 1)), "2", Importable);
            && LoadAll(Family(), ["p/", "q/"]) == [p, q] && LoadAll(Family(), ["q/", "p/"]) == [q, p]
            && Published(Family(), "q/") && Intact(Family(), "q/", Family().runs["q/"].manifest)
  {
    BareLoads(Family(), "p/", "1", Bare("p", "", "one", 0));
    BareLoads(Family(), "q/", "2", Bare("q", "p", "one", 1));
    var p, q := Load(Family(), "p/"), Load(Family(), "q/");
    assert LoadAll(Family(), ["p/", "q/"]) == [p, q] && LoadAll(Family(), ["q/", "p/"]) == [q, p];
  }

  lemma ParentFirst()
    ensures !Offered(ScanAll(Family(), ["p/", "q/"], OTHER_PARENT).found.all[1])
  {
    FamilyLoads();
    var loaded := LoadAll(Family(), ["p/", "q/"]);
    TwoVisits(loaded[0], loaded[1], "p", "q");
    VisitedHaveOneHash(loaded);
    BrokenExactlyWhen(VisitAll(loaded), OTHER_PARENT, 0);
    OfferedExactlyWhen(Family(), ["p/", "q/"], OTHER_PARENT, 1);
  }

  lemma ChildFirst()
    ensures Offered(ScanAll(Family(), ["q/", "p/"], OTHER_PARENT).found.all[0])
  {
    FamilyLoads();
    var loaded := LoadAll(Family(), ["q/", "p/"]);
    TwoVisits(loaded[0], loaded[1], "q", "p");
    OfferedExactlyWhen(Family(), ["q/", "p/"], OTHER_PARENT, 0);
  }

  /** A child of a point the registry contradicts is offered if it is visited before its parent, and not otherwise. */
  lemma OrderMattersToChildren()
    ensures !Offered(ScanAll(Family(), ["p/", "q/"], OTHER_PARENT).found.all[1])
    ensures Offered(ScanAll(Family(), ["q/", "p/"], OTHER_PARENT).found.all[0])
  {
    ParentFirst();
    ChildFirst();
  }

  /** The registry has the parent, without its hash, and a healthy copy of it here. */
  const KNOWN_PARENT := Registry(map["p" := ""], map["p" := true])

  lemma FamilyStatuses(order: seq<string>, i: nat)
    requires order == ["p/", "q/"] || order == ["q/", "p/"]
    requires i < 2
    ensures ScanAll(Family(), order, KNOWN_PARENT).found.all[i].status == if order[i] == "p/" then Known else Importable
  {
    FamilyLoads();
    if order[0] == "p/" {
      PairStatuses(order, "p", "q", i);
    } else {
      PairStatuses(order, "q", "p", i);
    }
  }

  lemma PairStatuses(order: seq<string>, x: string, y: string, i: nat)
    requires |order| == 2 && i < 2 && x != y
    requires var loaded := LoadAll(Family(), order);
             OfRun(loaded[0], x) && OfRun(loaded[1], y) && loaded[i].status.Importable?
             && loaded[i].doc.value.parentRunId in {"", "p"}
    ensures var c := LoadAll(Family(), order)[i];
            ScanAll(Family(), order, KNOWN_PARENT).found.all[i].status == if c.doc.value.runId == "p" then Known else Importable
  {
    LoadedIsRaw(Family(), order);
    var loaded := LoadAll(Family(), order);
    assert loaded == [loaded[0], loaded[1]];
    TwoVisits(loaded[0], loaded[1], x, y);
    assert Available(loaded, KNOWN_PARENT, i);
    StatusExactlyWhen(loaded, KNOWN_PARENT, i);
  }

  lemma FamilyEntries(order: seq<string>, i: nat)
    requires order == ["p/", "q/"] || order == ["q/", "p/"]
    requires i < 2
    ensures var c := ScanAll(Family(), order, KNOWN_PARENT).found.all[i];
            EntryFor(order[i], c) == FamilyEntry(order[i])
  {
    FamilyStatuses(order, i);
    FamilyLoads();
    var loaded := LoadAll(Family(), order);
    VisitedHaveOneHash(loaded);
    assert Demoted(loaded[i], VisitAll(loaded).all[i]);
    SettledHash(VisitAll(loaded), KNOWN_PARENT, i);
  }

  lemma KnownParentIsFit(c: Catalog)
    requires c == Catalog(map["p/" := Entry("p/", "p", Known, Some(Doc("", 0))), "q/" := Entry("q/", "q", Importable, Some(Doc("p", 1)))],
                          map["p" := Entry("p/", "p", Known, Some(Doc("", 0))), "q" := Entry("q/", "q", Importable, Some(Doc("p", 1)))], {})
    ensures AllSound(c, ["q/"]) && AllEnd(c, ["q/"])
  {
    assert Parent(c, "q/") == Some("p/") && Parent(c, "p/") == None;
    assert Closed(c, {"p/", "q/"}) && Holds(["q/"], {"p/", "q/"}) && Sound(c, "p/") && Sound(c, "q/");
    ClosedIsSound(c, ["q/"], {"p/", "q/"});
    assert EndsWithin(c, "p/", 0) && EndsWithin(c, "q/", 1);
    assert ["q/"][0] == "q/";
  }

  /**
   * Scan and import together: in either order a registered parent is known, its missing hash is filled in, its new
   * child is offered, and the import accepts the child.
   */
  lemma NewChildOfKnownParent(order: seq<string>)
    requires order == ["p/", "q/"] || order == ["q/", "p/"]
    ensures var t := ScanAll(Family(), order, KNOWN_PARENT);
            var p, q := EntryFor(order[0], t.found.all[0]), EntryFor(order[1], t.found.all[1]);
            var catalog := Catalog(map[order[0] := p, order[1] := q], map[p.runId := p, q.runId := q], {});
            && t.registry == Registry(map["p" := "1"], map["p" := true])
            && catalog.Valid() && AllSound(catalog, ["q/"]) && AllEnd(catalog, ["q/"])
  {
    FamilyEntries(order, 0);
    FamilyEntries(order, 1);
    FamilyHash(order);
    var t := ScanAll(Family(), order, KNOWN_PARENT);
    EitherOrderFits(order, EntryFor(order[0], t.found.all[0]), EntryFor(order[1], t.found.all[1]));
  }

  function FamilyEntry(prefix: string): Entry {
    if prefix == "p/" then Entry("p/", "p", Known, Some(Doc("", 0))) else Entry("q/", "q", Importable, Some(Doc("p", 1)))
  }

  lemma EitherOrderFits(order: seq<string>, x: Entry, y: Entry)
    requires order == ["p/", "q/"] || order == ["q/", "p/"]
    requires x == FamilyEntry(order[0]) && y == FamilyEntry(order[1])
    ensures var catalog := Catalog(map[order[0] := x, order[1] := y], map[x.runId := x, y.runId := y], {});
            catalog.Valid() && AllSound(catalog, ["q/"]) && AllEnd(catalog, ["q/"])
  {
    KnownParentIsFit(Catalog(map[order[0] := x, order[1] := y], map[x.runId := x, y.runId := y], {}));
  }

  lemma FamilyHash(order: seq<string>)
    requires order == ["p/", "q/"] || order == ["q/", "p/"]
    ensures ScanAll(Family(), order, KNOWN_PARENT).registry == Registry(map["p" := "1"], map["p" := true])
  {
    FamilyLoads();
    LoadedIsRaw(Family(), order);
    var loaded := LoadAll(Family(), order);
    var i := if order[0] == "p/" then 0 else 1;
    FamilyStatuses(order, i);
    HashesFilledExactlyWhen(loaded, KNOWN_PARENT, "p");
    assert KnownAt(loaded, KNOWN_PARENT, "p", i);
    var later := RegistryAfter(loaded, KNOWN_PARENT);
    assert later.hashes == map["p" := "1"];
  }

  /** For every repository, the order makes no difference to whether a run can be a parent after the first pass exactly then. */
  lemma ScanStandingExactlyWhen(repo: Repository, order: seq<string>, run: string)
    requires DistinctPrefixes(order)
    ensures var loaded := LoadAll(repo, order);
            StandingIndifferent(loaded, run) <==>
            !Twinned(loaded, run) || (AllEqual(loaded, run) && NoneBroken(loaded, run))
  {
    LoadedAreDistinct(repo, order);
    StandingIndifferentExactlyWhen(LoadAll(repo, order), run);
  }

  /** One manifest under two prefixes, of which only the first holds the object it lists. */
  function Doubled(): Repository {
    var d := Bare("p", "", "one", 0).(configKey := "a/x");
    Repository({"a/x"}, map["a/" := Decoded("1", d), "b/" := Decoded("1", d)], map[], map[])
  }

  lemma KeyOfFirst()
    ensures InRun("a/", "a/x") && !InRun("b/", "a/x")
  {
    var key := "a/x";
    assert key == "a" + "/" + "x";
    SplitCut("a", "x", '/');
    SplitOfJoin(["a"], '/');
    SplitOfJoin(["x"], '/');
    assert Split(key, '/') == ["a", "x"];
    assert key[0] == 'a' && "b/"[0] == 'b';
  }

  lemma DoubledLoads()
    ensures var repo := Doubled(); var a, b := Load(repo, "a/"), Load(repo, "b/");
            && OfRun(a, "p") && OfRun(b, "p") && a.hash == b.hash == "1" && a.status.Importable? && b.status.Corrupt? && a != b
  {
    KeyOfFirst();
    var doc := Doubled().runs["a/"].manifest;
    assert RequiredKeys(doc) == ["a/x"];
    assert ["a/x"][..0] == [];
    assert forall repo, prefix :: CheckKeys(repo, prefix, ["a/x"]) == CheckKey(repo, prefix, "a/x");
  }

  /** The copy visited last stands for both, so the order decides whether a child would find its parent. */
  lemma OrderMattersToParents()
    ensures Stands(LoadAll(Doubled(), ["b/", "a/"]), "p") && !Stands(LoadAll(Doubled(), ["a/", "b/"]), "p")
  {
    DoubledLoads();
    var a, b := Load(Doubled(), "a/"), Load(Doubled(), "b/");
    var first, second := LoadAll(Doubled(), ["b/", "a/"]), LoadAll(Doubled(), ["a/", "b/"]);
    assert first == [b, a] && second == [a, b];
    LoadedIsFresh(Doubled(), ["b/", "a/"]);
    LoadedIsFresh(Doubled(), ["a/", "b/"]);
    assert first[1] == a && first[0] == b && Last(first, "p") == 1 && First(first, "p") == 0;
    assert second[1] == b && second[0] == a && Last(second, "p") == 1 && First(second, "p") == 0;
    StandsExactlyWhen(first, "p");
    StandsExactlyWhen(second, "p");
  }

  // --- From the scan to the import ------------------------------------------------------------------------

  /** The stored entry of a candidate. */
  function EntryFor(id: string, c: Candidate): Entry {
    if c.doc.Some?
    then Entry(id, c.doc.value.runId, c.status, Some(Doc(c.doc.value.parentRunId, c.doc.value.chainIndex)))
    else Entry(id, "", c.status, None)
  }

  /** An acceptable entry that names its own run as parent makes the selection go on without end. */
  lemma OwnParentNeverEnds(c: Catalog, id: string)
    requires c.Valid() && id in c.byId && Acceptable(c.byId[id].status)
    requires Parent(c, id) == Some(id)
    ensures !Ends(c, id)
  {
    assert Endless(c, {id});
    RecursionEndsExactlyWhen(c, id);
  }

  function OwnParent(): Repository {
    RepositoryOf(map["a/" := Decoded("1", Bare("r", "r", "one", 1))])
  }

  lemma OwnParentVisits()
    ensures var c := Candidate("a/", Some(Bare("r", "r", "one", 1)), "1", Importable);
            && LoadAll(OwnParent(), ["a/"]) == [c] && VisitAll([c]) == Found([c], map["r" := 0]) && Unchallenged([c], 0)
            && Published(OwnParent(), "a/") && Intact(OwnParent(), "a/", OwnParent().runs["a/"].manifest)
  {
    BareLoads(OwnParent(), "a/", "1", Bare("r", "r", "one", 1));
    var c := Load(OwnParent(), "a/");
    assert LoadAll(OwnParent(), ["a/"]) == [c];
    assert [c][..0] == [] && VisitAll([c]) == Visit(VisitAll([]), c);
  }

  lemma OwnParentScan()
    ensures var c := ScanAll(OwnParent(), ["a/"], NOTHING).found.all[0];
            c == Candidate("a/", Some(Bare("r", "r", "one", 1)), "1", c.status) && Offered(c)
  {
    OwnParentVisits();
    OfferedExactlyWhen(OwnParent(), ["a/"], NOTHING, 0);
    VisitedAreLoaded(OwnParent(), ["a/"]);
    SettlingKeeps(OwnParent(), VisitAll(LoadAll(OwnParent(), ["a/"])), NOTHING, 1);
  }

  /** The scan offers such an entry, because the entry is found when its parent is looked for. */
  lemma OwnParentIsOffered()
    ensures var c := ScanAll(OwnParent(), ["a/"], NOTHING).found.all[0];
            && Offered(c)
            && var e := EntryFor("x", c);
            var catalog := Catalog(map["x" := e], map["r" := e], {});
            catalog.Valid() && !Ends(catalog, "x")
  {
    OwnParentScan();
    var e := EntryFor("x", ScanAll(OwnParent(), ["a/"], NOTHING).found.all[0]);
    OwnParentNeverEnds(Catalog(map["x" := e], map["r" := e], {}), "x");
  }

  /** A point without its parent, and another that builds on it. */
  function Severed(): Repository {
    RepositoryOf(map["p/" := Decoded("1", Bare("p", "gone", "one", 1)), "q/" := Decoded("2", Bare("q", "p", "one", 2))])
  }

  lemma SeveredVisits()
    ensures var p := Candidate("p/", Some(Bare("p", "gone", "one", 1)), "1", Importable);
            var q := Candidate("q/", Some(Bare("q", "p", "one", 2)), "2", Importable);
            && LoadAll(Severed(), ["p/", "q/"]) == [p, q] && VisitAll([p, q]) == Found([p, q], map["p" := 0, "q" := 1])
            && Published(Severed(), "q/") && Intact(Severed(), "q/", Severed().runs["q/"].manifest) && Unchallenged([p, q], 1)
  {
    var repo := Severed();
    BareLoads(repo, "p/", "1", Bare("p", "gone", "one", 1));
    BareLoads(repo, "q/", "2", Bare("q", "p", "one", 2));
    var p, q := Load(repo, "p/"), Load(repo, "q/");
    assert LoadAll(repo, ["p/", "q/"]) == [p, q];
    assert [p, q][..1] == [p] && [p][..0] == [];
    assert VisitAll([p]) == Visit(VisitAll([]), p) == Found([p], map["p" := 0]);
    assert First([p, q], "q") == 1;
  }

  lemma SeveredScan()
    ensures var all := ScanAll(Severed(), ["p/", "q/"], NOTHING).found.all;
            && all[0] == Candidate("p/", Some(Bare("p", "gone", "one", 1)), "1", MissingParent)
            && all[1] == Candidate("q/", Some(Bare("q", "p", "one", 2)), "2", all[1].status) && Offered(all[1])
  {
    var repo, order := Severed(), ["p/", "q/"];
    SeveredVisits();
    var v, all := VisitAll(LoadAll(repo, order)), ScanAll(repo, order, NOTHING).found.all;
    var s := Scanned(v, NOTHING);
    SettledOnce(s, 0, 2);
    assert SettleAll(s, 1) == SettleOne(SettleAll(s, 0), 0);
    assert all[0].status.MissingParent?;
    OfferedExactlyWhen(repo, order, NOTHING, 1);
    VisitedAreLoaded(repo, order);
    SettlingKeeps(repo, v, NOTHING, 2);
  }

  /** A child of an entry that cannot be imported cannot be imported either. */
  lemma ChildOfUnfit(c: Catalog, id: string, parent: string)
    requires c.Valid() && Parent(c, id) == Some(parent) && !Fit(c, parent)
    ensures !AllSound(c, [id])
  {
    assert Ancestor(c, id, 0) == Some(id);
    assert Ancestor(c, id, 1) == Some(parent);
    assert Reaches(c, id, parent);
    SoundAncestors(c, id);
  }

  /** The scan offers the second although the first has lost its parent, and the import of the second is refused. */
  lemma OfferedButRefused()
    ensures var all := ScanAll(Severed(), ["p/", "q/"], NOTHING).found.all;
            && all[0].status.MissingParent? && Offered(all[1])
            && var p, q := EntryFor("x", all[0]), EntryFor("y", all[1]);
            var catalog := Catalog(map["x" := p, "y" := q], map["p" := p, "q" := q], {});
            catalog.Valid() && !AllSound(catalog, ["y"])
  {
    SeveredScan();
    var all := ScanAll(Severed(), ["p/", "q/"], NOTHING).found.all;
    var p, q := EntryFor("x", all[0]), EntryFor("y", all[1]);
    var catalog := Catalog(map["x" := p, "y" := q], map["p" := p, "q" := q], {});
    ChildOfUnfit(catalog, "y", "x");
  }
}
