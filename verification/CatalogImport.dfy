/** Importing scanned backup points: selecting them with their parents and the order they are imported in. */
module CatalogImport {
  import opened Text
  import opened CatalogScan
  import Sizes
  import Eviction

  /** The part of a manifest the import looks at. */
  datatype Doc = Doc(parentRunId: string, chainIndex: int)

  /** A scanned entry; a manifest that cannot be decoded is None. */
  datatype Entry = Entry(id: string, runId: string, status: Status, doc: Option<Doc>)

  /** The entries of a scan by identifier and by run, and the runs with a healthy copy on the storage. */
  datatype Catalog = Catalog(byId: map<string, Entry>, byRun: map<string, Entry>, healthy: set<string>)
  {
    predicate Valid() {
      && (forall id :: id in byId ==> byId[id].id == id)
      && (forall r :: r in byRun ==> byRun[r].runId == r && byRun[r].id in byId && byId[byRun[r].id] == byRun[r])
    }
  }

  method Index(all: seq<Entry>, healthy: set<string>) returns (c: Catalog)
    requires forall i, j :: 0 <= i < j < |all| ==> all[i].id != all[j].id
    ensures c.Valid() && c.healthy == healthy
    ensures forall i :: 0 <= i < |all| ==> all[i].id in c.byId && c.byId[all[i].id] == all[i] && all[i].runId in c.byRun
    ensures forall id :: id in c.byId ==> c.byId[id] in all
  {
    var byId: map<string, Entry>, byRun: map<string, Entry> := map[], map[];
    var i := 0;
    while i < |all|
      invariant i <= |all| && Catalog(byId, byRun, healthy).Valid()
      invariant forall j :: 0 <= j < i ==> all[j].id in byId && byId[all[j].id] == all[j] && all[j].runId in byRun
      invariant forall id :: id in byId ==> byId[id] in all
    {
      byId, byRun := byId[all[i].id := all[i]], byRun[all[i].runId := all[i]];
      i := i + 1;
    }
    return Catalog(byId, byRun, healthy);
  }

  // --- Parents -------------------------------------------------------------------------------

  /** The run this entry builds on, if it builds on any. */
  function ParentRun(e: Entry): string {
    if e.doc.Some? then e.doc.value.parentRunId else ""
  }

  /** The scanned entry this one builds on. */
  function Parent(c: Catalog, id: string): Option<string> {
    if id in c.byId && ParentRun(c.byId[id]) != "" && ParentRun(c.byId[id]) in c.byRun
    then Some(c.byRun[ParentRun(c.byId[id])].id) else None
  }

  predicate Acceptable(s: Status) {
    s.Importable? || s.AdditionalCopy? || s.Known?
  }

  /** The entry itself can be imported: known, acceptable, readable, and its parent is somewhere. */
  predicate Sound(c: Catalog, id: string) {
    && id in c.byId && Acceptable(c.byId[id].status) && c.byId[id].doc.Some?
    && (ParentRun(c.byId[id]) == "" || ParentRun(c.byId[id]) in c.byRun || ParentRun(c.byId[id]) in c.healthy)
  }

  /** The entry the selection looks at next; it does not go beyond an entry that cannot be imported. */
  function Up(c: Catalog, id: string): Option<string> {
    if id in c.byId && Acceptable(c.byId[id].status) then Parent(c, id) else None
  }

  /** Going from parent to parent comes to an end within so many steps. */
  predicate EndsWithin(c: Catalog, id: string, depth: nat)
    decreases depth
  {
    Up(c, id).None? || (depth > 0 && EndsWithin(c, Up(c, id).value, depth - 1))
  }

  /** With every entry comes its parent. */
  predicate Closed(c: Catalog, ids: set<string>) {
    forall id :: id in ids && Parent(c, id).Some? ==> Parent(c, id).value in ids
  }

  /** Whatever set contains the entry and all parents contains the other one too. */
  ghost predicate Needs(c: Catalog, id: string, other: string) {
    forall ids: set<string> :: Closed(c, ids) && id in ids ==> other in ids
  }

  // --- Chains ------------------------------------------------------------------------------------

  function ChainIndex(c: Catalog, id: string): int {
    if id in c.byId && c.byId[id].doc.Some? then c.byId[id].doc.value.chainIndex else 0
  }

  /** Chain indexes grow from parent to child, as the backup writes them. */
  predicate Ascending(c: Catalog) {
    forall id :: id in c.byId && Parent(c, id).Some? && Parent(c, id).value in c.byId && c.byId[Parent(c, id).value].doc.Some?
      ==> ChainIndex(c, Parent(c, id).value) < ChainIndex(c, id)
  }

  function Below(c: Catalog, id: string): set<string> {
    set x | x in c.byId && ChainIndex(c, x) < ChainIndex(c, id)
  }

  lemma {:induction false} EndsLater(c: Catalog, id: string, depth: nat, more: nat)
    requires EndsWithin(c, id, depth) && depth <= more
    ensures EndsWithin(c, id, more)
    decreases depth
  {
    if Up(c, id).Some? { EndsLater(c, Up(c, id).value, depth - 1, more - 1); }
  }

  lemma SmallerBelow(c: Catalog, id: string, parent: string)
    requires parent in c.byId && ChainIndex(c, parent) < ChainIndex(c, id)
    ensures |Below(c, parent)| < |Below(c, id)|
  {
    Sizes.SmallerSet(Below(c, parent) + {parent}, Below(c, id));
  }

  /** Growing chain indexes make the recursion end, however the entries are linked. */
  lemma {:induction false} AscendingEnds(c: Catalog, id: string)
    requires c.Valid() && Ascending(c)
    ensures EndsWithin(c, id, |Below(c, id)| + 1)
    decreases |Below(c, id)|
  {
    if Up(c, id).Some? {
      var p := Up(c, id).value;
      if c.byId[p].doc.Some? {
        SmallerBelow(c, id, p);
        AscendingEnds(c, p);
        EndsLater(c, p, |Below(c, p)| + 1, |Below(c, id)|);
      }
    }
  }

  /** Every entry of the set leads to another one of it. */
  ghost predicate Endless(c: Catalog, ids: set<string>) {
    forall x :: x in ids ==> Up(c, x).Some? && Up(c, x).value in ids
  }

  ghost predicate Ends(c: Catalog, id: string) { exists depth: nat :: EndsWithin(c, id, depth) }

  lemma {:induction false} EndlessNeverEnds(c: Catalog, ids: set<string>, id: string, depth: nat)
    requires Endless(c, ids) && id in ids
    ensures !EndsWithin(c, id, depth)
    decreases depth
  {
    if depth > 0 { EndlessNeverEnds(c, ids, Up(c, id).value, depth - 1); }
  }

  /** The recursion ends exactly when the entry does not lead into a circle of entries, whatever their indexes are. */
  lemma RecursionEndsExactlyWhen(c: Catalog, id: string)
    requires c.Valid()
    ensures Ends(c, id) <==> !exists ids: set<string> :: Endless(c, ids) && id in ids
  {
    if Ends(c, id) {
      var depth: nat :| EndsWithin(c, id, depth);
      forall ids: set<string> | Endless(c, ids)
        ensures id !in ids
      {
        if id in ids { EndlessNeverEnds(c, ids, id, depth); }
      }
    } else {
      var ids := set x | x in c.byId && !Ends(c, x);
      forall x | x in ids
        ensures Up(c, x).Some? && Up(c, x).value in ids
      {
        assert !EndsWithin(c, x, 0);
        var p := Up(c, x).value;
        if Ends(c, p) {
          var depth: nat :| EndsWithin(c, p, depth);
          assert EndsWithin(c, x, depth + 1);
        }
      }
      assert !EndsWithin(c, id, 0);
      assert Endless(c, ids);
    }
  }

  // --- How deep the recursion goes ------------------------------------------------------------------

  lemma {:induction false} ChainOf(c: Catalog, id: string, depth: nat) returns (chain: set<string>)
    requires EndsWithin(c, id, depth) && (depth > 0 ==> !EndsWithin(c, id, depth - 1))
    ensures |chain| == depth && chain <= c.byId.Keys && forall x :: x in chain ==> EndsWithin(c, x, depth)
    decreases depth
  {
    if depth == 0 {
      chain := {};
    } else {
      var below := ChainOf(c, Up(c, id).value, depth - 1);
      forall x | x in below
        ensures EndsWithin(c, x, depth)
      {
        EndsLater(c, x, depth - 1, depth);
      }
      chain := below + {id};
    }
  }

  lemma {:induction false} LeastDepth(c: Catalog, id: string, depth: nat) returns (least: nat)
    requires EndsWithin(c, id, depth)
    ensures least <= depth && EndsWithin(c, id, least) && (least > 0 ==> !EndsWithin(c, id, least - 1))
  {
    least := depth;
    if depth > 0 && EndsWithin(c, id, depth - 1) { least := LeastDepth(c, id, depth - 1); }
  }

  /** A chain that ends at all ends within as many steps as there are entries. */
  lemma EndsWithinTheCatalog(c: Catalog, id: string)
    ensures Ends(c, id) <==> EndsWithin(c, id, |c.byId|)
  {
    if Ends(c, id) {
      var depth: nat :| EndsWithin(c, id, depth);
      var least := LeastDepth(c, id, depth);
      var chain := ChainOf(c, id, least);
      Sizes.SmallerSet(chain, c.byId.Keys);
      EndsLater(c, id, least, |c.byId|);
    }
  }

  // --- The recursive selection --------------------------------------------------------------------

  /** TooDeep stands for a recursion that exhausts the stack. */
  datatype Outcome = Included | Refused | TooDeep

  class Selection {
    const catalog: Catalog
    var selected: map<string, Entry>

    ghost predicate Valid()
      reads this
    {
      && catalog.Valid() && Closed(catalog, selected.Keys)
      && forall id :: id in selected ==> Sound(catalog, id) && Ends(catalog, id) && selected[id] == catalog.byId[id]
    }

    constructor (c: Catalog)
      requires c.Valid()
      ensures Valid() && catalog == c && selected == map[]
    {
      catalog, selected := c, map[];
    }

    /**
     * Selects an entry after its parents, going at most depth entries up. On success exactly what the entry
     * needs has been added. Otherwise nothing has: something it needs cannot be imported, or its chain is
     * longer than that, and a chain without end always is.
     */
    method IncludeParents(id: string, depth: nat) returns (r: Outcome, ghost culprit: string)
      requires Valid()
      modifies this
      ensures Valid() && old(selected).Keys <= selected.Keys
      ensures r.Included? ==> id in selected && forall x :: x in selected ==> x in old(selected) || Needs(catalog, id, x)
      ensures !r.Included? ==> selected == old(selected)
      ensures r.Refused? ==> !Sound(catalog, culprit) && Needs(catalog, id, culprit)
      ensures r.TooDeep? ==> !EndsWithin(catalog, id, depth)
      ensures !Ends(catalog, id) ==> r.TooDeep?
      decreases depth
    {
      culprit := id;
      EndsUpwards(catalog, id);
      if id !in catalog.byId { return Refused, id; }
      var entry := catalog.byId[id];
      if !Acceptable(entry.status) { return Refused, id; }
      if id in selected { return Included, ""; }
      if entry.doc.None? { return Refused, id; }
      var parentRun := entry.doc.value.parentRunId;
      if parentRun != "" {
        if parentRun in catalog.byRun {
          var parent := catalog.byRun[parentRun].id;
          assert Parent(catalog, id) == Up(catalog, id) == Some(parent);
          if depth == 0 { return TooDeep, ""; }
          r, culprit := IncludeParents(parent, depth - 1);
          if !r.Included? { return; }
        } else if parentRun !in catalog.healthy {
          return Refused, id;
        }
      }
      selected := selected[id := entry];
      return Included, "";
    }

    /** Selects every requested entry with its parents, if all they need can be imported and no chain is endless. */
    method Include(ids: seq<string>) returns (r: Outcome, ghost culprit: string)
      requires Valid() && selected == map[]
      modifies this
      ensures Valid()
      ensures r.Included? <==> AllSound(catalog, ids) && AllEnd(catalog, ids)
      ensures r.Included? ==> Holds(ids, selected.Keys) && OnlyNeeded(catalog, ids, selected.Keys)
      ensures r.Refused? ==> !Sound(catalog, culprit) && NeededBySome(catalog, ids, culprit)
      ensures r.TooDeep? ==> !AllEnd(catalog, ids)
    {
      culprit := "";
      var i := 0;
      while i < |ids|
        invariant i <= |ids| && Valid() && OnlyNeeded(catalog, ids, selected.Keys)
        invariant forall j :: 0 <= j < i ==> ids[j] in selected
      {
        r, culprit := IncludeOne(ids, i);
        if !r.Included? { return; }
        i := i + 1;
      }
      ClosedIsSound(catalog, ids, selected.Keys);
      return Included, "";
    }

    /** Selects one requested entry with its parents. */
    method IncludeOne(ids: seq<string>, i: nat) returns (r: Outcome, ghost culprit: string)
      requires Valid() && i < |ids| && OnlyNeeded(catalog, ids, selected.Keys)
      modifies this
      ensures Valid() && old(selected).Keys <= selected.Keys && OnlyNeeded(catalog, ids, selected.Keys)
      ensures r.Included? ==> ids[i] in selected
      ensures r.Refused? ==> !Sound(catalog, culprit) && NeededBySome(catalog, ids, culprit)
      ensures r.TooDeep? ==> !Ends(catalog, ids[i])
    {
      EndsWithinTheCatalog(catalog, ids[i]);
      r, culprit := IncludeParents(ids[i], |catalog.byId|);
    }
  }

  ghost predicate NeededBySome(c: Catalog, ids: seq<string>, x: string) {
    exists i :: 0 <= i < |ids| && Needs(c, ids[i], x)
  }

  ghost predicate OnlyNeeded(c: Catalog, ids: seq<string>, selected: set<string>) {
    forall x :: x in selected ==> NeededBySome(c, ids, x)
  }

  ghost predicate Holds(ids: seq<string>, selected: set<string>) {
    forall i :: 0 <= i < |ids| ==> ids[i] in selected
  }

  /** Whatever the requested entries need can be imported. */
  ghost predicate AllSound(c: Catalog, ids: seq<string>) {
    forall x :: NeededBySome(c, ids, x) ==> Sound(c, x)
  }

  ghost predicate AllEnd(c: Catalog, ids: seq<string>) {
    forall i :: 0 <= i < |ids| ==> Ends(c, ids[i])
  }

  lemma EndsUpwards(c: Catalog, id: string)
    ensures Ends(c, id) <==> (Up(c, id).Some? ==> Ends(c, Up(c, id).value))
  {
    if Up(c, id).None? {
      assert EndsWithin(c, id, 0);
    } else {
      if Ends(c, id) {
        var depth: nat :| EndsWithin(c, id, depth);
        assert EndsWithin(c, Up(c, id).value, depth - 1);
      }
      if Ends(c, Up(c, id).value) {
        var depth: nat :| EndsWithin(c, Up(c, id).value, depth);
        assert EndsWithin(c, id, depth + 1);
      }
    }
  }

  /** Everything the requested entries need is in every closed set that holds them. */
  lemma ClosedIsSound(c: Catalog, ids: seq<string>, selected: set<string>)
    requires Closed(c, selected) && Holds(ids, selected)
    requires forall x :: x in selected ==> Sound(c, x)
    ensures AllSound(c, ids)
  {
    forall x | NeededBySome(c, ids, x)
      ensures Sound(c, x)
    {
      var i :| 0 <= i < |ids| && Needs(c, ids[i], x);
    }
  }

  /** A closed selection of nothing but needed entries is the least closed one holding what was requested. */
  lemma SelectionIsLeast(c: Catalog, ids: seq<string>, selected: set<string>, other: set<string>)
    requires Closed(c, selected) && OnlyNeeded(c, ids, selected)
    requires Closed(c, other) && Holds(ids, other)
    ensures selected <= other
  {
    forall x | x in selected
      ensures x in other
    {
      assert NeededBySome(c, ids, x);
    }
  }

  /** A request is sound exactly when some parent-closed set of sound entries holds it; otherwise it is refused for cause. */
  lemma SoundExactlyWhen(c: Catalog, ids: seq<string>)
    requires c.Valid()
    ensures AllSound(c, ids) <==>
            exists selected: set<string> :: Closed(c, selected) && Holds(ids, selected) && forall x :: x in selected ==> Sound(c, x)
  {
    if AllSound(c, ids) {
      var selected := set x | x in c.byId && NeededBySome(c, ids, x);
      forall i | 0 <= i < |ids|
        ensures ids[i] in selected
      {
        assert Needs(c, ids[i], ids[i]);
        assert NeededBySome(c, ids, ids[i]);
      }
      forall y | y in selected && Parent(c, y).Some?
        ensures Parent(c, y).value in selected
      {
        var i :| 0 <= i < |ids| && Needs(c, ids[i], y);
        assert Needs(c, ids[i], Parent(c, y).value);
        assert NeededBySome(c, ids, Parent(c, y).value);
      }
      assert Closed(c, selected) && Holds(ids, selected);
    }
    forall selected: set<string> | Closed(c, selected) && Holds(ids, selected) && forall x :: x in selected ==> Sound(c, x)
      ensures AllSound(c, ids)
    {
      ClosedIsSound(c, ids, selected);
    }
  }

  // --- What an entry needs, entry by entry -----------------------------------------------------------

  /** The entry so many parents up, as far as there are any. */
  function Ancestor(c: Catalog, id: string, n: nat): Option<string> {
    if n == 0 then Some(id)
    else
      var below := Ancestor(c, id, n - 1);
      if below.Some? then Parent(c, below.value) else None
  }

  ghost predicate Reaches(c: Catalog, id: string, x: string) {
    exists n: nat :: Ancestor(c, id, n) == Some(x)
  }

  lemma {:induction false} AncestorsAreNeeded(c: Catalog, ids: set<string>, id: string, n: nat)
    requires Closed(c, ids) && id in ids
    ensures Ancestor(c, id, n).Some? ==> Ancestor(c, id, n).value in ids
  {
    if n > 0 { AncestorsAreNeeded(c, ids, id, n - 1); }
  }

  /** An entry needs its ancestors and nothing else. */
  lemma NeedsExactlyAncestors(c: Catalog, id: string, x: string)
    requires c.Valid()
    ensures Needs(c, id, x) <==> Reaches(c, id, x)
  {
    if Reaches(c, id, x) {
      var n: nat :| Ancestor(c, id, n) == Some(x);
      forall ids: set<string> | Closed(c, ids) && id in ids
        ensures x in ids
      {
        AncestorsAreNeeded(c, ids, id, n);
      }
    } else {
      var ids := {id} + set y | y in c.byId && Reaches(c, id, y);
      assert Ancestor(c, id, 0) == Some(id);
      forall y | y in ids && Parent(c, y).Some?
        ensures Parent(c, y).value in ids
      {
        var n: nat :| Ancestor(c, id, n) == Some(y);
        assert Ancestor(c, id, n + 1) == Parent(c, y);
      }
      assert Closed(c, ids) && x !in ids;
    }
  }

  /** The entry was scanned, is fit for import and has a readable manifest. */
  predicate Fit(c: Catalog, id: string) {
    id in c.byId && c.byId[id].status in {Importable, AdditionalCopy, Known} && c.byId[id].doc.Some?
  }

  /** Where the scanned entries end, the chain is complete or goes on with a healthy copy on the storage. */
  predicate TopIsThere(c: Catalog, id: string) {
    id in c.byId && Parent(c, id).None? ==> ParentRun(c.byId[id]) == "" || ParentRun(c.byId[id]) in c.healthy
  }

  ghost predicate ChainIsFit(c: Catalog, id: string) {
    forall x :: Reaches(c, id, x) ==> Fit(c, x) && TopIsThere(c, x)
  }

  /**
   * An entry is accepted exactly when every scanned ancestor is fit, the parent of the topmost is there, and the
   * chain ends, which it then does within as many steps as there are entries.
   */
  lemma AcceptedExactlyWhen(c: Catalog, id: string)
    requires c.Valid()
    ensures AllSound(c, [id]) && AllEnd(c, [id]) <==> ChainIsFit(c, id) && EndsWithin(c, id, |c.byId|)
  {
    SoundAncestors(c, id);
    EndsWithinTheCatalog(c, id);
    assert [id][0] == id;
  }

  lemma SoundAncestors(c: Catalog, id: string)
    requires c.Valid()
    ensures AllSound(c, [id]) <==> ChainIsFit(c, id)
  {
    forall x
      ensures NeededBySome(c, [id], x) <==> Reaches(c, id, x)
    {
      NeedsExactlyAncestors(c, id, x);
      assert [id][0] == id;
    }
    forall x
      ensures Sound(c, x) <==> Fit(c, x) && TopIsThere(c, x)
    {}
  }

  // --- The order of the import ------------------------------------------------------------------------

  predicate ByIndex(c: Catalog, items: seq<Entry>) {
    forall i, j :: 0 <= i < j < |items| ==> items[i] != items[j] && ChainIndex(c, items[i].id) <= ChainIndex(c, items[j].id)
  }

  /** The items are the selected entries of the given identifiers. */
  ghost predicate Lists(selected: map<string, Entry>, ids: set<string>, items: seq<Entry>) {
    && (forall i :: 0 <= i < |items| ==> items[i].id in ids && items[i].id in selected && selected[items[i].id] == items[i])
    && (forall id :: id in ids && id in selected ==> selected[id] in items)
  }

  /** The selected entries in the order they are imported: by chain index, ties in any order. */
  ghost predicate ImportOrder(c: Catalog, selected: map<string, Entry>, items: seq<Entry>) {
    Lists(selected, selected.Keys, items) && ByIndex(c, items)
  }

  /** The parent of item i is not needed, is on the storage, or has been imported. */
  predicate ParentThere(c: Catalog, items: seq<Entry>, i: nat)
    requires i < |items|
  {
    var run := ParentRun(items[i]);
    run == "" || run in c.healthy || exists j :: 0 <= j < i && items[j].runId == run
  }

  /** However far the import gets, no point is imported before its parent is there. */
  lemma ParentsComeFirst(c: Catalog, selected: map<string, Entry>, items: seq<Entry>, i: nat)
    requires c.Valid() && Ascending(c) && Closed(c, selected.Keys)
    requires forall id :: id in selected ==> Sound(c, id) && selected[id] == c.byId[id]
    requires ImportOrder(c, selected, items) && i < |items|
    ensures ParentThere(c, items, i)
  {
    var id, run := items[i].id, ParentRun(items[i]);
    assert Sound(c, id);
    if run != "" && run in c.byRun {
      var parent := c.byRun[run].id;
      assert Parent(c, id) == Some(parent) && parent in selected && Sound(c, parent);
      var j :| 0 <= j < |items| && items[j] == selected[parent];
      assert ChainIndex(c, items[j].id) < ChainIndex(c, items[i].id);
    }
  }

  // --- For which selections every arrangement will do ------------------------------------------------------

  /** Some selected entry of the run the entry builds on has a smaller chain index. */
  predicate ParentIsLower(c: Catalog, selected: map<string, Entry>, id: string)
    requires id in selected
  {
    var run := ParentRun(selected[id]);
    run == "" || run in c.healthy || exists p :: p in selected && selected[p].runId == run && ChainIndex(c, p) < ChainIndex(c, id)
  }

  lemma {:induction false} Sorted(c: Catalog, selected: map<string, Entry>, ids: set<string>) returns (items: seq<Entry>)
    requires ids <= selected.Keys && forall id :: id in selected ==> selected[id].id == id
    ensures ByIndex(c, items) && Lists(selected, ids, items)
    decreases |ids|
  {
    items := [];
    if ids != {} {
      var indexes := map id | id in ids :: ChainIndex(c, id);
      assert indexes.Keys == ids;
      var least := Eviction.OldestExists(indexes);
      var rest := Sorted(c, selected, ids - {least});
      items := [selected[least]] + rest;
      assert forall i :: 0 <= i < |rest| ==> indexes[least] <= indexes[rest[i].id];
    }
  }

  /** An arrangement in which the entry comes before all others of its chain index. */
  lemma AsEarlyAsPossible(c: Catalog, selected: map<string, Entry>, id: string) returns (items: seq<Entry>, k: nat)
    requires id in selected && forall x :: x in selected ==> selected[x].id == x
    ensures ImportOrder(c, selected, items) && k < |items| && items[k] == selected[id]
    ensures forall j :: 0 <= j < k ==> ChainIndex(c, items[j].id) < ChainIndex(c, id)
  {
    var lower := set x | x in selected && ChainIndex(c, x) < ChainIndex(c, id);
    var upper := selected.Keys - lower - {id};
    var before := Sorted(c, selected, lower);
    var after := Sorted(c, selected, upper);
    k := |before|;
    items := before + [selected[id]] + after;
    GluedByIndex(c, before, selected[id], after);
    forall x | x in selected
      ensures selected[x] in items
    {
      assert x in lower || x == id || x in upper;
    }
    assert Lists(selected, selected.Keys, items);
  }

  lemma GluedByIndex(c: Catalog, before: seq<Entry>, e: Entry, after: seq<Entry>)
    requires ByIndex(c, before) && ByIndex(c, after)
    requires forall i :: 0 <= i < |before| ==> ChainIndex(c, before[i].id) < ChainIndex(c, e.id)
    requires forall i :: 0 <= i < |after| ==> ChainIndex(c, e.id) <= ChainIndex(c, after[i].id) && after[i] != e
    ensures ByIndex(c, before + [e] + after)
  {
    var items, k := before + [e] + after, |before|;
    assert forall i :: 0 <= i < k ==> items[i] == before[i];
    assert items[k] == e;
    assert forall i :: k < i < |items| ==> items[i] == after[i - k - 1];
  }

  /** In every arrangement by chain index the parents come first exactly when every selected entry has a lower one of its parent's run. */
  lemma ParentsFirstExactlyWhen(c: Catalog, selected: map<string, Entry>)
    requires forall x :: x in selected ==> selected[x].id == x
    ensures (forall items :: ImportOrder(c, selected, items) ==> forall i :: 0 <= i < |items| ==> ParentThere(c, items, i))
            <==> forall id :: id in selected ==> ParentIsLower(c, selected, id)
  {
    if forall id :: id in selected ==> ParentIsLower(c, selected, id) {
      forall items, i | ImportOrder(c, selected, items) && 0 <= i < |items|
        ensures ParentThere(c, items, i)
      {
        LowerComesFirst(c, selected, items, i);
      }
    } else {
      var id :| id in selected && !ParentIsLower(c, selected, id);
      var items, k := AsEarlyAsPossible(c, selected, id);
      assert !ParentThere(c, items, k);
    }
  }

  lemma LowerComesFirst(c: Catalog, selected: map<string, Entry>, items: seq<Entry>, i: nat)
    requires ImportOrder(c, selected, items) && i < |items| && ParentIsLower(c, selected, items[i].id)
    requires forall x :: x in selected ==> selected[x].id == x
    ensures ParentThere(c, items, i)
  {
    var id, run := items[i].id, ParentRun(items[i]);
    if run != "" && run !in c.healthy {
      var p :| p in selected && selected[p].runId == run && ChainIndex(c, p) < ChainIndex(c, id);
      var j :| 0 <= j < |items| && items[j] == selected[p];
    }
  }
}
