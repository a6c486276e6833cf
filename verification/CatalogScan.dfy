/** Scanning a repository for backup points and deciding which of them can be imported. */
module CatalogScan {
  import opened Text

  const FORMAT_NAME := "jhvirt-disk"
  const FORMAT_VERSION := 1

  datatype Status =
    | Importable | Known | AdditionalCopy | Incomplete | Corrupt
    | Conflict | Unsupported | MissingParent | MissingObject

  /** A disk or an artifact listed in a run manifest; only an artifact has a kind. */
  datatype Item = Item(diskId: string, kind: Option<string>, manifestKey: string, dataKey: string, dataHash: string)

  datatype RunManifest = RunManifest(
    format: string, version: int, runId: string, serverId: string, vmId: string, chainId: string,
    chainIndex: int, parentRunId: string, configKey: string, disks: seq<Item>, artifacts: seq<Item>)

  datatype DiskManifest = DiskManifest(runId: string, diskId: string, kind: string, dataKey: string, dataHash: string)

  datatype RunFile = Unreadable | Garbled(hash: string) | Decoded(hash: string, manifest: RunManifest)

  /**
   * A repository: the listed objects, the run manifests by prefix, the disk and artifact manifests that
   * can be read, decoded and pass validation, and the hash of every object that can be read.
   */
  datatype Repository = Repository(
    listed: set<string>, runs: map<string, RunFile>, manifests: map<string, DiskManifest>, hashes: map<string, string>)
  {
    /** The digest of a manifest is never an empty text. */
    predicate Valid() {
      forall p :: p in runs && runs[p].Decoded? ==> runs[p].hash != ""
    }
  }

  datatype Candidate = Candidate(prefix: string, doc: Option<RunManifest>, hash: string, status: Status)

  // --- Keys under a run ------------------------------------------------------------------------

  /** No empty or "." segment, and ".." only in front of a path that is not rooted. */
  predicate CleanSegments(segments: seq<string>, rooted: bool) {
    forall i :: 0 <= i < |segments| ==>
      && segments[i] != "" && segments[i] != "."
      && (segments[i] == ".." ==> !rooted && forall j :: 0 <= j < i ==> segments[j] == "..")
  }

  /** A path that cleaning leaves as it is. */
  predicate Clean(key: string) {
    || key == "." || key == "/"
    || (key != "" && if key[0] == '/' then CleanSegments(Split(key[1..], '/'), true) else CleanSegments(Split(key, '/'), false))
  }

  predicate InRun(prefix: string, key: string) {
    key != "" && '\\' !in key && Clean(key) && prefix <= key && |key| > |prefix|
  }

  predicate Plain(segments: seq<string>) {
    forall i :: 0 <= i < |segments| ==> segments[i] != "" && segments[i] != "." && segments[i] != ".."
  }

  lemma TailIsPlain(before: seq<string>, tail: seq<string>)
    requires before != [] && before[0] != ".." && CleanSegments(before + tail, false)
    ensures Plain(tail)
  {
    var all := before + tail;
    forall i | 0 <= i < |tail|
      ensures tail[i] != "" && tail[i] != "." && tail[i] != ".."
    {
      assert all[0] == before[0] && all[|before| + i] == tail[i];
    }
  }

  /** A key accepted for a run never leads out of the directory of the run, which does not itself start by going up. */
  lemma InRunStaysInside(directory: string, key: string)
    requires directory != "" && directory[0] != '/' && Split(directory, '/')[0] != ".." && InRun(directory + "/", key)
    ensures var rest := key[|directory| + 1..]; key == directory + "/" + rest && Plain(Split(rest, '/'))
  {
    var rest := key[|directory| + 1..];
    assert key == directory + ['/'] + rest;
    SplitCut(directory, rest, '/');
    TailIsPlain(Split(directory, '/'), Split(rest, '/'));
  }

  /** Under a plain directory, the accepted keys are exactly those that go on with plain segments and no backslash. */
  lemma InRunExactlyWhen(directory: string, rest: string)
    requires Plain(Split(directory, '/')) && '\\' !in directory
    ensures InRun(directory + "/", directory + "/" + rest) <==> Plain(Split(rest, '/')) && '\\' !in rest
  {
    var key := directory + "/" + rest;
    CleanUnderPlain(directory, rest);
    assert '\\' !in key <==> '\\' !in rest;
    assert directory + "/" <= key;
    if Plain(Split(rest, '/')) { assert Split(rest, '/')[0] != "" && rest != ""; }
  }

  lemma CleanUnderPlain(directory: string, rest: string)
    requires Plain(Split(directory, '/'))
    ensures Clean(directory + "/" + rest) <==> Plain(Split(rest, '/'))
  {
    var key, before, tail := directory + "/" + rest, Split(directory, '/'), Split(rest, '/');
    assert before[0] != "" && before[0] != "..";
    assert directory != "" && directory[0] != '/' && key[0] == directory[0] && |key| > 1;
    SplitCut(directory, rest, '/');
    assert key == directory + ['/'] + rest && Split(key, '/') == before + tail;
    assert Clean(key) <==> CleanSegments(before + tail, false);
    if CleanSegments(before + tail, false) {
      TailIsPlain(before, tail);
    }
  }

  // --- Loading one candidate -------------------------------------------------------------------

  function RequiredKeys(doc: RunManifest): seq<string> {
    (if doc.configKey != "" then [doc.configKey] else []) + ItemKeys(doc.disks) + ItemKeys(doc.artifacts)
  }

  function ItemKeys(items: seq<Item>): seq<string> {
    if items == [] then []
    else ItemKeys(items[..|items| - 1]) + [items[|items| - 1].manifestKey, items[|items| - 1].dataKey]
  }

  function CheckKey(repo: Repository, prefix: string, key: string): Status {
    if !InRun(prefix, key) then Corrupt else if key !in repo.listed then MissingObject else Importable
  }

  /** The first key that is not in order decides. */
  function CheckKeys(repo: Repository, prefix: string, keys: seq<string>): Status {
    if keys == [] then Importable
    else
      var before := CheckKeys(repo, prefix, keys[..|keys| - 1]);
      if !before.Importable? then before else CheckKey(repo, prefix, keys[|keys| - 1])
  }

  /** The manifest of an item agrees with the run, and so do the recorded hashes. */
  predicate ItemMatches(repo: Repository, runId: string, item: Item) {
    && item.manifestKey in repo.manifests
    && var m := repo.manifests[item.manifestKey];
    && m.runId == runId && m.diskId == item.diskId && m.dataKey == item.dataKey
    && (item.kind.Some? ==> m.kind == item.kind.value)
    && (item.dataHash != "" && m.dataHash != "" ==> item.dataHash == m.dataHash)
    && (item.dataHash != "" ==> item.dataKey in repo.hashes && repo.hashes[item.dataKey] == item.dataHash)
  }

  predicate Named(doc: RunManifest) {
    doc.runId != "" && doc.serverId != "" && doc.vmId != "" && doc.chainId != ""
  }

  predicate Readable(doc: RunManifest) {
    doc.format == FORMAT_NAME && doc.version <= FORMAT_VERSION && Named(doc)
  }

  /** Everything the manifest lists is there, under its own prefix, and matches. */
  predicate Intact(repo: Repository, prefix: string, doc: RunManifest) {
    && (forall k :: k in RequiredKeys(doc) ==> InRun(prefix, k) && k in repo.listed)
    && ItemsMatch(repo, doc.runId, doc.disks) && ItemsMatch(repo, doc.runId, doc.artifacts)
  }

  method CheckItems(repo: Repository, runId: string, items: seq<Item>) returns (ok: bool)
    ensures ok <==> ItemsMatch(repo, runId, items)
  {
    var i := 0;
    while i < |items|
      invariant i <= |items| && forall j :: 0 <= j < i ==> ItemMatches(repo, runId, items[j])
    {
      var item := items[i];
      if item.manifestKey !in repo.manifests { return false; }
      var m := repo.manifests[item.manifestKey];
      if m.runId != runId || m.diskId != item.diskId || m.dataKey != item.dataKey { return false; }
      if item.kind.Some? && m.kind != item.kind.value { return false; }
      if item.dataHash != "" && m.dataHash != "" && item.dataHash != m.dataHash { return false; }
      if item.dataHash != "" {
        if item.dataKey !in repo.hashes || repo.hashes[item.dataKey] != item.dataHash { return false; }
      }
      i := i + 1;
    }
    return true;
  }

  /** Checks that every listed object is there, under the prefix of the run. */
  method CheckObjects(repo: Repository, prefix: string, keys: seq<string>) returns (status: Status)
    ensures status == CheckKeys(repo, prefix, keys) && (status.Importable? || status.Corrupt? || status.MissingObject?)
    ensures status.Importable? <==> forall k :: k in keys ==> InRun(prefix, k) && k in repo.listed
  {
    status := Importable;
    var i := 0;
    while i < |keys|
      invariant i <= |keys| && status == CheckKeys(repo, prefix, keys[..i]) == Importable
      invariant forall k :: k in keys[..i] ==> InRun(prefix, k) && k in repo.listed
    {
      assert keys[..i + 1][..i] == keys[..i];
      if !InRun(prefix, keys[i]) { FirstDecides(repo, prefix, keys, i + 1); return Corrupt; }
      if keys[i] !in repo.listed { FirstDecides(repo, prefix, keys, i + 1); return MissingObject; }
      i := i + 1;
    }
    assert keys[..i] == keys;
  }

  lemma {:induction false} FirstDecides(repo: Repository, prefix: string, keys: seq<string>, n: nat)
    requires n <= |keys| && !CheckKeys(repo, prefix, keys[..n]).Importable?
    ensures CheckKeys(repo, prefix, keys) == CheckKeys(repo, prefix, keys[..n])
  {
    if n == |keys| {
      assert keys[..n] == keys;
    } else {
      var init := keys[..|keys| - 1];
      assert init[..n] == keys[..n];
      FirstDecides(repo, prefix, init, n);
    }
  }

  predicate ItemsMatch(repo: Repository, runId: string, items: seq<Item>) {
    forall i :: 0 <= i < |items| ==> ItemMatches(repo, runId, items[i])
  }

  /** What the listed objects make of a manifest that can be read. */
  function ContentStatus(repo: Repository, prefix: string, doc: RunManifest): (s: Status)
    ensures s.Importable? || s.Corrupt? || s.MissingObject?
  {
    var keys := CheckKeys(repo, prefix, RequiredKeys(doc));
    if !keys.Importable? then (if keys.MissingObject? then MissingObject else Corrupt)
    else if ItemsMatch(repo, doc.runId, doc.disks) && ItemsMatch(repo, doc.runId, doc.artifacts) then Importable
    else Corrupt
  }

  /** The candidate at a prefix, as the scan finds it before comparing it with others. */
  function Load(repo: Repository, prefix: string): Candidate {
    if prefix !in repo.runs then Candidate(prefix, None, "", Incomplete)
    else match repo.runs[prefix]
         case Unreadable => Candidate(prefix, None, "", Corrupt)
         case Garbled(hash) => Candidate(prefix, None, hash, Corrupt)
         case Decoded(hash, doc) =>
           if doc.format != FORMAT_NAME || doc.version > FORMAT_VERSION then Candidate(prefix, None, hash, Unsupported)
           else if !Named(doc) then Candidate(prefix, None, hash, Corrupt)
           else Candidate(prefix, Some(doc), hash, ContentStatus(repo, prefix, doc))
  }

  /** The manifest at the prefix was published and can be read. */
  predicate Published(repo: Repository, prefix: string) {
    prefix in repo.runs && repo.runs[prefix].Decoded? && Readable(repo.runs[prefix].manifest)
  }

  /** Loads one candidate: what it becomes, in terms of the repository alone. */
  method LoadCandidate(repo: Repository, prefix: string) returns (c: Candidate)
    ensures c == Load(repo, prefix)
    ensures c.doc.Some? <==> Published(repo, prefix)
    ensures c.doc.Some? ==> repo.runs[prefix] == Decoded(c.hash, c.doc.value)
    ensures c.status.Importable? <==> Published(repo, prefix) && Intact(repo, prefix, repo.runs[prefix].manifest)
    ensures c.status.MissingObject? ==> c.doc.Some? && exists k :: k in RequiredKeys(c.doc.value) && k !in repo.listed
    ensures prefix !in repo.runs <==> c.status.Incomplete?
    ensures !c.status.Known? && !c.status.AdditionalCopy? && !c.status.Conflict? && !c.status.MissingParent?
  {
    c := Candidate(prefix, None, "", Incomplete);
    if prefix !in repo.runs { return; }
    match repo.runs[prefix] {
      case Unreadable => return c.(status := Corrupt);
      case Garbled(hash) => return c.(hash := hash, status := Corrupt);
      case Decoded(hash, doc) =>
        c := c.(hash := hash);
        if doc.format != FORMAT_NAME || doc.version > FORMAT_VERSION { return c.(status := Unsupported); }
        if !Named(doc) { return c.(status := Corrupt); }
        var status := CheckObjects(repo, prefix, RequiredKeys(doc));
        if status.Importable? {
          var disks := CheckItems(repo, doc.runId, doc.disks);
          var artifacts := CheckItems(repo, doc.runId, doc.artifacts);
          if !disks || !artifacts { status := Corrupt; }
        } else if status.MissingObject? {
          MissingIsListed(repo, prefix, RequiredKeys(doc));
        }
        return c.(doc := Some(doc), status := status);
    }
  }

  lemma {:induction false} InOrderExactlyWhen(repo: Repository, prefix: string, keys: seq<string>)
    ensures CheckKeys(repo, prefix, keys).Importable? <==> forall k :: k in keys ==> InRun(prefix, k) && k in repo.listed
  {
    if keys != [] {
      var init, last := keys[..|keys| - 1], keys[|keys| - 1];
      InOrderExactlyWhen(repo, prefix, init);
      assert keys == init + [last];
    }
  }

  /** When a candidate is in order by itself, and when it has a manifest. */
  lemma LoadedExactlyWhen(repo: Repository, prefix: string)
    ensures var c := Load(repo, prefix);
            && c.prefix == prefix
            && (c.doc.Some? <==> Published(repo, prefix))
            && (c.doc.Some? ==> repo.runs[prefix] == Decoded(c.hash, c.doc.value))
            && (c.status.Importable? <==> Published(repo, prefix) && Intact(repo, prefix, repo.runs[prefix].manifest))
            && !c.status.AdditionalCopy? && !c.status.Conflict?
  {
    if Published(repo, prefix) {
      InOrderExactlyWhen(repo, prefix, RequiredKeys(repo.runs[prefix].manifest));
    }
  }

  lemma {:induction false} MissingIsListed(repo: Repository, prefix: string, keys: seq<string>)
    requires CheckKeys(repo, prefix, keys).MissingObject?
    ensures exists k :: k in keys && k !in repo.listed
  {
    var init := keys[..|keys| - 1];
    if CheckKeys(repo, prefix, init).MissingObject? {
      MissingIsListed(repo, prefix, init);
    }
  }

  // --- The same in terms of what the manifest lists -----------------------------------------------------------

  predicate Inside(repo: Repository, prefix: string, key: string) { InRun(prefix, key) && key in repo.listed }

  lemma {:induction false} ItemKeysAre(items: seq<Item>, k: string)
    ensures k in ItemKeys(items) <==> exists i :: 0 <= i < |items| && (k == items[i].manifestKey || k == items[i].dataKey)
  {
    if items != [] {
      var init, last := items[..|items| - 1], items[|items| - 1];
      ItemKeysAre(init, k);
      assert items == init + [last];
      if i :| 0 <= i < |init| && (k == init[i].manifestKey || k == init[i].dataKey) { assert items[i] == init[i]; }
    }
  }

  /** Both objects of the item are in the run and there, its manifest names run, disk and data, and every recorded hash agrees. */
  predicate ItemIntact(repo: Repository, prefix: string, runId: string, item: Item) {
    && Inside(repo, prefix, item.manifestKey) && Inside(repo, prefix, item.dataKey) && item.manifestKey in repo.manifests
    && var m := repo.manifests[item.manifestKey];
    && m.runId == runId && m.diskId == item.diskId && m.dataKey == item.dataKey
    && (item.kind == None || item.kind == Some(m.kind))
    && (item.dataHash == "" || ((m.dataHash == "" || m.dataHash == item.dataHash)
                                && item.dataKey in repo.hashes && repo.hashes[item.dataKey] == item.dataHash))
  }

  /** A manifest is intact exactly when its configuration, if any, is there, and every disk and artifact is intact. */
  lemma IntactExactlyWhen(repo: Repository, prefix: string, doc: RunManifest)
    ensures Intact(repo, prefix, doc) <==>
            && (doc.configKey == "" || Inside(repo, prefix, doc.configKey))
            && (forall i :: 0 <= i < |doc.disks| ==> ItemIntact(repo, prefix, doc.runId, doc.disks[i]))
            && (forall i :: 0 <= i < |doc.artifacts| ==> ItemIntact(repo, prefix, doc.runId, doc.artifacts[i]))
  {
    KeysInside(repo, prefix, doc);
    assert forall item :: ItemIntact(repo, prefix, doc.runId, item) <==>
             ItemMatches(repo, doc.runId, item) && Inside(repo, prefix, item.manifestKey) && Inside(repo, prefix, item.dataKey);
  }

  predicate ItemInside(repo: Repository, prefix: string, item: Item) {
    Inside(repo, prefix, item.manifestKey) && Inside(repo, prefix, item.dataKey)
  }

  lemma ItemsInside(repo: Repository, prefix: string, items: seq<Item>)
    ensures (forall k :: k in ItemKeys(items) ==> Inside(repo, prefix, k)) <==>
            forall i :: 0 <= i < |items| ==> ItemInside(repo, prefix, items[i])
  {
    forall k
      ensures k in ItemKeys(items) <==> exists i :: 0 <= i < |items| && (k == items[i].manifestKey || k == items[i].dataKey)
    {
      ItemKeysAre(items, k);
    }
    if forall k :: k in ItemKeys(items) ==> Inside(repo, prefix, k) {
      forall i | 0 <= i < |items|
        ensures ItemInside(repo, prefix, items[i])
      {
        assert items[i].manifestKey in ItemKeys(items) && items[i].dataKey in ItemKeys(items);
      }
    }
  }

  lemma KeysInside(repo: Repository, prefix: string, doc: RunManifest)
    ensures (forall k :: k in RequiredKeys(doc) ==> InRun(prefix, k) && k in repo.listed) <==>
            && (doc.configKey == "" || Inside(repo, prefix, doc.configKey))
            && (forall i :: 0 <= i < |doc.disks| ==> ItemInside(repo, prefix, doc.disks[i]))
            && (forall i :: 0 <= i < |doc.artifacts| ==> ItemInside(repo, prefix, doc.artifacts[i]))
  {
    ItemsInside(repo, prefix, doc.disks);
    ItemsInside(repo, prefix, doc.artifacts);
    var config := if doc.configKey != "" then [doc.configKey] else [];
    assert doc.configKey != "" ==> doc.configKey in RequiredKeys(doc);
    assert forall k :: k in RequiredKeys(doc) <==> k in config || k in ItemKeys(doc.disks) || k in ItemKeys(doc.artifacts);
    assert (forall k :: k in RequiredKeys(doc) ==> Inside(repo, prefix, k)) <==>
           forall k :: k in RequiredKeys(doc) ==> InRun(prefix, k) && k in repo.listed;
  }

  /** The first key out of order is inside the run, and not there. */
  ghost predicate FirstMissing(repo: Repository, prefix: string, keys: seq<string>) {
    exists n :: 0 <= n < |keys| && InRun(prefix, keys[n]) && keys[n] !in repo.listed && forall m :: 0 <= m < n ==> Inside(repo, prefix, keys[m])
  }

  lemma {:induction false} MissingExactlyWhen(repo: Repository, prefix: string, keys: seq<string>)
    ensures CheckKeys(repo, prefix, keys).MissingObject? <==> FirstMissing(repo, prefix, keys)
    ensures CheckKeys(repo, prefix, keys).Importable? <==> forall m :: 0 <= m < |keys| ==> Inside(repo, prefix, keys[m])
  {
    if keys != [] {
      var init, last := keys[..|keys| - 1], |keys| - 1;
      MissingExactlyWhen(repo, prefix, init);
      assert forall m :: 0 <= m < last ==> keys[m] == init[m];
      if n :| 0 <= n < |init| && InRun(prefix, init[n]) && init[n] !in repo.listed && forall m :: 0 <= m < n ==> Inside(repo, prefix, init[m]) {
        assert InRun(prefix, keys[n]) && keys[n] !in repo.listed;
      }
    }
  }

  /** When each status is given to what is found at a prefix. */
  lemma LoadStatusExactlyWhen(repo: Repository, prefix: string)
    ensures var status := Load(repo, prefix).status;
            && (status.Incomplete? <==> prefix !in repo.runs)
            && (status.Unsupported? <==> prefix in repo.runs && repo.runs[prefix].Decoded?
                                         && (repo.runs[prefix].manifest.format != "jhvirt-disk" || repo.runs[prefix].manifest.version > 1))
            && (status.Importable? <==> Published(repo, prefix) && Intact(repo, prefix, repo.runs[prefix].manifest))
            && (status.MissingObject? <==> Published(repo, prefix) && FirstMissing(repo, prefix, RequiredKeys(repo.runs[prefix].manifest)))
            && (status.Incomplete? || status.Unsupported? || status.Importable? || status.MissingObject? || status.Corrupt?)
  {
    LoadedExactlyWhen(repo, prefix);
    if Published(repo, prefix) { MissingExactlyWhen(repo, prefix, RequiredKeys(repo.runs[prefix].manifest)); }
  }
}
