/** The manifest writer and loader as they run against object storage. */
module ManifestStore {
  import opened Bytes
  import opened Grouping
  import opened ManifestShards
  import opened ManifestLayout
  import opened ManifestProtocol
  import opened ManifestSafety
  import Terms

  class ObjectStore {
    var root: Option<Manifest>
    var shards: map<string, Shard>

    constructor ()
      ensures root.None? && shards == map[]
    {
      root, shards := None, map[];
    }

    /** The root's shards are stored under their names with the content it refers to. */
    ghost predicate Whole(hash: ContentHash)
      reads this
    {
      root.Some? ==> forall r | r in root.value.shards :: r.path in shards && hash(shards[r.path]) == r.hash
    }

    /** Publishes one shard under its content name: nothing to do if it is there, an error if something else is. */
    method PutImmutable(path: string, shard: Shard) returns (ok: bool)
      modifies this`shards
      ensures ok <==> path !in old(shards) || old(shards)[path] == shard
      ensures shards == if ok then old(shards)[path := shard] else old(shards)
    {
      if path in shards {
        ok := shards[path] == shard;
        if ok {
          shards := shards[path := shard];
        }
        return;
      }
      shards := shards[path := shard];
      ok := true;
    }
  }

  ghost predicate Extends(before: map<string, Shard>, after: map<string, Shard>) {
    forall p | p in before :: p in after && after[p] == before[p]
  }

  /** No object has a shard's name and other content. */
  ghost predicate NoClash(shards: map<string, Shard>, e: Export) {
    forall i | 0 <= i < |e.shards| && e.shards[i].0 in shards :: shards[e.shards[i].0] == e.shards[i].1
  }

  /** Only the first `n` shards of the export were added. */
  ghost predicate Added(before: map<string, Shard>, after: map<string, Shard>, e: Export, n: nat)
    requires n <= |e.shards|
  {
    forall p | p in after && p !in before :: exists j | 0 <= j < n :: e.shards[j].0 == p
  }

  lemma {:induction false} NothingAdded(shards: map<string, Shard>, e: Export)
    ensures Added(shards, shards, e, 0)
  {
  }

  lemma {:induction false} AddedMore(was: map<string, Shard>, before: map<string, Shard>, after: map<string, Shard>,
                                     e: Export, i: nat, n: nat)
    requires i <= n <= |e.shards| && Added(was, before, e, i)
    requires after.Keys == before.Keys || (i < n && after.Keys == before.Keys + {e.shards[i].0})
    ensures Added(was, after, e, n)
  {
  }

  /** A shard that cannot be put clashes with an object that was there before the write. */
  lemma {:induction false} ClashWasThere(hash: ContentHash, e: Export, i: nat, before: map<string, Shard>,
                                         after: map<string, Shard>)
    requires Split(hash, e) && i < |e.shards| && Extends(before, after) && Added(before, after, e, i)
    requires e.shards[i].0 in after && after[e.shards[i].0] != e.shards[i].1
    ensures !NoClash(before, e)
  {
    hide Split;
    if e.shards[i].0 !in before {
      var j :| 0 <= j < i && e.shards[j].0 == e.shards[i].0;
      NamesDistinct(hash, e, j, i);
    }
  }

  /** Puts the export's shards that the previous root does not refer to. Nothing stored is changed. */
  method PutShards(store: ObjectStore, hash: ContentHash, e: Export, previous: seq<ShardRef>) returns (ok: bool)
    requires Injective(hash) && Split(hash, e) && store.Whole(hash) && previous == PreviousRefs(store.root, e.root)
    modifies store`shards
    ensures Extends(old(store.shards), store.shards)
    ensures ok ==> Stored(store.shards, e, |e.shards|)
    ensures ok <==> NoClash(old(store.shards), e)
    ensures Added(old(store.shards), store.shards, e, |e.shards|)
  {
    hide Split, Added, AlreadyPublished, PreviousRefs;
    SplitSizes(hash, e);
    NothingAdded(store.shards, e);
    for i := 0 to |e.shards|
      invariant Extends(old(store.shards), store.shards) && Stored(store.shards, e, i)
      invariant Added(old(store.shards), store.shards, e, i)
    {
      ghost var before := store.shards;
      SplitRefs(hash, e, i);
      var r := e.root.shards[i];
      if AlreadyPublished(previous, r) {
        Kept(store.root, old(store.shards), hash, previous, e.root, r);
      } else {
        ok := store.PutImmutable(e.shards[i].0, e.shards[i].1);
        if !ok {
          ClashWasThere(hash, e, i, old(store.shards), store.shards);
          AddedMore(old(store.shards), store.shards, store.shards, e, i, |e.shards|);
          return;
        }
      }
      AddedMore(old(store.shards), before, store.shards, e, i, i + 1);
    }
    ok := true;
  }

  /** The shards of an export have different names. */
  lemma {:induction false} NamesDistinct(hash: ContentHash, e: Export, i: nat, j: nat)
    requires Split(hash, e) && i < j < |e.shards|
    ensures e.shards[i].0 != e.shards[j].0
  {
    hide Grouped, ShardPath, ParseFolderName, ShardRange, ValidatedFolder;
    var m :| IsSplit(hash, m, e);
    var keys, groups :| Grouped(m.segments, FolderKey, Terms.TextLess, keys, groups)
                        && |e.shards| == |e.root.shards| == |keys|
                        && forall i | 0 <= i < |keys| :: ShardFor(hash, m, keys, groups, e.root.shards, e.shards, i);
    assert ShardFor(hash, m, keys, groups, e.root.shards, e.shards, i);
    assert ShardFor(hash, m, keys, groups, e.root.shards, e.shards, j);
    var a, b := e.root.shards[i], e.root.shards[j];
    if e.shards[i].0 == e.shards[j].0 {
      ShardPathsDistinct(ParseFolderName(a.folder).value, a.hash, ParseFolderName(b.folder).value, b.hash, a.folder,
                         b.folder);
      KeysDiffer(m.segments, keys, groups, i, j);
    }
  }

  lemma {:induction false} KeysDiffer(segments: seq<Segment>, keys: seq<string>, groups: map<string, seq<Segment>>,
                                      i: nat, j: nat)
    requires Grouped(segments, FolderKey, Terms.TextLess, keys, groups) && i < j < |keys|
    ensures keys[i] != keys[j]
  {
    hide FolderKey, Terms.TextLess;
    TextOrderIsStrict();
  }

  lemma {:induction false} Kept(root: Option<Manifest>, shards: map<string, Shard>, hash: ContentHash,
                                previous: seq<ShardRef>, next: Manifest, r: ShardRef)
    requires root.Some? ==> forall r | r in root.value.shards :: r.path in shards && hash(shards[r.path]) == r.hash
    requires previous == PreviousRefs(root, next) && AlreadyPublished(previous, r)
    ensures r.path in shards && hash(shards[r.path]) == r.hash
  {
    var i :| 0 <= i < |previous| && previous[i].path == r.path && previous[i].hash == r.hash;
    assert previous[i] in previous;
  }

  /** Deletes the shards of the listed folders that the root does not refer to, and nothing else. */
  method RemoveUnreferenced(store: ObjectStore, root: Manifest, folders: set<string>)
    modifies store`shards
    ensures forall p :: p in store.shards <==> p in old(store.shards) && !Obsolete(root, folders, p)
    ensures forall p | p in store.shards :: store.shards[p] == old(store.shards)[p]
  {
    hide Obsolete;
    var listed := store.shards.Keys;
    while listed != {}
      invariant listed <= store.shards.Keys <= old(store.shards).Keys
      invariant forall p | p in old(store.shards) && p !in listed :: p in store.shards <==> !Obsolete(root, folders, p)
      invariant forall p | p in store.shards :: store.shards[p] == old(store.shards)[p]
      decreases listed
    {
      var p :| p in listed;
      if Obsolete(root, folders, p) {
        store.shards := store.shards - {p};
      }
      listed := listed - {p};
    }
  }

  /** Splits and publishes a manifest: shards first, then the root, then cleanup. A failed write leaves the published
      root and everything it refers to as they were. */
  method WriteManifest(store: ObjectStore, hash: ContentHash, m: Manifest) returns (ok: bool)
    requires Injective(hash) && store.Whole(hash)
    modifies store
    ensures store.Whole(hash)
    ensures ok ==> Splittable(m) && Publishes(hash, m, store.root, store.shards)
    ensures !ok ==> store.root == old(store.root) && Extends(old(store.shards), store.shards)
    ensures ok <==> Splittable(m) && forall e | IsSplit(hash, m, e) :: NoClash(old(store.shards), e)
    ensures ok ==> store.root.Some? && Swept(store.root.value, store.root.value.shards, store.shards)
    ensures ok ==> Swept(store.root.value, PreviousShards(old(store.root), m), store.shards)
    ensures ok ==> forall p | p in old(store.shards) && p !in store.shards ::
              UnderShard(store.root.value.shards, p) || UnderShard(PreviousShards(old(store.root), m), p)
  {
    hide IsSplit, Splittable, Stored, PreviousRefs, PreviousShards, Obsolete, Injective, NoClash, Swept, UnderShard,
         Folders;
    var split := SplitManifest(hash, m);
    if split.Err? {
      return false;
    }
    var e := split.value;
    assert Split(hash, e);
    SameExport(hash, m, e, store.shards);
    var previous := PreviousRefs(store.root, e.root);
    ok := PutShards(store, hash, e, previous);
    if !ok {
      return;
    }
    ghost var stored := store.shards;
    store.root := Some(e.root);
    var folders := Folders(e.root, previous);
    RemoveUnreferenced(store, e.root, folders);
    StillStored(hash, e, folders, stored, store.shards);
    SweptUp(m, e.root, old(store.root), stored, store.shards);
    assert Publishes(hash, m, store.root, store.shards);
  }

  lemma {:induction false} SameExport(hash: ContentHash, m: Manifest, e: Export, shards: map<string, Shard>)
    requires IsSplit(hash, m, e)
    ensures e.root.table == m.table && e.root.namespace == m.namespace
    ensures forall e' | IsSplit(hash, m, e') :: NoClash(shards, e') <==> NoClash(shards, e)
  {
    forall e' | IsSplit(hash, m, e') ensures NoClash(shards, e') <==> NoClash(shards, e) {
      hide IsSplit;
      SplitUnique(hash, m, e, e');
    }
  }

  /** The shards of the root that a manifest of the same table, in the same layout, replaces. */
  ghost function PreviousShards(root: Option<Manifest>, m: Manifest): seq<ShardRef> {
    if root.Some? && root.value.version == 2 && root.value.segments == [] && root.value.table == m.table
       && root.value.namespace == m.namespace
    then root.value.shards else []
  }

  ghost predicate UnderShard(refs: seq<ShardRef>, path: string) {
    exists r | r in refs :: r.folder + "/" <= path
  }

  /** Nothing is stored under a folder of these shards but what the root refers to. */
  ghost predicate Swept(root: Manifest, refs: seq<ShardRef>, shards: map<string, Shard>) {
    forall p, r | p in shards && r in refs && ParseFolderName(r.folder).Some? && r.folder + "/" <= p ::
      exists x | x in root.shards :: x.path == p
  }

  lemma {:induction false} SweptUp(m: Manifest, root: Manifest, previous: Option<Manifest>, before: map<string, Shard>,
                                   after: map<string, Shard>)
    requires root.table == m.table && root.namespace == m.namespace
    requires forall p :: p in after <==>
               p in before && !Obsolete(root, Folders(root, PreviousRefs(previous, root)), p)
    ensures PreviousRefs(previous, root) == PreviousShards(previous, m)
    ensures Swept(root, root.shards, after) && Swept(root, PreviousShards(previous, m), after)
    ensures forall p | p in before && p !in after ::
              UnderShard(root.shards, p) || UnderShard(PreviousShards(previous, m), p)
  {
    hide ParseFolderName;
    var refs := PreviousRefs(previous, root);
    forall p, r | p in after && (r in root.shards || r in refs) && ParseFolderName(r.folder).Some?
                  && r.folder + "/" <= p
      ensures exists x | x in root.shards :: x.path == p
    {
      assert r in root.shards + refs && r.folder in Folders(root, refs) && InFolder(p, r.folder);
    }
    forall p | p in before && p !in after ensures UnderShard(root.shards, p) || UnderShard(refs, p) {
      var f :| f in Folders(root, refs) && InFolder(p, f);
      var r :| r in root.shards + refs && r.folder == f;
      assert r in root.shards || r in refs;
    }
  }

  /** The stored root is that of an export of the manifest whose shards are all stored. */
  ghost predicate Publishes(hash: ContentHash, m: Manifest, root: Option<Manifest>, shards: map<string, Shard>) {
    exists e :: IsSplit(hash, m, e) && root == Some(e.root) && Stored(shards, e, |e.shards|)
  }

  lemma {:induction false} StillStored(hash: ContentHash, e: Export, folders: set<string>, before: map<string, Shard>,
                                       after: map<string, Shard>)
    requires Split(hash, e) && Stored(before, e, |e.shards|)
    requires forall p :: p in after <==> p in before && !Obsolete(e.root, folders, p)
    requires forall p | p in after :: after[p] == before[p]
    ensures Stored(after, e, |e.shards|)
    ensures forall r | r in e.root.shards :: r.path in after && hash(after[r.path]) == r.hash
  {
    hide Split, InFolder;
    SplitSizes(hash, e);
    forall i | 0 <= i < |e.shards| ensures e.shards[i].0 in after && e.root.shards[i].path == e.shards[i].0
                                           && e.root.shards[i].hash == hash(e.shards[i].1)
    {
      SplitRefs(hash, e, i);
      assert e.root.shards[i] in e.root.shards;
    }
  }

  /** Reads the shards a root refers to, checking each against its checksum. */
  method LoadShards(store: ObjectStore, hash: ContentHash, root: Manifest) returns (r: Option<seq<Shard>>)
    ensures r.Some? ==> |r.value| == |root.shards|
                        && forall i | 0 <= i < |root.shards| ::
                             root.shards[i].path in store.shards && r.value[i] == store.shards[root.shards[i].path]
                             && hash(r.value[i]) == root.shards[i].hash
    ensures r.None? ==> exists x | x in root.shards :: x.path !in store.shards || hash(store.shards[x.path]) != x.hash
  {
    var loaded: seq<Shard> := [];
    for i := 0 to |root.shards|
      invariant |loaded| == i
      invariant forall j | 0 <= j < i ::
                  root.shards[j].path in store.shards && loaded[j] == store.shards[root.shards[j].path]
                                         && hash(loaded[j]) == root.shards[j].hash
    {
      var x := root.shards[i];
      assert x in root.shards;
      if x.path !in store.shards || hash(store.shards[x.path]) != x.hash {
        return None;
      }
      loaded := loaded + [store.shards[x.path]];
    }
    r := Some(loaded);
  }

  ghost predicate Present(root: Manifest, shards: map<string, Shard>) {
    forall x | x in root.shards :: x.path in shards
  }

  ghost function ShardsOf(root: Manifest, shards: map<string, Shard>): seq<Shard>
    requires Present(root, shards)
  {
    seq(|root.shards|, i requires 0 <= i < |root.shards| => assert root.shards[i] in root.shards;
                                                            shards[root.shards[i].path])
  }

  /** The root's shards are there with matching checksums, and agree with the root. */
  ghost predicate Readable(hash: ContentHash, root: Manifest, shards: map<string, Shard>) {
    && Present(root, shards) && (forall x | x in root.shards :: hash(shards[x.path]) == x.hash)
    && Mergeable(root, ShardsOf(root, shards))
  }

  /** Loads the manifest, starting over from a fresh root once. Undisturbed after a write, it returns that manifest
      with its segments regrouped by folder. */
  method LoadManifest(store: ObjectStore, hash: ContentHash) returns (r: Result<Option<Manifest>>)
    ensures store.root.None? ==> r == Ok(None)
    ensures store.root.Some? ==>
              if Readable(hash, store.root.value, store.shards)
              then r == Ok(Some(store.root.value.(segments := AllSegments(ShardsOf(store.root.value, store.shards)))))
              else r.Err?
    ensures forall m | Injective(hash) && Publishes(hash, m, store.root, store.shards) ::
              r.Ok? && r.value.Some? && IsRegrouped(m, r.value.value)
  {
    hide IsRegrouped, Mergeable, Publishes, Injective, Readable, Present;
    for attempt := 0 to 2
      invariant attempt > 0 ==> forall m :: !(Injective(hash) && Publishes(hash, m, store.root, store.shards))
      invariant attempt > 0 ==> store.root.Some? && !Readable(hash, store.root.value, store.shards)
    {
      if store.root.None? {
        PublishesRoot(hash, store.root, store.shards);
        return Ok(None);
      }
      var shards := LoadShards(store, hash, store.root.value);
      if shards.Some? {
        var merged := MergeManifestShards(store.root.value, shards.value);
        LoadedIsReadable(hash, store.root.value, store.shards, shards.value);
        LoadedIsPublished(hash, store.root.value, store.shards, shards.value);
        if merged.Ok? {
          return Ok(Some(merged.value));
        }
      } else {
        MissingMeansUnpublished(hash, store.root.value, store.shards);
        MissingMeansUnreadable(hash, store.root.value, store.shards);
      }
    }
    r := Err("manifest load failed after root refresh");
  }

  lemma {:induction false} LoadedIsReadable(hash: ContentHash, root: Manifest, shards: map<string, Shard>,
                                            loaded: seq<Shard>)
    requires |loaded| == |root.shards|
    requires forall i | 0 <= i < |root.shards| ::
               root.shards[i].path in shards && loaded[i] == shards[root.shards[i].path]
                                                  && hash(loaded[i]) == root.shards[i].hash
    ensures Present(root, shards) && loaded == ShardsOf(root, shards)
    ensures Readable(hash, root, shards) <==> Mergeable(root, loaded)
  {
    hide Mergeable;
    assert loaded == ShardsOf(root, shards);
  }

  lemma {:induction false} MissingMeansUnreadable(hash: ContentHash, root: Manifest, shards: map<string, Shard>)
    requires exists x | x in root.shards :: x.path !in shards || hash(shards[x.path]) != x.hash
    ensures !Readable(hash, root, shards)
  {
    hide Mergeable;
  }

  lemma {:induction false} PublishesRoot(hash: ContentHash, root: Option<Manifest>, shards: map<string, Shard>)
    ensures forall m | Publishes(hash, m, root, shards) :: root.Some?
  {
    hide IsSplit, Stored;
  }

  lemma {:induction false} LoadedIsPublished(hash: ContentHash, root: Manifest, shards: map<string, Shard>,
                                             loaded: seq<Shard>)
    requires |loaded| == |root.shards|
    requires forall i | 0 <= i < |root.shards| ::
               root.shards[i].path in shards && loaded[i] == shards[root.shards[i].path]
                                                  && hash(loaded[i]) == root.shards[i].hash
    ensures forall m | Injective(hash) && Publishes(hash, m, Some(root), shards) ::
              Mergeable(root, loaded) && IsRegrouped(m, root.(segments := AllSegments(loaded)))
  {
    hide IsSplit, Mergeable, IsRegrouped;
    forall m | Injective(hash) && Publishes(hash, m, Some(root), shards)
      ensures Mergeable(root, loaded) && IsRegrouped(m, root.(segments := AllSegments(loaded)))
    {
      var e :| IsSplit(hash, m, e) && root == e.root && Stored(shards, e, |e.shards|);
      assert Split(hash, e);
      SplitSizes(hash, e);
      forall i | 0 <= i < |loaded| ensures loaded[i] == Documents(e.shards)[i] {
        SplitRefs(hash, e, i);
      }
      assert loaded == Documents(e.shards);
      SplitMerges(hash, e);
      Regrouped(hash, m, e);
    }
  }

  lemma {:induction false} MissingMeansUnpublished(hash: ContentHash, root: Manifest, shards: map<string, Shard>)
    requires exists x | x in root.shards :: x.path !in shards || hash(shards[x.path]) != x.hash
    ensures forall m :: !Publishes(hash, m, Some(root), shards)
  {
    hide IsSplit;
    forall m ensures !Publishes(hash, m, Some(root), shards) {
      if e :| IsSplit(hash, m, e) && root == e.root && Stored(shards, e, |e.shards|) {
        assert Split(hash, e);
        SplitSizes(hash, e);
        var x :| x in root.shards && (x.path !in shards || hash(shards[x.path]) != x.hash);
        var i :| 0 <= i < |root.shards| && root.shards[i] == x;
        SplitRefs(hash, e, i);
      }
    }
  }
}
