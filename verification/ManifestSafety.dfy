/** Every run of the manifest protocol keeps the published root whole, and loads return published manifests. */
module ManifestSafety {
  import opened Grouping
  import opened ManifestShards
  import opened ManifestProtocol
  import Terms

  lemma {:induction false} BeginWriteKeeps(hash: ContentHash, s: State, m: Manifest, e: Export)
    requires Inv(hash, s) && Enabled(hash, s, BeginWrite(m, e))
    ensures Inv(hash, Do(hash, s, BeginWrite(m, e)))
  {
    hide IsSplit;
    assert Split(hash, e);
  }

  // ---- Putting shards ----

  lemma {:induction false} PreviousIsReferenced(s: State, next: Manifest, r: ShardRef)
    requires r in PreviousRefs(s.root, next)
    ensures s.root.Some? && r in s.root.value.shards
  {
  }

  /** A shard that is skipped because the previous root refers to it is in storage already. */
  lemma {:induction false} SkippedIsStored(hash: ContentHash, s: State)
    requires Injective(hash) && Inv(hash, s) && Enabled(hash, s, PutShard)
    requires AlreadyPublished(s.writer.previous, s.writer.upload.root.shards[s.writer.next])
    ensures var entry := s.writer.upload.shards[s.writer.next]; entry.0 in s.shards && s.shards[entry.0] == entry.1
  {
    hide Split;
    var e, n := s.writer.upload, s.writer.next;
    var i :| 0 <= i < |s.writer.previous| && s.writer.previous[i].path == e.root.shards[n].path
             && s.writer.previous[i].hash == e.root.shards[n].hash;
    PreviousIsReferenced(s, e.root, s.writer.previous[i]);
    ReferencedIsStored(hash, s, s.writer.previous[i]);
    SplitRefs(hash, e, n);
  }

  lemma {:induction false} StoredMore(shards: map<string, Shard>, e: Export, n: nat, path: string, shard: Shard)
    requires n <= |e.shards| && Stored(shards, e, n) && path !in shards
    ensures Stored(shards[path := shard], e, n)
  {
  }

  lemma {:induction false} PutShardKeeps(hash: ContentHash, s: State)
    requires Injective(hash) && Inv(hash, s) && Enabled(hash, s, PutShard)
    ensures Inv(hash, Do(hash, s, PutShard))
  {
    hide Split, ReaderHolds, PreviousRefs, AlreadyPublished, Injective;
    var e, n := s.writer.upload, s.writer.next;
    var entry := e.shards[n];
    if AlreadyPublished(s.writer.previous, e.root.shards[n]) {
      SkippedIsStored(hash, s);
    } else if entry.0 !in s.shards {
      StoredMore(s.shards, e, n, entry.0, entry.1);
      if s.published != [] {
        var last := s.published[|s.published| - 1];
        StoredMore(s.shards, last, |last.shards|, entry.0, entry.1);
      }
    }
    SameReader(s, Do(hash, s, PutShard));
  }

  lemma {:induction false} SameReader(s: State, s': State)
    requires ReaderHolds(s) && s'.reader == s.reader && s'.root == s.root && s'.published == s.published
    ensures ReaderHolds(s')
  {
  }

  // ---- Putting the root ----

  lemma {:induction false} PutRootKeeps(hash: ContentHash, s: State)
    requires Inv(hash, s) && Enabled(hash, s, PutRoot)
    ensures Inv(hash, Do(hash, s, PutRoot))
  {
    hide Split, Folders, LoadsExport;
    var s', e := Do(hash, s, PutRoot), s.writer.upload;
    assert forall x | x in s'.published :: x in s.published || x == e;
    assert forall x | x in s.published :: x in s'.published;
    if s.reader.Loaded? && s.reader.result.Some? {
      var x :| x in s.published && s.reader.result.value == x.root.(segments := AllSegments(Documents(x.shards)));
      assert x in s'.published;
    }
  }

  // ---- Removing obsolete shards ----

  lemma {:induction false} DeleteShardKeeps(hash: ContentHash, s: State, path: string)
    requires Inv(hash, s) && Enabled(hash, s, DeleteShard(path))
    ensures Inv(hash, Do(hash, s, DeleteShard(path)))
  {
    hide Split, ReaderHolds, InFolder;
    var s' := Do(hash, s, DeleteShard(path));
    var e := s.published[|s.published| - 1];
    assert e in s.published;
    SplitSizes(hash, e);
    forall i | 0 <= i < |e.shards| ensures e.shards[i].0 != path {
      SplitRefs(hash, e, i);
      assert e.root.shards[i] in e.root.shards;
    }
    SameReader(s, s');
  }

  // ---- Loading ----

  lemma {:induction false} StartLoadKeeps(hash: ContentHash, s: State)
    requires Inv(hash, s) && Enabled(hash, s, StartLoad)
    ensures Inv(hash, Do(hash, s, StartLoad))
  {
    hide Split;
    if s.root.Some? {
      FreshLoad(hash, s);
    }
  }

  lemma {:induction false} FreshLoad(hash: ContentHash, s: State)
    requires RootHolds(hash, s) && s.root.Some?
    ensures exists e | e in s.published :: LoadsExport(e, s.root.value, [])
  {
    var e := s.published[|s.published| - 1];
    assert e in s.published && LoadsExport(e, s.root.value, []);
  }

  /** While no root was put since the load read its root, the next shard is there. */
  lemma {:induction false} UndisturbedShardLoads(hash: ContentHash, s: State)
    requires Inv(hash, s) && Enabled(hash, s, LoadShard) && s.reader.puts == 0
    ensures var r := s.reader.root.shards[|s.reader.loaded|]; r.path in s.shards && hash(s.shards[r.path]) == r.hash
  {
    hide RootHolds, LoadsExport;
    ReferencedIsStored(hash, s, s.reader.root.shards[|s.reader.loaded|]);
  }

  lemma {:induction false} RetryHolds(hash: ContentHash, s: State)
    requires Inv(hash, s) && s.reader.Loading? && s.reader.puts > 0
    ensures Inv(hash, s.(reader := AfterFailure(s)))
  {
    hide Split, LoadsExport, Stored;
    if s.root.Some? {
      FreshLoad(hash, s);
    }
  }

  lemma {:induction false} ShardLoaded(hash: ContentHash, s: State, e: Export)
    requires Injective(hash) && Split(hash, e) && s.reader.Loading? && LoadsExport(e, s.reader.root, s.reader.loaded)
    requires |s.reader.loaded| < |s.reader.root.shards|
    requires var r := s.reader.root.shards[|s.reader.loaded|]; r.path in s.shards && hash(s.shards[r.path]) == r.hash
    ensures var r := s.reader.root.shards[|s.reader.loaded|];
            LoadsExport(e, s.reader.root, s.reader.loaded + [s.shards[r.path]])
  {
    hide Split;
    var n := |s.reader.loaded|;
    SplitSizes(hash, e);
    SplitRefs(hash, e, n);
    assert Documents(e.shards)[..n + 1] == Documents(e.shards)[..n] + [e.shards[n].1];
  }

  lemma {:induction false} LoadShardKeeps(hash: ContentHash, s: State)
    requires Injective(hash) && Inv(hash, s) && Enabled(hash, s, LoadShard)
    ensures Inv(hash, Do(hash, s, LoadShard))
  {
    hide Split, LoadsExport, Injective, Stored, WriterHolds;
    var r := s.reader.root.shards[|s.reader.loaded|];
    if r.path in s.shards && hash(s.shards[r.path]) == r.hash {
      var e :| e in s.published && LoadsExport(e, s.reader.root, s.reader.loaded);
      ShardLoaded(hash, s, e);
    } else {
      assert s.reader.puts > 0 by {
        if s.reader.puts == 0 {
          UndisturbedShardLoads(hash, s);
        }
      }
      RetryHolds(hash, s);
    }
    SameWriter(hash, s, Do(hash, s, LoadShard));
  }

  lemma {:induction false} SameWriter(hash: ContentHash, s: State, s': State)
    requires WriterHolds(hash, s) && s'.writer == s.writer && s'.root == s.root && s'.shards == s.shards
    ensures WriterHolds(hash, s')
  {
  }

  /** Once all shards are read, the merge succeeds and gives a published manifest. */
  lemma {:induction false} FinishLoadKeeps(hash: ContentHash, s: State)
    requires Inv(hash, s) && Enabled(hash, s, FinishLoad)
    ensures Inv(hash, Do(hash, s, FinishLoad)) && Do(hash, s, FinishLoad).reader.Loaded?
  {
    hide Split, Mergeable, Stored;
    var e :| e in s.published && LoadsExport(e, s.reader.root, s.reader.loaded);
    SplitSizes(hash, e);
    SplitMerges(hash, e);
    assert s.reader.loaded == Documents(e.shards);
    SameWriter(hash, s, Do(hash, s, FinishLoad));
  }

  // ---- Runs ----

  lemma {:induction false} StepKeeps(hash: ContentHash, s: State, step: Step)
    requires Injective(hash) && Inv(hash, s) && Enabled(hash, s, step)
    ensures Inv(hash, Do(hash, s, step))
  {
    match step
    case BeginWrite(m, e) => hide *; BeginWriteKeeps(hash, s, m, e);
    case PutShard => hide *; PutShardKeeps(hash, s);
    case PutRoot => hide *; PutRootKeeps(hash, s);
    case DeleteShard(path) => hide *; DeleteShardKeeps(hash, s, path);
    case EndWrite => EndWriteKeeps(hash, s);
    case Crash => CrashKeeps(hash, s);
    case StartLoad => hide *; StartLoadKeeps(hash, s);
    case LoadShard => hide *; LoadShardKeeps(hash, s);
    case FinishLoad => hide *; FinishLoadKeeps(hash, s);
  }

  lemma {:induction false} EndWriteKeeps(hash: ContentHash, s: State)
    requires Inv(hash, s) && Enabled(hash, s, EndWrite)
    ensures Inv(hash, Do(hash, s, EndWrite))
  {
    hide Split, Stored, LoadsExport;
  }

  lemma {:induction false} CrashKeeps(hash: ContentHash, s: State)
    requires Inv(hash, s)
    ensures Inv(hash, Do(hash, s, Crash))
  {
    hide Split, Stored, LoadsExport;
  }

  lemma {:induction false} RunKeeps(hash: ContentHash, states: seq<State>, steps: seq<Step>, i: nat)
    requires Injective(hash) && Run(hash, states, steps) && i < |states|
    ensures Inv(hash, states[i])
  {
    hide Enabled, Do;
    if i > 0 {
      RunKeeps(hash, states, steps, i - 1);
      StepKeeps(hash, states[i - 1], steps[i - 1]);
    }
  }

  /** In every reachable state the published root refers only to shards that exist with the content it names. */
  lemma {:induction false} PublishedRootIsWhole(hash: ContentHash, states: seq<State>, steps: seq<Step>, i: nat,
                                                r: ShardRef)
    requires Injective(hash) && Run(hash, states, steps) && i < |states|
    requires states[i].root.Some? && r in states[i].root.value.shards
    ensures r.path in states[i].shards && hash(states[i].shards[r.path]) == r.hash
  {
    hide RootHolds, Run, Injective;
    RunKeeps(hash, states, steps, i);
    ReferencedIsStored(hash, states[i], r);
  }

  /** Whatever a load returns was published: it is a published manifest with its segments regrouped by folder. */
  lemma {:induction false} LoadReturnsPublished(hash: ContentHash, states: seq<State>, steps: seq<Step>, i: nat)
    requires Injective(hash) && Run(hash, states, steps) && i < |states|
    requires states[i].reader.Loaded? && states[i].reader.result.Some?
    ensures exists m, e | e in states[i].published && IsSplit(hash, m, e) ::
              IsRegrouped(m, states[i].reader.result.value)
  {
    hide IsSplit, Run, Injective, Stored;
    RunKeeps(hash, states, steps, i);
    var s := states[i];
    var e :| e in s.published && s.reader.result.value == e.root.(segments := AllSegments(Documents(e.shards)));
    assert Split(hash, e);
    var m :| IsSplit(hash, m, e);
    Regrouped(hash, m, e);
  }

  /** The same manifest up to layout bookkeeping, with its segments grouped by folder. */
  ghost predicate IsRegrouped(m: Manifest, loaded: Manifest) {
    && loaded == m.(version := MANIFEST_VERSION, shards := loaded.shards, segments := loaded.segments,
                    files := loaded.files)
    && StableGrouping(m.segments, FolderKey, Terms.TextLess, loaded.segments)
  }

  lemma {:induction false} Regrouped(hash: ContentHash, m: Manifest, e: Export)
    requires IsSplit(hash, m, e)
    ensures IsRegrouped(m, e.root.(segments := AllSegments(Documents(e.shards))))
  {
    hide Grouped, ShardFor, StableGrouping;
    SplitThenMerge(hash, m, e);
  }

  // ---- Loads and the roots put meanwhile ----

  ghost function Puts(steps: seq<Step>): nat {
    if steps == [] then 0 else Puts(steps[..|steps| - 1]) + if steps[|steps| - 1].PutRoot? then 1 else 0
  }

  /** `total` never exceeds the roots put since the load started. */
  lemma {:induction false} TotalCountsPuts(hash: ContentHash, states: seq<State>, steps: seq<Step>, i: nat, j: nat)
    requires Run(hash, states, steps) && i < j < |states| && steps[i].StartLoad?
    requires forall k | i < k < j :: !steps[k].StartLoad?
    ensures states[j].reader.Loading? ==> states[j].reader.total <= Puts(steps[i + 1..j])
    ensures states[j].reader.Failed? ==> states[j].reader.total <= Puts(steps[i + 1..j])
  {
    hide Inv, Mergeable, IsSplit, Obsolete, AfterPutShard;
    if j > i + 1 {
      TotalCountsPuts(hash, states, steps, i, j - 1);
      assert steps[i + 1..j][..j - i - 2] == steps[i + 1..j - 1];
      StepTotal(hash, states[j - 1], steps[j - 1]);
    } else {
      assert states[j] == Do(hash, states[i], steps[i]);
    }
  }

  lemma {:induction false} StepTotal(hash: ContentHash, s: State, step: Step)
    requires Enabled(hash, s, step) && !step.StartLoad?
    ensures var s' := Do(hash, s, step);
            var put := if step.PutRoot? then 1 else 0;
            && (s'.reader.Loading? ==> s.reader.Loading? && s'.reader.total <= s.reader.total + put)
            && (s'.reader.Failed? ==>
                  (s.reader.Loading? || s.reader.Failed?) && s'.reader.total <= s.reader.total + put)
  {
    hide Mergeable, IsSplit, Obsolete, AlreadyPublished;
  }

  /** A load overlapped by at most one root put does not fail. */
  lemma {:induction false} LoadFailsOnlyAfterTwoPuts(hash: ContentHash, states: seq<State>, steps: seq<Step>, i: nat,
                                                     j: nat)
    requires Injective(hash) && Run(hash, states, steps) && i < j < |states| && steps[i].StartLoad?
    requires forall k | i < k < j :: !steps[k].StartLoad?
    requires Puts(steps[i + 1..j]) <= 1
    ensures !states[j].reader.Failed?
  {
    hide Run, Injective, RootHolds, WriterHolds, Puts;
    TotalCountsPuts(hash, states, steps, i, j);
    RunKeeps(hash, states, steps, j);
  }
}
