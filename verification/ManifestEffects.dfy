/** What a write and a load achieve: a write that meets no clash publishes its manifest, and a load returns the manifest
    that was current at some moment while it ran. */
module ManifestEffects {
  import opened Bytes
  import opened ManifestShards
  import opened ManifestProtocol
  import opened ManifestSafety
  import opened ManifestStore

  // ---- Loads ----

  /** The manifest a state publishes: the last root put, with the segments of its shards. */
  ghost function Published(s: State): Option<Manifest> {
    if s.published == [] then None
    else var e := s.published[|s.published| - 1]; Some(e.root.(segments := AllSegments(Documents(e.shards))))
  }

  ghost predicate WasRoot(states: seq<State>, i: nat, j: nat, root: Manifest)
    requires i <= j < |states|
  {
    exists k | i <= k <= j :: states[k].root == Some(root)
  }

  ghost predicate WasPublished(states: seq<State>, i: nat, j: nat, m: Option<Manifest>)
    requires i <= j < |states|
  {
    exists k | i <= k <= j :: Published(states[k]) == m
  }

  /** A root determines the shards it refers to. */
  lemma {:induction false} SameRootSameShards(hash: ContentHash, e: Export, e': Export)
    requires Injective(hash) && Split(hash, e) && Split(hash, e') && e.root == e'.root
    ensures Documents(e.shards) == Documents(e'.shards)
  {
    hide Split;
    SplitSizes(hash, e);
    SplitSizes(hash, e');
    forall i | 0 <= i < |e.shards| ensures Documents(e.shards)[i] == Documents(e'.shards)[i] {
      SplitRefs(hash, e, i);
      SplitRefs(hash, e', i);
    }
  }

  /** A load in progress works from a root that was current since it started; a finished one returned the manifest that
      was current at some moment since then. */
  lemma {:induction false} LoadIsCurrent(hash: ContentHash, states: seq<State>, steps: seq<Step>, i: nat, j: nat)
    requires Injective(hash) && Run(hash, states, steps) && i < j < |states| && steps[i].StartLoad?
    requires forall k | i < k < j :: !steps[k].StartLoad?
    ensures states[j].reader.Loading? || states[j].reader.Loaded? || states[j].reader.Failed?
    ensures states[j].reader.Loading? ==> WasRoot(states, i, j, states[j].reader.root)
    ensures states[j].reader.Loaded? ==> WasPublished(states, i, j, states[j].reader.result)
  {
    hide Injective, Inv, Enabled, Do, WasRoot, WasPublished;
    RunKeeps(hash, states, steps, j - 1);
    var s, s' := states[j - 1], states[j];
    assert s' == Do(hash, s, steps[j - 1]);
    if j == i + 1 {
      Started(hash, states, i);
    } else {
      LoadIsCurrent(hash, states, steps, i, j - 1);
      if s'.reader.Loading? || s'.reader.Loaded? {
        LoadStep(hash, states, steps, i, j);
      } else {
        StillLoading(hash, s, steps[j - 1]);
      }
    }
  }

  lemma {:induction false} Started(hash: ContentHash, states: seq<State>, i: nat)
    requires i + 1 < |states| && Inv(hash, states[i]) && Enabled(hash, states[i], StartLoad)
    requires states[i + 1] == Do(hash, states[i], StartLoad)
    ensures states[i + 1].reader.Loading? || states[i + 1].reader.Loaded?
    ensures states[i + 1].reader.Loading? ==> WasRoot(states, i, i + 1, states[i + 1].reader.root)
    ensures states[i + 1].reader.Loaded? ==> WasPublished(states, i, i + 1, states[i + 1].reader.result)
  {
    hide Split, Stored;
    assert Published(states[i]).None? <==> states[i].root.None?;
  }

  lemma {:induction false} StillLoading(hash: ContentHash, s: State, step: Step)
    requires Enabled(hash, s, step) && !step.StartLoad?
    requires s.reader.Loading? || s.reader.Loaded? || s.reader.Failed?
    ensures var r := Do(hash, s, step).reader; r.Loading? || r.Loaded? || r.Failed?
  {
    hide Mergeable, IsSplit, Obsolete, AlreadyPublished, Folders;
  }

  lemma {:induction false} LoadStep(hash: ContentHash, states: seq<State>, steps: seq<Step>, i: nat, j: nat)
    requires Injective(hash) && Run(hash, states, steps) && i + 1 < j < |states| && !steps[j - 1].StartLoad?
    requires Inv(hash, states[j - 1])
    requires states[j - 1].reader.Loading? ==> WasRoot(states, i, j - 1, states[j - 1].reader.root)
    requires states[j - 1].reader.Loaded? ==> WasPublished(states, i, j - 1, states[j - 1].reader.result)
    ensures states[j].reader.Loading? ==> WasRoot(states, i, j, states[j].reader.root)
    ensures states[j].reader.Loaded? ==> WasPublished(states, i, j, states[j].reader.result)
  {
    hide Injective, Inv, AfterPutShard, Mergeable, IsSplit, Obsolete, Folders, Init;
    var s, s', step := states[j - 1], states[j], steps[j - 1];
    assert Enabled(hash, s, step) && s' == Do(hash, s, step);
    if step.FinishLoad? {
      FinishLoadKeeps(hash, s);
      Finished(hash, states, steps, i, j);
    } else if step.LoadShard? {
      Retried(hash, s);
    } else {
      SameLoad(hash, s, step);
    }
  }

  lemma {:induction false} SameLoad(hash: ContentHash, s: State, step: Step)
    requires Enabled(hash, s, step) && !step.StartLoad? && !step.LoadShard? && !step.FinishLoad?
    ensures var r := Do(hash, s, step).reader;
            && (r.Loading? ==> s.reader.Loading? && r.root == s.reader.root)
            && (r.Loaded? ==> r == s.reader)
  {
    hide IsSplit, Obsolete, AlreadyPublished, Folders;
  }

  lemma {:induction false} Retried(hash: ContentHash, s: State)
    requires Enabled(hash, s, LoadShard) && Inv(hash, s)
    ensures var r := Do(hash, s, LoadShard).reader;
            && (r.Loading? ==> r.root == s.reader.root || s.root == Some(r.root))
            && (r.Loaded? ==> r.result.None? && Published(s).None?)
  {
    hide Split, LoadsExport, Stored, WriterHolds;
  }

  /** When all shards are read, the result is the manifest published with the root the load worked from. */
  lemma {:induction false} Finished(hash: ContentHash, states: seq<State>, steps: seq<Step>, i: nat, j: nat)
    requires Injective(hash) && Run(hash, states, steps) && i + 1 < j < |states| && steps[j - 1].FinishLoad?
    requires Inv(hash, states[j - 1]) && Enabled(hash, states[j - 1], FinishLoad) && states[j - 1].reader.Loading?
    requires WasRoot(states, i, j - 1, states[j - 1].reader.root)
    requires states[j] == Do(hash, states[j - 1], FinishLoad) && states[j].reader.Loaded?
    ensures WasPublished(states, i, j, states[j].reader.result)
  {
    hide Injective, Split, Mergeable, Stored, WriterHolds, Run, Enabled;
    var s := states[j - 1];
    var k :| i <= k <= j - 1 && states[k].root == Some(s.reader.root);
    RunKeeps(hash, states, steps, k);
    var e :| e in s.published && LoadsExport(e, s.reader.root, s.reader.loaded);
    var e' := states[k].published[|states[k].published| - 1];
    assert e' in states[k].published;
    SplitSizes(hash, e);
    SplitMerges(hash, e);
    FullyLoaded(hash, s, e);
    SameRootSameShards(hash, e, e');
    assert Published(states[k]) == states[j].reader.result;
  }

  lemma {:induction false} FullyLoaded(hash: ContentHash, s: State, e: Export)
    requires Enabled(hash, s, FinishLoad) && LoadsExport(e, s.reader.root, s.reader.loaded)
    requires |e.shards| == |e.root.shards| && Mergeable(e.root, Documents(e.shards))
    ensures Do(hash, s, FinishLoad).reader == Loaded(Some(e.root.(segments := AllSegments(Documents(e.shards)))))
  {
    hide Mergeable;
    assert s.reader.loaded == Documents(e.shards);
  }

  /** A load whose next shard is missing or different starts over from the current root once, and fails the second
      time. */
  lemma {:induction false} MissingShardEffect(hash: ContentHash, s: State)
    requires Enabled(hash, s, LoadShard)
    ensures var r, s' := s.reader.root.shards[|s.reader.loaded|], Do(hash, s, LoadShard);
            if r.path in s.shards && hash(s.shards[r.path]) == r.hash
            then s' == s.(reader := s.reader.(loaded := s.reader.loaded + [s.shards[r.path]]))
            else if s.reader.attempt > 0 then s' == s.(reader := Failed(s.reader.total))
            else s'.reader.Loaded? || (s'.reader.Loading? && s'.reader.attempt == 1 && s'.reader.loaded == []
                                       && s.root == Some(s'.reader.root))
  {
  }

  // ---- A load that nothing disturbs ----

  /** Steps taken one after another from the first state. */
  ghost predicate Leads(hash: ContentHash, states: seq<State>, steps: seq<Step>) {
    && |states| == |steps| + 1
    && forall i | 0 <= i < |steps| ::
         Enabled(hash, states[i], steps[i]) && states[i + 1] == Do(hash, states[i], steps[i])
  }

  lemma {:induction false} LeadsFrom(hash: ContentHash, s: State, step: Step, states: seq<State>, steps: seq<Step>)
    requires Enabled(hash, s, step) && Leads(hash, states, steps) && states[0] == Do(hash, s, step)
    ensures Leads(hash, [s] + states, [step] + steps)
  {
    hide Enabled, Do;
  }

  lemma {:induction false} LeadsNowhere(hash: ContentHash, s: State)
    ensures Leads(hash, [s], [])
  {
  }

  /** While no root is put, every shard the load asks for is there. */
  lemma {:induction false} OneMoreShard(hash: ContentHash, s: State)
    requires Injective(hash) && Inv(hash, s) && s.reader.Loading? && s.reader.puts == 0
    requires s.root == Some(s.reader.root) && |s.reader.loaded| < |s.reader.root.shards|
    ensures Enabled(hash, s, LoadShard)
    ensures var s' := Do(hash, s, LoadShard);
            && Inv(hash, s') && s' == s.(reader := s'.reader) && s'.reader.Loading? && s'.reader.puts == 0
            && s'.reader.root == s.reader.root && |s'.reader.loaded| == |s.reader.loaded| + 1
  {
    hide Injective, RootHolds, WriterHolds, LoadsExport;
    UndisturbedShardLoads(hash, s);
    LoadShardKeeps(hash, s);
  }

  lemma {:induction false} LoadsAll(hash: ContentHash, s: State) returns (states: seq<State>, steps: seq<Step>)
    requires Injective(hash) && Inv(hash, s) && s.reader.Loading? && s.reader.puts == 0
    requires s.root == Some(s.reader.root)
    ensures Leads(hash, states, steps) && states[0] == s
    ensures states[|steps|] == s.(reader := Loaded(Published(s)))
    decreases |s.reader.root.shards| - |s.reader.loaded|
  {
    hide Injective, Inv, Leads, Do;
    LoadBounded(hash, s);
    if |s.reader.loaded| == |s.reader.root.shards| {
      LastStep(hash, s);
      var s' := Do(hash, s, FinishLoad);
      LeadsNowhere(hash, s');
      LeadsFrom(hash, s, FinishLoad, [s'], []);
      states, steps := [s] + [s'], [FinishLoad] + [];
    } else {
      OneMoreShard(hash, s);
      var s' := Do(hash, s, LoadShard);
      assert Published(s') == Published(s);
      states, steps := LoadsAll(hash, s');
      LeadsFrom(hash, s, LoadShard, states, steps);
      states, steps := [s] + states, [LoadShard] + steps;
    }
  }

  lemma {:induction false} LoadBounded(hash: ContentHash, s: State)
    requires Inv(hash, s) && s.reader.Loading?
    ensures |s.reader.loaded| <= |s.reader.root.shards|
  {
    hide Split, Stored, WriterHolds;
    var e :| e in s.published && LoadsExport(e, s.reader.root, s.reader.loaded);
    SplitSizes(hash, e);
  }

  lemma {:induction false} LastStep(hash: ContentHash, s: State)
    requires Injective(hash) && Inv(hash, s) && Enabled(hash, s, FinishLoad) && s.root == Some(s.reader.root)
    ensures Do(hash, s, FinishLoad) == s.(reader := Loaded(Published(s)))
  {
    hide Injective, Split, Mergeable, Stored, WriterHolds;
    var e :| e in s.published && LoadsExport(e, s.reader.root, s.reader.loaded);
    var e' := s.published[|s.published| - 1];
    assert e' in s.published;
    SplitSizes(hash, e);
    SplitMerges(hash, e);
    FullyLoaded(hash, s, e);
    SameRootSameShards(hash, e, e');
  }

  /** From any reachable state, whatever a writer is in the middle of, a load that is not disturbed runs to its end and
      returns the published manifest. */
  lemma {:induction false} UndisturbedLoad(hash: ContentHash, s: State) returns (states: seq<State>, steps: seq<Step>)
    requires Injective(hash) && Inv(hash, s) && !s.reader.Loading?
    ensures Leads(hash, states, steps) && states[0] == s && steps != [] && steps[0] == StartLoad
    ensures states[|steps|] == s.(reader := Loaded(Published(s)))
  {
    hide Injective, WriterHolds, LoadsExport, Leads, Split, Stored;
    StartLoadKeeps(hash, s);
    var s' := Do(hash, s, StartLoad);
    if s.root.None? {
      LeadsNowhere(hash, s');
      LeadsFrom(hash, s, StartLoad, [s'], []);
      states, steps := [s] + [s'], [StartLoad] + [];
    } else {
      states, steps := LoadsAll(hash, s');
      assert Published(s') == Published(s);
      LeadsFrom(hash, s, StartLoad, states, steps);
      states, steps := [s] + states, [StartLoad] + steps;
    }
  }

  // ---- Writes ----

  /** The rest of the export meets no object of its names with other content. */
  ghost predicate NoClashFrom(shards: map<string, Shard>, e: Export, n: nat) {
    forall i | n <= i < |e.shards| && e.shards[i].0 in shards :: shards[e.shards[i].0] == e.shards[i].1
  }

  /** A put stores its shard under its name, unless it is there; a clash ends the write and changes nothing stored. */
  lemma {:induction false} PutShardEffect(hash: ContentHash, s: State)
    requires Injective(hash) && Inv(hash, s) && Enabled(hash, s, PutShard)
    ensures var s', e, n := Do(hash, s, PutShard), s.writer.upload, s.writer.next;
            var name, shard := e.shards[n].0, e.shards[n].1;
            if name in s.shards && s.shards[name] != shard then s' == s.(writer := Idle)
            else s' == s.(shards := s.shards[name := shard], writer := Putting(e, s.writer.previous, n + 1))
  {
    hide Split, ReaderHolds, RootHolds, Injective;
    var e, n := s.writer.upload, s.writer.next;
    if AlreadyPublished(s.writer.previous, e.root.shards[n]) {
      SkippedIsStored(hash, s);
    }
    assert e.shards[n].0 in s.shards && s.shards[e.shards[n].0] == e.shards[n].1 ==>
        s.shards[e.shards[n].0 := e.shards[n].1] == s.shards;
  }

  lemma {:induction false} PutsAll(hash: ContentHash, s: State) returns (states: seq<State>, steps: seq<Step>)
    requires Injective(hash) && Inv(hash, s) && s.writer.Putting?
             && NoClashFrom(s.shards, s.writer.upload, s.writer.next)
    ensures Leads(hash, states, steps) && states[0] == s
    ensures var last := states[|steps|];
            && Inv(hash, last) && last.root == Some(s.writer.upload.root)
            && last.published == s.published + [s.writer.upload] && last.writer.Cleaning?
    decreases |s.writer.upload.shards| - s.writer.next
  {
    hide Injective, RootHolds, ReaderHolds, Leads, Split, NoClashFrom;
    var e, n := s.writer.upload, s.writer.next;
    SplitSizes(hash, e);
    if n == |e.shards| {
      PutRootKeeps(hash, s);
      var s' := Do(hash, s, PutRoot);
      LeadsNowhere(hash, s');
      LeadsFrom(hash, s, PutRoot, [s'], []);
      states, steps := [s] + [s'], [PutRoot] + [];
    } else {
      PutShardKeeps(hash, s);
      PutShardEffect(hash, s);
      var s' := Do(hash, s, PutShard);
      NextPut(hash, s);
      states, steps := PutsAll(hash, s');
      LeadsFrom(hash, s, PutShard, states, steps);
      states, steps := [s] + states, [PutShard] + steps;
    }
  }

  lemma {:induction false} NextPut(hash: ContentHash, s: State)
    requires Injective(hash) && Inv(hash, s) && Enabled(hash, s, PutShard)
    requires NoClashFrom(s.shards, s.writer.upload, s.writer.next)
    ensures var s' := Do(hash, s, PutShard);
            && s'.writer == s.writer.(next := s.writer.next + 1) && s'.root == s.root && s'.published == s.published
            && NoClashFrom(s'.shards, s.writer.upload, s.writer.next + 1)
  {
    hide Injective, RootHolds, ReaderHolds, Split, AfterPutShard;
    PutShardEffect(hash, s);
    var e, n := s.writer.upload, s.writer.next;
    forall i | n < i < |e.shards| ensures e.shards[i].0 != e.shards[n].0 {
      NamesDistinct(hash, e, n, i);
    }
  }

  /** From any reachable state with no write in progress, a write whose shards clash with nothing stored runs until its
      manifest is published. */
  lemma {:induction false} WritePublishes(hash: ContentHash, s: State, m: Manifest, e: Export)
    returns (states: seq<State>, steps: seq<Step>)
    requires Injective(hash) && Inv(hash, s) && s.writer.Idle? && IsSplit(hash, m, e) && NoClash(s.shards, e)
    ensures Leads(hash, states, steps) && states[0] == s && steps != [] && steps[0] == BeginWrite(m, e)
    ensures var last := states[|steps|];
            && last.root == Some(e.root) && last.published == s.published + [e] && last.writer.Cleaning?
            && Published(last) == Some(e.root.(segments := AllSegments(Documents(e.shards))))
  {
    hide Injective, RootHolds, ReaderHolds, Leads, Split, IsSplit;
    BeginWriteKeeps(hash, s, m, e);
    var s' := Do(hash, s, BeginWrite(m, e));
    states, steps := PutsAll(hash, s');
    LeadsFrom(hash, s, BeginWrite(m, e), states, steps);
    states, steps := [s] + states, [BeginWrite(m, e)] + steps;
  }

  /** The root put is the export's, and cleanup is for the folders of its shards and of those of the root it replaced.
      */
  lemma {:induction false} PutRootEffect(hash: ContentHash, s: State, folder: string)
    requires Enabled(hash, s, PutRoot)
    ensures var s', e := Do(hash, s, PutRoot), s.writer.upload;
            && s'.root == Some(e.root) && s'.shards == s.shards && s'.published == s.published + [e]
            && s'.writer.Cleaning? && s'.writer.root == e.root
            && (folder in s'.writer.folders <==>
                  ParseFolderName(folder).Some? &&
                  ((exists r | r in e.root.shards :: r.folder == folder)
                   || exists r | r in s.writer.previous :: r.folder == folder))
  {
    hide ParseFolderName;
    var refs := s.writer.upload.root.shards + s.writer.previous;
    assert forall r | r in s.writer.upload.root.shards :: r in refs;
    assert forall r | r in s.writer.previous :: r in refs;
  }

  /** Cleanup deletes one unreferenced object under a folder of the new or the replaced root, and is over only when none
      is left; a crash forgets the write and nothing else. */
  lemma {:induction false} CleanupEffect(hash: ContentHash, s: State, step: Step)
    requires s.writer.Cleaning? && Enabled(hash, s, step) && (step.DeleteShard? || step.EndWrite? || step.Crash?)
    ensures var s' := Do(hash, s, step);
            match step
            case DeleteShard(path) =>
              && s' == s.(shards := s.shards - {path}) && path in s.shards
              && (exists f | f in s.writer.folders :: f + "/" <= path)
              && forall r | r in s.writer.root.shards :: r.path != path
            case EndWrite =>
              && s' == s.(writer := Idle)
              && forall p, f | p in s.shards && f in s.writer.folders && f + "/" <= p ::
                   exists r | r in s.writer.root.shards :: r.path == p
            case _ => s' == s.(writer := Idle)
  {
    if step.EndWrite? {
      forall p, f | p in s.shards && f in s.writer.folders && f + "/" <= p
        ensures exists r | r in s.writer.root.shards :: r.path == p
      {
        assert InFolder(p, f) && !Obsolete(s.writer.root, s.writer.folders, p);
      }
    }
  }

  /** Cleanup never gets stuck: it can delete an object or it can end. A writer can crash at any time. */
  lemma {:induction false} CleanupGoesOn(hash: ContentHash, s: State)
    requires s.writer.Cleaning?
    ensures Enabled(hash, s, EndWrite) || exists path :: Enabled(hash, s, DeleteShard(path))
    ensures Enabled(hash, s, Crash)
  {
    hide Obsolete;
    if p :| p in s.shards && Obsolete(s.writer.root, s.writer.folders, p) {
      assert Enabled(hash, s, DeleteShard(p));
    }
  }
}
