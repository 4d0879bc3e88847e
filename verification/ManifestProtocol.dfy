/** Publishing a sharded manifest to object storage while readers load it: one writer at a time, crashes anywhere. */
module ManifestProtocol {
  import opened Bytes
  import opened Grouping
  import opened ManifestShards
  import Terms

  // ---- State ----

  /** A write in progress: shards are put one by one, then the root, then obsolete shards are removed. */
  datatype Writer =
    | Idle
    | Putting(upload: Export, previous: seq<ShardRef>, next: nat)
    | Cleaning(root: Manifest, folders: set<string>)

  /** A load in progress: the root read on this attempt and the shards read so far. `puts` counts the roots put since
      that root was read, `total` those since the load started. */
  datatype Reader =
    | NoLoad
    | Loading(attempt: nat, root: Manifest, loaded: seq<Shard>, puts: nat, total: nat)
    | Loaded(result: Option<Manifest>)
    | Failed(total: nat)

  /** Object storage, the two processes, and the exports whose root was ever put. */
  datatype State = State(root: Option<Manifest>, shards: map<string, Shard>, writer: Writer, reader: Reader,
                         published: seq<Export>)

  datatype Step =
    | BeginWrite(manifest: Manifest, upload: Export)
    | PutShard
    | PutRoot
    | DeleteShard(path: string)
    | EndWrite
    | Crash
    | StartLoad
    | LoadShard
    | FinishLoad

  ghost predicate Init(s: State) {
    s.root.None? && s.shards == map[] && s.writer.Idle? && s.reader.NoLoad? && s.published == []
  }

  // ---- Steps of the writer ----

  /** References of the root being replaced; a root of another table or layout is ignored. */
  function PreviousRefs(root: Option<Manifest>, next: Manifest): seq<ShardRef> {
    if root.None? || root.value.version != MANIFEST_VERSION || root.value.segments != []
       || root.value.table != next.table || root.value.namespace != next.namespace
    then [] else root.value.shards
  }

  predicate AlreadyPublished(previous: seq<ShardRef>, r: ShardRef) {
    exists i | 0 <= i < |previous| :: previous[i].path == r.path && previous[i].hash == r.hash
  }

  function Folders(root: Manifest, previous: seq<ShardRef>): set<string> {
    set r | r in root.shards + previous && ParseFolderName(r.folder).Some? :: r.folder
  }

  predicate InFolder(path: string, folder: string) {
    folder + "/" <= path
  }

  /** A listed shard object that the published root does not refer to. */
  predicate Obsolete(root: Manifest, folders: set<string>, path: string) {
    && (exists f | f in folders :: InFolder(path, f))
    && (forall r | r in root.shards :: r.path != path)
  }

  ghost predicate Enabled(hash: ContentHash, s: State, step: Step) {
    match step
    case BeginWrite(m, e) => s.writer.Idle? && IsSplit(hash, m, e)
    case PutShard => s.writer.Putting? && s.writer.next < |s.writer.upload.shards| == |s.writer.upload.root.shards|
    case PutRoot => s.writer.Putting? && s.writer.next == |s.writer.upload.shards|
    case DeleteShard(path) => s.writer.Cleaning? && path in s.shards && Obsolete(s.writer.root, s.writer.folders, path)
    case EndWrite => s.writer.Cleaning? && forall p | p in s.shards :: !Obsolete(s.writer.root, s.writer.folders, p)
    case Crash => true
    case StartLoad => !s.reader.Loading?
    case LoadShard => s.reader.Loading? && |s.reader.loaded| < |s.reader.root.shards|
    case FinishLoad => s.reader.Loading? && |s.reader.loaded| == |s.reader.root.shards|
  }

  /** A shard is put only if no object has its name; an object with other content fails the write. */
  ghost function AfterPutShard(s: State): State
    requires s.writer.Putting? && s.writer.next < |s.writer.upload.shards| == |s.writer.upload.root.shards|
  {
    var entry, r := s.writer.upload.shards[s.writer.next], s.writer.upload.root.shards[s.writer.next];
    var advanced := s.(writer := s.writer.(next := s.writer.next + 1));
    if AlreadyPublished(s.writer.previous, r) then advanced
    else if entry.0 !in s.shards then advanced.(shards := s.shards[entry.0 := entry.1])
    else if s.shards[entry.0] == entry.1 then advanced
    else s.(writer := Idle)
  }

  ghost function AfterPutRoot(s: State): State
    requires s.writer.Putting?
  {
    var e := s.writer.upload;
    State(Some(e.root), s.shards, Cleaning(e.root, Folders(e.root, s.writer.previous)),
          if s.reader.Loading? then s.reader.(puts := s.reader.puts + 1, total := s.reader.total + 1) else s.reader,
          s.published + [e])
  }

  // ---- Steps of the reader ----

  /** A failed attempt starts over from the current root once, then the load fails. */
  ghost function AfterFailure(s: State): Reader
    requires s.reader.Loading?
  {
    if s.reader.attempt > 0 then Failed(s.reader.total)
    else if s.root.None? then Loaded(None)
    else Loading(1, s.root.value, [], 0, s.reader.total)
  }

  ghost function AfterLoadShard(hash: ContentHash, s: State): Reader
    requires s.reader.Loading? && |s.reader.loaded| < |s.reader.root.shards|
  {
    var r := s.reader.root.shards[|s.reader.loaded|];
    if r.path in s.shards && hash(s.shards[r.path]) == r.hash
    then s.reader.(loaded := s.reader.loaded + [s.shards[r.path]])
    else AfterFailure(s)
  }

  ghost function AfterFinishLoad(s: State): Reader
    requires s.reader.Loading?
  {
    if Mergeable(s.reader.root, s.reader.loaded)
    then Loaded(Some(s.reader.root.(segments := AllSegments(s.reader.loaded))))
    else AfterFailure(s)
  }

  ghost function Do(hash: ContentHash, s: State, step: Step): State
    requires Enabled(hash, s, step)
  {
    match step
    case BeginWrite(_, e) => s.(writer := Putting(e, PreviousRefs(s.root, e.root), 0))
    case PutShard => AfterPutShard(s)
    case PutRoot => AfterPutRoot(s)
    case DeleteShard(path) => s.(shards := s.shards - {path})
    case EndWrite => s.(writer := Idle)
    case Crash => s.(writer := Idle)
    case StartLoad => s.(reader := if s.root.None? then Loaded(None) else Loading(0, s.root.value, [], 0, 0))
    case LoadShard => s.(reader := AfterLoadShard(hash, s))
    case FinishLoad => s.(reader := AfterFinishLoad(s))
  }

  ghost predicate Run(hash: ContentHash, states: seq<State>, steps: seq<Step>) {
    && |states| == |steps| + 1 && Init(states[0])
    && forall i | 0 <= i < |steps| ::
         Enabled(hash, states[i], steps[i]) && states[i + 1] == Do(hash, states[i], steps[i])
  }

  // ---- What every step keeps ----

  ghost predicate Injective(hash: ContentHash) {
    forall a, b :: hash(a) == hash(b) ==> a == b
  }

  ghost predicate Split(hash: ContentHash, e: Export) {
    exists m :: IsSplit(hash, m, e)
  }

  /** The first `n` shards of the export are in storage under their names. */
  ghost predicate Stored(shards: map<string, Shard>, e: Export, n: nat)
    requires n <= |e.shards|
  {
    forall i | 0 <= i < n :: e.shards[i].0 in shards && shards[e.shards[i].0] == e.shards[i].1
  }

  /** The published root is that of the last export put, and all its shards are there. */
  ghost predicate RootHolds(hash: ContentHash, s: State) {
    && (forall e | e in s.published :: Split(hash, e))
    && (s.root.None? <==> s.published == [])
    && (s.published != [] ==> var e := s.published[|s.published| - 1];
                              s.root == Some(e.root) && Stored(s.shards, e, |e.shards|))
  }

  ghost predicate WriterHolds(hash: ContentHash, s: State) {
    match s.writer
    case Idle => true
    case Putting(e, previous, next) =>
      && Split(hash, e) && next <= |e.shards| && Stored(s.shards, e, next)
      && previous == PreviousRefs(s.root, e.root)
    case Cleaning(root, _) => s.root == Some(root)
  }

  ghost predicate LoadsExport(e: Export, root: Manifest, loaded: seq<Shard>) {
    e.root == root && |loaded| <= |e.shards| && loaded == Documents(e.shards)[..|loaded|]
  }

  ghost predicate IsPublished(s: State, m: Manifest) {
    exists e | e in s.published :: m == e.root.(segments := AllSegments(Documents(e.shards)))
  }

  ghost predicate ReaderHolds(s: State) {
    match s.reader
    case NoLoad => true
    case Loading(attempt, root, loaded, puts, total) =>
      && (exists e | e in s.published :: LoadsExport(e, root, loaded))
      && attempt <= 1 && puts + attempt <= total && (puts == 0 ==> s.root == Some(root))
    case Loaded(result) => result.Some? ==> IsPublished(s, result.value)
    case Failed(total) => total >= 2
  }

  ghost predicate Inv(hash: ContentHash, s: State) {
    RootHolds(hash, s) && WriterHolds(hash, s) && ReaderHolds(s)
  }

  // ---- Facts about exports ----

  lemma {:induction false} SplitRefs(hash: ContentHash, e: Export, i: nat)
    requires Split(hash, e) && i < |e.shards|
    ensures |e.root.shards| == |e.shards|
    ensures e.root.shards[i].path == e.shards[i].0 && e.root.shards[i].hash == hash(e.shards[i].1)
  {
    hide Grouped, ShardOf, ParseFolderName, ShardPath, ShardRange, ValidatedFolder;
    var m :| IsSplit(hash, m, e);
    var keys, groups :| Grouped(m.segments, FolderKey, Terms.TextLess, keys, groups)
                        && |e.shards| == |e.root.shards| == |keys|
                        && forall i | 0 <= i < |keys| :: ShardFor(hash, m, keys, groups, e.root.shards, e.shards, i);
    assert ShardFor(hash, m, keys, groups, e.root.shards, e.shards, i);
  }

  lemma {:induction false} SplitSizes(hash: ContentHash, e: Export)
    requires Split(hash, e)
    ensures |e.root.shards| == |e.shards|
  {
    hide Grouped, ShardFor, ValidatedFolder;
    var m :| IsSplit(hash, m, e);
  }

  lemma {:induction false} SplitMerges(hash: ContentHash, e: Export)
    requires Split(hash, e)
    ensures Mergeable(e.root, Documents(e.shards))
  {
    hide IsSplit, Mergeable;
    var m :| IsSplit(hash, m, e);
    SplitThenMerge(hash, m, e);
  }

  /** A referenced shard is in storage with the content the reference names. */
  lemma {:induction false} ReferencedIsStored(hash: ContentHash, s: State, r: ShardRef)
    requires RootHolds(hash, s) && s.root.Some? && r in s.root.value.shards
    ensures r.path in s.shards && hash(s.shards[r.path]) == r.hash
  {
    hide Split;
    var e := s.published[|s.published| - 1];
    assert e in s.published;
    SplitSizes(hash, e);
    var i :| 0 <= i < |e.root.shards| && e.root.shards[i] == r;
    SplitRefs(hash, e, i);
  }
}
