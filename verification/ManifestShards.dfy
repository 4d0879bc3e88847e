/** The folder-sharded layout of a manifest: splitting it for export and merging it back. */
module ManifestShards {
  import opened Bytes
  import opened Chars
  import opened Grouping
  import opened Terms
  import opened HexOrder

  const MANIFEST_VERSION: nat := 2
  const MANIFEST_SHARD_VERSION: nat := 2
  const SEGMENTS_PER_FOLDER: nat := 100
  const PATH_HASH_LENGTH: nat := 32
  const U32_LIMIT: nat := 0x1_0000_0000
  const I32_MAX: nat := 0x7FFF_FFFF
  const I64_MAX: int := 0x7FFF_FFFF_FFFF_FFFF

  /** Hex-encoded bounds of one indexed column. */
  datatype ColumnBounds = ColumnBounds(columnId: int, minValue: Option<string>, maxValue: Option<string>,
                                       mins: seq<Option<string>>, maxs: seq<Option<string>>, nulls: seq<Option<int>>)

  /** `other` stands for the fields that are only carried along. */
  datatype Segment = Segment(batch: nat, path: string, minSeq: int, maxSeq: int, rowCount: nat, rowGroupCount: nat,
                             rowCounts: seq<int>, groupMinSeqs: seq<int>, groupMaxSeqs: seq<int>,
                             indexes: seq<ColumnBounds>, other: string)

  datatype ShardRef = ShardRef(folder: string, path: string, hash: string, segmentCount: nat, minSeq: int, maxSeq: int)

  datatype Shard = Shard(version: nat, folder: string, table: string, namespace: Option<string>, schemaVersion: nat,
                         segments: seq<Segment>)

  datatype Files = Files(currentSubfolder: string, subfolderCount: nat, maxFiles: nat, totalFiles: Option<nat>)

  datatype Manifest = Manifest(version: nat, table: string, namespace: Option<string>, schemaVersion: nat,
                               shards: seq<ShardRef>, segments: seq<Segment>, files: Files, other: string)

  // ---- Paths ----

  /** A folder number as three digits or more. */
  function FolderName(n: nat): string {
    var digits := Digits(n);
    if |digits| == 1 then "00" + digits else if |digits| == 2 then "0" + digits else digits
  }

  function DecimalValue(s: string): int {
    if s == "" then 0 else 10 * DecimalValue(s[..|s| - 1]) + (s[|s| - 1] as int - '0' as int)
  }

  predicate AllDigits(s: string) {
    s != "" && forall c | c in s :: '0' <= c <= '9'
  }

  /** The number of a zero-padded folder name; other spellings of a number are not folder names. */
  function ParseFolderName(folder: string): Option<nat> {
    if !AllDigits(folder) then None
    else
      var n := DecimalValue(folder);
      if 0 < n < U32_LIMIT && folder == FolderName(n) then Some(n) else None
  }

  function Parts(path: string): (parts: seq<string>)
    ensures |parts| > 0
  {
    if path == "" then [""]
    else
      var rest := Parts(path[1..]);
      if path[0] == '/' then [""] + rest else [[path[0]] + rest[0]] + rest[1..]
  }

  predicate PlainName(name: string) {
    name != "" && name != "." && name != ".."
  }

  /** The folder of `001/segment.parquet`, or of `scope/001/segment.parquet`. */
  function FolderOfPath(path: string): Option<string> {
    var parts := Parts(path);
    var n := |parts|;
    if n != 2 && !(n == 3 && PlainName(parts[0])) then None
    else if ParseFolderName(parts[n - 2]).None? || !PlainName(parts[n - 1]) then None
    else Some(parts[n - 2])
  }

  function SegmentFolderNumber(batch: nat): nat {
    var n := if batch == 0 then 1 else batch;
    (n - 1) / SEGMENTS_PER_FOLDER + 1
  }

  function ShardFile(hash: string): string {
    "manifest-shard-" + (if |hash| >= PATH_HASH_LENGTH then hash[..PATH_HASH_LENGTH] else hash) + ".json"
  }

  function ShardPath(folder: nat, hash: string): string {
    FolderName(folder) + "/" + ShardFile(hash)
  }

  // ---- Validation ----

  function Sum(counts: seq<int>): int {
    if counts == [] then 0 else Sum(counts[..|counts| - 1]) + counts[|counts| - 1]
  }

  predicate BoundsOk(min: Option<string>, max: Option<string>) {
    && (min.Some? <==> max.Some?)
    && (min.Some? && max.Some? ==> IsHex(min.value) && IsHex(max.value) && !TextLess(max.value, min.value))
  }

  predicate GroupOk(min: Option<string>, max: Option<string>, nulls: Option<int>, rows: int) {
    && BoundsOk(min, max)
    && (nulls.Some? ==> 0 <= nulls.value <= rows)
    && (min.Some? ==> nulls != Some(rows))
  }

  predicate IndexOk(index: ColumnBounds, rowCounts: seq<int>) {
    && |index.mins| == |index.maxs| == |index.nulls| == |rowCounts|
    && BoundsOk(index.minValue, index.maxValue)
    && forall i | 0 <= i < |rowCounts| :: GroupOk(index.mins[i], index.maxs[i], index.nulls[i], rowCounts[i])
  }

  /** The packed metadata of a segment is consistent. */
  predicate PackedOk(s: Segment) {
    && 0 < s.rowGroupCount == |s.rowCounts| == |s.groupMinSeqs| == |s.groupMaxSeqs|
    && (forall i | 0 <= i < |s.rowCounts| :: s.rowCounts[i] > 0)
    && Sum(s.rowCounts) <= I64_MAX && Sum(s.rowCounts) == s.rowCount
    && (forall i | 0 <= i < |s.rowCounts| :: 0 < s.groupMinSeqs[i] <= s.groupMaxSeqs[i])
    && forall i | 0 <= i < |s.indexes| :: IndexOk(s.indexes[i], s.rowCounts)
  }

  /** The folder a segment is filed under, if its metadata is consistent and the folder is the one of its batch. */
  function ValidatedFolder(s: Segment): Result<string> {
    if !PackedOk(s) then Err("inconsistent segment metadata")
    else
      var folder := FolderOfPath(s.path);
      if folder.None? then Err("invalid manifest segment path")
      else if s.batch > I32_MAX then Err("manifest segment batch is too large")
      else if ParseFolderName(folder.value) != Some(SegmentFolderNumber(s.batch)) then
        Err("segment in the wrong folder")
      else Ok(folder.value)
  }

  function FolderKey(s: Segment): string {
    var folder := ValidatedFolder(s);
    if folder.Ok? then folder.value else ""
  }

  lemma {:induction false} ValidatedFolderParses(s: Segment)
    requires ValidatedFolder(s).Ok?
    ensures ParseFolderName(FolderKey(s)).Some?
  {
  }

  function MinSeq(segments: seq<Segment>): int
    requires segments != []
  {
    var last := segments[|segments| - 1].minSeq;
    if |segments| == 1 then last
    else
      var rest := MinSeq(segments[..|segments| - 1]);
      if last < rest then last else rest
  }

  function MaxSeq(segments: seq<Segment>): int
    requires segments != []
  {
    var last := segments[|segments| - 1].maxSeq;
    if |segments| == 1 then last
    else
      var rest := MaxSeq(segments[..|segments| - 1]);
      if last > rest then last else rest
  }

  /** The sequence range a shard covers; 0 for an empty one. */
  function ShardRange(segments: seq<Segment>): (int, int) {
    if segments == [] then (0, 0) else (MinSeq(segments), MaxSeq(segments))
  }

  // ---- Splitting ----

  datatype Export = Export(root: Manifest, shards: seq<(string, Shard)>)

  /** Names shards by content: the checksum of their serialized form. */
  type ContentHash = Shard -> string

  function ShardOf(m: Manifest, folder: string, segments: seq<Segment>): Shard {
    Shard(MANIFEST_SHARD_VERSION, folder, m.table, m.namespace, m.schemaVersion, segments)
  }

  /** The reference to a shard: its checksum, its place and its range. */
  ghost predicate Refers(hash: ContentHash, r: ShardRef, entry: (string, Shard)) {
    var shard := entry.1;
    && r.folder == shard.folder && r.hash == hash(shard) && r.path == entry.0
    && ParseFolderName(r.folder).Some? && r.path == ShardPath(ParseFolderName(r.folder).value, r.hash)
    && r.segmentCount == |shard.segments| < U32_LIMIT
    && (r.minSeq, r.maxSeq) == ShardRange(shard.segments)
  }

  ghost function Documents(entries: seq<(string, Shard)>): seq<Shard> {
    seq(|entries|, i requires 0 <= i < |entries| => entries[i].1)
  }

  ghost function AllSegments(shards: seq<Shard>): seq<Segment> {
    if shards == [] then [] else AllSegments(shards[..|shards| - 1]) + shards[|shards| - 1].segments
  }

  ghost predicate ShardFor(hash: ContentHash, m: Manifest, keys: seq<string>, groups: map<string, seq<Segment>>,
                           refs: seq<ShardRef>, entries: seq<(string, Shard)>, i: nat)
    requires i < |keys| && |refs| == |entries| == |keys|
  {
    && keys[i] in groups && entries[i].1 == ShardOf(m, keys[i], groups[keys[i]]) && Refers(hash, refs[i], entries[i])
  }

  /** The export of a manifest: one shard per folder, in folder order, each holding that folder's segments in their
      order, and a root that refers to them and is otherwise the manifest without segments. */
  ghost predicate IsSplit(hash: ContentHash, m: Manifest, e: Export) {
    && (forall s | s in m.segments :: ValidatedFolder(s).Ok?)
    && (exists keys, groups :: Grouped(m.segments, FolderKey, TextLess, keys, groups)
                               && |e.shards| == |e.root.shards| == |keys|
                               && forall i | 0 <= i < |keys| ::
                                 ShardFor(hash, m, keys, groups, e.root.shards, e.shards, i))
    && e.root == m.(version := MANIFEST_VERSION, shards := e.root.shards, segments := [], files := e.root.files)
  }

  lemma {:induction false} TextOrderIsStrict()
    ensures StrictOrder(TextLess)
  {
    hide TextLess;
    forall a, b ensures TextLess(a, b) || a == b || TextLess(b, a) {
      TextOrder(a, b);
    }
    forall a, b ensures TextLess(a, b) ==> a != b && !TextLess(b, a) {
      TextOrder(a, b);
    }
    forall a, b, c | TextLess(a, b) && TextLess(b, c) ensures TextLess(a, c) {
      TextLessTransitive(a, b, c);
    }
  }

  lemma {:induction false} TextLessTransitive(a: string, b: string, c: string)
    requires TextLess(a, b) && TextLess(b, c)
    ensures TextLess(a, c)
  {
    LessTransitive(Utf8(a), Utf8(b), Utf8(c));
  }

  method ValidateAll(segments: seq<Segment>) returns (ok: Result<()>)
    ensures ok.Ok? <==> forall s | s in segments :: ValidatedFolder(s).Ok?
  {
    hide ValidatedFolder;
    for i := 0 to |segments|
      invariant forall j | 0 <= j < i :: ValidatedFolder(segments[j]).Ok?
    {
      assert segments[i] in segments;
      var folder := ValidatedFolder(segments[i]);
      if folder.Err? {
        return Err(folder.error);
      }
    }
    ok := Ok(());
  }

  /** Every segment validates, and no folder has more segments than a reference can count. */
  ghost predicate Splittable(m: Manifest) {
    && (forall s | s in m.segments :: ValidatedFolder(s).Ok?)
    && (forall folder: string :: |Of(m.segments, FolderKey, folder)| < U32_LIMIT)
  }

  /** The folder with the largest number, "001" if there is none. */
  ghost predicate IsLastFolder(refs: seq<ShardRef>, folder: string) {
    if refs == [] then folder == "001"
    else (exists i | 0 <= i < |refs| :: refs[i].folder == folder)
         && forall i | 0 <= i < |refs| :: ParseFolderName(refs[i].folder).Some? && ParseFolderName(folder).Some?
                                          && ParseFolderName(refs[i].folder).value <= ParseFolderName(folder).value
  }

  /** `n` is the largest folder number so far, 0 without folders. */
  ghost predicate LastSoFar(refs: seq<ShardRef>, n: nat) {
    && (refs == [] ==> n == 0)
    && (refs != [] ==> ParseFolderName(FolderName(n)) == Some(n) && IsLastFolder(refs, FolderName(n)))
  }

  /** Splits a manifest for export. */
  method SplitManifest(hash: ContentHash, m: Manifest) returns (r: Result<Export>)
    ensures r.Ok? <==> Splittable(m)
    ensures r.Ok? ==> IsSplit(hash, m, r.value)
    ensures r.Ok? ==> var files := r.value.root.files;
                      && files.totalFiles == Some(|m.segments|) && files.subfolderCount == |r.value.shards|
                      && files.maxFiles == 100 && IsLastFolder(r.value.root.shards, files.currentSubfolder)
  {
    hide ValidatedFolder, FolderKey, TextLess, ParseFolderName, ShardPath, ShardRange, FolderName, IsLastFolder;
    var valid := ValidateAll(m.segments);
    if valid.Err? {
      return Err(valid.error);
    }
    TextOrderIsStrict();
    var keys, groups := GroupBy(m.segments, FolderKey, TextLess);
    var refs: seq<ShardRef>, entries: seq<(string, Shard)>, maxFolder: nat := [], [], 0;
    for i := 0 to |keys|
      invariant |refs| == |entries| == i
      invariant forall j | 0 <= j < i :: keys[j] in groups && |groups[keys[j]]| < U32_LIMIT
      invariant forall j | 0 <= j < i :: keys[j] in groups && entries[j].1 == ShardOf(m, keys[j], groups[keys[j]])
                                         && Refers(hash, refs[j], entries[j])
      invariant LastSoFar(refs, maxFolder)
    {
      var folder := keys[i];
      assert folder in keys;
      var segments := groups[folder];
      KeyIsFolder(m.segments, keys, groups, folder);
      var number := ParseFolderName(folder).value;
      ghost var before := maxFolder;
      maxFolder := if number > maxFolder then number else maxFolder;
      var range := ShardRange(segments);
      if |segments| >= U32_LIMIT {
        return Err("too many segments in a folder");
      }
      var shard := ShardOf(m, folder, segments);
      var path := ShardPath(number, hash(shard));
      var ref := ShardRef(folder, path, hash(shard), |segments|, range.0, range.1);
      LastFolderNext(refs, ref, number, before, maxFolder);
      refs := refs + [ref];
      entries := entries + [(path, shard)];
    }
    var files := Files(if maxFolder == 0 then "001" else FolderName(maxFolder), |refs|, SEGMENTS_PER_FOLDER,
                       Some(|m.segments|));
    LastIsCurrent(refs, maxFolder);
    var root := m.(version := MANIFEST_VERSION, shards := refs, segments := [], files := files);
    assert forall j | 0 <= j < |keys| :: ShardFor(hash, m, keys, groups, refs, entries, j);
    forall other: string ensures |Of(m.segments, FolderKey, other)| < U32_LIMIT {
      if other !in groups {
        OfNone(m.segments, FolderKey, other);
      }
    }
    r := Ok(Export(root, entries));
  }

  lemma {:induction false} LastIsCurrent(refs: seq<ShardRef>, n: nat)
    requires LastSoFar(refs, n)
    ensures IsLastFolder(refs, if n == 0 then "001" else FolderName(n))
  {
    hide FolderName, DecimalValue, AllDigits;
  }

  lemma {:induction false} LastFolderNext(refs: seq<ShardRef>, r: ShardRef, number: nat, before: nat, after: nat)
    requires LastSoFar(refs, before) && ParseFolderName(r.folder) == Some(number)
    requires after == if number > before then number else before
    ensures LastSoFar(refs + [r], after)
  {
    hide FolderName, DecimalValue, AllDigits;
    var all := refs + [r];
    assert all[|refs|] == r && forall i | 0 <= i < |refs| :: all[i] == refs[i];
  }

  lemma {:induction false} KeyIsFolder(segments: seq<Segment>, keys: seq<string>, groups: map<string, seq<Segment>>,
                                       folder: string)
    requires Grouped(segments, FolderKey, TextLess, keys, groups) && folder in groups
    requires forall s | s in segments :: ValidatedFolder(s).Ok?
    ensures ParseFolderName(folder).Some? && groups[folder] != []
  {
    hide ValidatedFolder, FolderKey, ParseFolderName, TextLess;
    var s := groups[folder][0];
    OfOnly(segments, FolderKey, folder);
    OfSubset(segments, folder, s);
    assert s in Of(segments, FolderKey, folder);
    ValidatedFolderParses(s);
  }

  lemma {:induction false} OfSubset(segments: seq<Segment>, folder: string, s: Segment)
    ensures s in Of(segments, FolderKey, folder) ==> s in segments
  {
    hide FolderKey;
    if segments != [] {
      OfSubset(segments[..|segments| - 1], folder, s);
    }
  }

  // ---- Merging ----

  predicate RootOk(root: Manifest, shardCount: nat) {
    root.version == MANIFEST_VERSION && root.segments == [] && |root.shards| == shardCount
  }

  /** A loaded shard agrees with the root and with the root's reference to it. */
  predicate ShardOk(root: Manifest, r: ShardRef, shard: Shard) {
    && ParseFolderName(r.folder).Some? && r.path == ShardPath(ParseFolderName(r.folder).value, r.hash)
    && shard.version == MANIFEST_SHARD_VERSION && shard.folder == r.folder
    && shard.table == root.table && shard.namespace == root.namespace && shard.schemaVersion == root.schemaVersion
    && |shard.segments| < U32_LIMIT && |shard.segments| == r.segmentCount
    && (forall i | 0 <= i < |shard.segments| :: ValidatedFolder(shard.segments[i]) == Ok(shard.folder))
    && ShardRange(shard.segments) == (r.minSeq, r.maxSeq)
  }

  ghost predicate Mergeable(root: Manifest, shards: seq<Shard>) {
    RootOk(root, |shards|) && forall i | 0 <= i < |shards| :: ShardOk(root, root.shards[i], shards[i])
  }

  /** Validates the shards against the root and puts their segments back, in shard order. */
  method MergeManifestShards(root: Manifest, shards: seq<Shard>) returns (r: Result<Manifest>)
    ensures r.Ok? <==> Mergeable(root, shards)
    ensures r.Ok? ==> r.value == root.(segments := AllSegments(shards))
  {
    hide ShardOk;
    if !RootOk(root, |shards|) {
      return Err("root and shards disagree");
    }
    var segments: seq<Segment> := [];
    for i := 0 to |shards|
      invariant forall j | 0 <= j < i :: ShardOk(root, root.shards[j], shards[j])
      invariant segments == AllSegments(shards[..i])
    {
      if !ShardOk(root, root.shards[i], shards[i]) {
        return Err("shard does not match its reference");
      }
      assert shards[..i + 1][..i] == shards[..i];
      segments := segments + shards[i].segments;
    }
    assert shards[..|shards|] == shards;
    r := Ok(root.(segments := segments));
  }

  // ---- Splitting and merging back ----

  lemma {:induction false} SplitShardOk(hash: ContentHash, m: Manifest, e: Export, keys: seq<string>,
                                        groups: map<string, seq<Segment>>, i: nat)
    requires (forall s | s in m.segments :: ValidatedFolder(s).Ok?)
             && Grouped(m.segments, FolderKey, TextLess, keys, groups)
    requires |e.shards| == |e.root.shards| == |keys| && i < |keys|
    requires ShardFor(hash, m, keys, groups, e.root.shards, e.shards, i)
    requires e.root.table == m.table && e.root.namespace == m.namespace && e.root.schemaVersion == m.schemaVersion
    ensures ShardOk(e.root, e.root.shards[i], e.shards[i].1)
  {
    hide ValidatedFolder, ParseFolderName, ShardPath, TextLess, ShardRange;
    var shard := e.shards[i].1;
    forall j | 0 <= j < |shard.segments| ensures ValidatedFolder(shard.segments[j]) == Ok(shard.folder) {
      var s := shard.segments[j];
      OfOnly(m.segments, FolderKey, keys[i]);
      OfSubset(m.segments, keys[i], s);
      assert s in Of(m.segments, FolderKey, keys[i]);
    }
  }

  lemma {:induction false} SegmentsInOrder(hash: ContentHash, m: Manifest, e: Export, keys: seq<string>,
                                           groups: map<string, seq<Segment>>, n: nat)
    requires n <= |keys| == |e.shards| == |e.root.shards| && (forall k | k in keys :: k in groups)
    requires forall i | 0 <= i < |keys| :: ShardFor(hash, m, keys, groups, e.root.shards, e.shards, i)
    requires forall k | k in keys[..n] :: k in groups
    ensures AllSegments(Documents(e.shards)[..n]) == Concat(keys[..n], groups)
  {
    hide Refers;
    if n > 0 {
      assert keys[..n][..n - 1] == keys[..n - 1];
      assert forall k | k in keys[..n - 1] :: k in keys[..n];
      SegmentsInOrder(hash, m, e, keys, groups, n - 1);
      assert Documents(e.shards)[..n][..n - 1] == Documents(e.shards)[..n - 1];
      assert ShardFor(hash, m, keys, groups, e.root.shards, e.shards, n - 1);
    }
  }

  /** What a successful split produces can be merged, and merging gives the manifest back with its segments regrouped by
      folder: each folder's segments together, in their order. */
  lemma {:induction false} SplitThenMerge(hash: ContentHash, m: Manifest, e: Export)
    requires IsSplit(hash, m, e)
    ensures Mergeable(e.root, Documents(e.shards))
    ensures StableGrouping(m.segments, FolderKey, TextLess, AllSegments(Documents(e.shards)))
    ensures multiset(AllSegments(Documents(e.shards))) == multiset(m.segments)
  {
    hide ShardOk, TextLess, FolderKey, ValidatedFolder, Refers;
    var keys, groups :| Grouped(m.segments, FolderKey, TextLess, keys, groups)
                        && |e.shards| == |e.root.shards| == |keys|
                        && forall i | 0 <= i < |keys| :: ShardFor(hash, m, keys, groups, e.root.shards, e.shards, i);
    forall i | 0 <= i < |e.shards| ensures ShardOk(e.root, e.root.shards[i], Documents(e.shards)[i]) {
      SplitShardOk(hash, m, e, keys, groups, i);
    }
    TextOrderIsStrict();
    ConcatIsStableGrouping(m.segments, FolderKey, TextLess, keys, groups);
    assert keys[..|keys|] == keys && Documents(e.shards)[..|keys|] == Documents(e.shards);
    SegmentsInOrder(hash, m, e, keys, groups, |keys|);
    Permutes(m.segments, FolderKey, TextLess, AllSegments(Documents(e.shards)));
  }

  // ---- Folder names ----

  lemma {:induction false} DigitsValue(n: nat)
    ensures DecimalValue(Digits(n)) == n
  {
    if n >= 10 {
      DigitsValue(n / 10);
    } else {
      assert Digits(n)[..0] == "";
    }
  }

  lemma {:induction false} LeadingZero(s: string)
    ensures DecimalValue("0" + s) == DecimalValue(s)
  {
    if s != "" {
      LeadingZero(s[..|s| - 1]);
      assert ("0" + s)[..|s|] == "0" + s[..|s| - 1];
    } else {
      assert "0" + s == "0" && "0"[..0] == "";
    }
  }

  /** Folder names and numbers determine each other. */
  lemma {:induction false} FolderNameParses(n: nat)
    requires 0 < n < U32_LIMIT
    ensures ParseFolderName(FolderName(n)) == Some(n)
  {
    hide Digits, DecimalValue;
    DigitsValue(n);
    DigitsAreDigits(n);
    LeadingZero(Digits(n));
    LeadingZero("0" + Digits(n));
    assert "0" + ("0" + Digits(n)) == "00" + Digits(n);
  }

  lemma {:induction false} BeforeSlash(a: string, b: string, x: string, y: string)
    requires '/' !in a && '/' !in b && a + "/" + x == b + "/" + y
    ensures a == b
  {
    var s := a + "/" + x;
    assert s[..|a|] == a && s[|a|] == '/';
    assert s[..|b|] == b && s[|b|] == '/';
    assert forall i | 0 <= i < |a| :: s[i] == a[i] && a[i] in a;
    assert forall i | 0 <= i < |b| :: s[i] == b[i] && b[i] in b;
  }

  lemma {:induction false} FolderHasNoSlash(folder: string)
    requires ParseFolderName(folder).Some?
    ensures '/' !in folder && folder == FolderName(ParseFolderName(folder).value)
  {
  }

  /** Shards of different folders have different names, so a name stands for one reference. */
  lemma {:induction false} ShardPathsDistinct(n: nat, hash: string, n': nat, hash': string, folder: string,
                                              folder': string)
    requires ParseFolderName(folder) == Some(n) && ParseFolderName(folder') == Some(n')
    requires ShardPath(n, hash) == ShardPath(n', hash')
    ensures folder == folder'
  {
    hide ParseFolderName, FolderName, ShardFile;
    FolderHasNoSlash(folder);
    FolderHasNoSlash(folder');
    BeforeSlash(folder, folder', ShardFile(hash), ShardFile(hash'));
  }
}
