/** What the manifest's names, ranges and checks amount to, in terms of the segments themselves. */
module ManifestLayout {
  import opened Bytes
  import opened Chars
  import opened Grouping
  import opened Terms
  import opened HexOrder
  import opened ManifestShards

  // ---- Folder names and paths ----

  /** A folder name is the folder's number in decimal, padded with zeros to three digits. */
  lemma {:induction false} FolderNameShape(n: nat)
    ensures |FolderName(n)| >= 3 && (forall c | c in FolderName(n) :: '0' <= c <= '9')
    ensures DecimalValue(FolderName(n)) == n
    ensures |FolderName(n)| > 3 ==> FolderName(n)[0] != '0'
    ensures FolderName(7) == "007" && FolderName(42) == "042"
  {
    DigitsAreDigits(n);
    NoLeadingZero(n);
    DigitsValue(n);
    LeadingZero(Digits(n));
    LeadingZero("0" + Digits(n));
    assert "0" + ("0" + Digits(n)) == "00" + Digits(n);
  }

  lemma {:induction false} NoLeadingZero(n: nat)
    ensures Digits(n) != "" && (|Digits(n)| > 1 ==> Digits(n)[0] != '0')
    ensures n > 0 ==> Digits(n)[0] != '0'
  {
    if n >= 10 {
      NoLeadingZero(n / 10);
    }
  }

  /** The folder names are exactly the names of the numbers of 32 bits but 0. */
  lemma {:induction false} FolderParsesExactly(folder: string, n: nat)
    ensures ParseFolderName(folder) == Some(n) <==> 1 <= n <= 0xFFFF_FFFF && folder == FolderName(n)
  {
    hide FolderName, DecimalValue, AllDigits;
    if 1 <= n <= 0xFFFF_FFFF {
      FolderNameParses(n);
    }
  }

  /** A shard's object name is that of its folder and the first 32 characters of its checksum. */
  lemma {:induction false} ShardPathLayout(n: nat, hash: string)
    requires |hash| >= 32
    ensures ShardPath(n, hash) == FolderName(n) + "/manifest-shard-" + hash[..32] + ".json"
  {
    hide FolderName;
    assert FolderName(n) + "/" + ("manifest-shard-" + hash[..32] + ".json")
        == FolderName(n) + "/manifest-shard-" + hash[..32] + ".json";
  }

  /** A hundred batches share a folder. */
  lemma {:induction false} HundredPerFolder(batch: nat, n: nat)
    ensures SegmentFolderNumber(batch) == n <==> 100 * n - 100 < (if batch == 0 then 1 else batch) <= 100 * n
  {
  }

  lemma {:induction false} PartsOfPlain(a: string)
    requires '/' !in a
    ensures Parts(a) == [a]
  {
    if a != "" {
      assert a[0] in a && forall c | c in a[1..] :: c in a;
      PartsOfPlain(a[1..]);
      assert [a[0]] + a[1..] == a;
    }
  }

  lemma {:induction false} PartsOfSlash(a: string, rest: string)
    requires '/' !in a
    ensures Parts(a + "/" + rest) == [a] + Parts(rest)
  {
    var path := a + "/" + rest;
    if a == "" {
      assert path[0] == '/' && path[1..] == rest;
    } else {
      assert a[0] in a && forall c | c in a[1..] :: c in a;
      PartsOfSlash(a[1..], rest);
      assert path[1..] == a[1..] + "/" + rest && path[0] == a[0];
      assert [a[0]] + a[1..] == a;
    }
  }

  lemma {:induction false} FirstPart(path: string)
    ensures '/' !in Parts(path)[0]
    ensures path == if |Parts(path)| == 1 then Parts(path)[0] else Parts(path)[0] + "/" + AfterPart(path)
    ensures |Parts(path)| > 1 ==> Parts(AfterPart(path)) == Parts(path)[1..]
  {
    if path != "" && path[0] != '/' {
      FirstPart(path[1..]);
      var rest := Parts(path[1..]);
      assert path == [path[0]] + path[1..];
      if |rest| > 1 {
        assert AfterPart(path) == AfterPart(path[1..]);
        assert [path[0]] + (rest[0] + "/" + AfterPart(path[1..])) == ([path[0]] + rest[0]) + "/" + AfterPart(path[1..]);
      }
    } else if path != "" {
      assert path == "" + "/" + path[1..] && Parts(path)[1..] == Parts(path[1..]);
    }
  }

  /** The path after its first slash. */
  ghost function AfterPart(path: string): string {
    if path == "" then "" else if path[0] == '/' then path[1..] else AfterPart(path[1..])
  }

  ghost predicate IsName(name: string) {
    '/' !in name && name != "" && name != "." && name != ".."
  }

  /** The path is `folder/file`, or `scope/folder/file`. */
  ghost predicate LiesIn(path: string, folder: string) {
    || (exists file | IsName(file) :: path == folder + "/" + file)
    || (exists scope, file | IsName(scope) && IsName(file) :: path == scope + "/" + (folder + "/" + file))
  }

  lemma {:induction false} FolderOfPathExactly(path: string, folder: string)
    requires ParseFolderName(folder).Some?
    ensures FolderOfPath(path) == Some(folder) <==> LiesIn(path, folder)
  {
    hide ParseFolderName, FolderName;
    FolderHasNoSlash(folder);
    if LiesIn(path, folder) {
      if file :| IsName(file) && path == folder + "/" + file {
        PartsOfSlash(folder, file);
        PartsOfPlain(file);
      } else {
        var scope, file :| IsName(scope) && IsName(file) && path == scope + "/" + (folder + "/" + file);
        PartsOfSlash(scope, folder + "/" + file);
        PartsOfSlash(folder, file);
        PartsOfPlain(file);
      }
    }
    if FolderOfPath(path) == Some(folder) {
      PathOfParts(path, folder);
    }
  }

  lemma {:induction false} PathOfParts(path: string, folder: string)
    requires FolderOfPath(path) == Some(folder)
    ensures LiesIn(path, folder)
  {
    hide ParseFolderName, FolderName, Parts, AfterPart;
    var parts, rest := Parts(path), AfterPart(path);
    FirstPart(path);
    FirstPart(rest);
    if |parts| == 2 {
      assert parts[1..][0] == parts[1];
      assert IsName(parts[1]) && path == folder + "/" + parts[1];
    } else {
      var last := AfterPart(rest);
      FirstPart(last);
      assert parts[1..][0] == parts[1] && parts[1..][1..][0] == parts[2];
      assert IsName(parts[0]) && IsName(parts[2]) && path == parts[0] + "/" + (folder + "/" + parts[2]);
    }
  }

  // ---- Validation ----

  /** Both bounds are present and ordered hex numbers, or neither is. */
  ghost predicate PairOk(min: Option<string>, max: Option<string>) {
    match (min, max)
    case (None, None) => true
    case (Some(low), Some(high)) => IsHex(low) && IsHex(high) && (low == high || TextLess(low, high))
    case _ => false
  }

  /** What the row groups of a segment must satisfy, group by group. */
  ghost predicate GroupsOk(s: Segment) {
    && |s.rowCounts| == |s.groupMinSeqs| == |s.groupMaxSeqs|
    && forall g | 0 <= g < |s.rowCounts| ::
         && s.rowCounts[g] >= 1 && s.groupMinSeqs[g] >= 1 && s.groupMaxSeqs[g] >= s.groupMinSeqs[g]
  }

  ghost predicate ColumnOk(x: ColumnBounds, s: Segment) {
    && |x.mins| == |x.maxs| == |x.nulls| == |s.rowCounts| && PairOk(x.minValue, x.maxValue)
    && forall g | 0 <= g < |s.rowCounts| ::
         && PairOk(x.mins[g], x.maxs[g])
         && (x.nulls[g].Some? ==> 0 <= x.nulls[g].value <= s.rowCounts[g])
         && (x.nulls[g] == Some(s.rowCounts[g]) ==> x.mins[g] == None)
  }

  /** A segment is filed under a folder exactly when its groups are consistent and add up to its rows, its columns have
      bounds for each group, and it lies in the folder of its batch. */
  lemma {:induction false} ValidatedExactly(s: Segment, folder: string)
    ensures ValidatedFolder(s) == Ok(folder) <==>
            && s.rowCounts != [] && |s.rowCounts| == s.rowGroupCount && GroupsOk(s)
            && Sum(s.rowCounts) == s.rowCount && s.rowCount <= 0x7FFF_FFFF_FFFF_FFFF
            && (forall i | 0 <= i < |s.indexes| :: ColumnOk(s.indexes[i], s))
            && s.batch <= 0x7FFF_FFFF
            && exists n: nat | 100 * n - 100 < (if s.batch == 0 then 1 else s.batch) <= 100 * n ::
                 folder == FolderName(n) && LiesIn(s.path, folder)
  {
    hide FolderOfPath, LiesIn, FolderName, ParseFolderName;
    assert PackedOk(s) <==> && s.rowCounts != [] && |s.rowCounts| == s.rowGroupCount && GroupsOk(s)
                            && Sum(s.rowCounts) == s.rowCount && s.rowCount <= 0x7FFF_FFFF_FFFF_FFFF
                            && (forall i | 0 <= i < |s.indexes| :: ColumnOk(s.indexes[i], s)) by {
      PackedExactly(s);
    }
    if PackedOk(s) && s.batch <= 0x7FFF_FFFF {
      FiledExactly(s, folder);
    }
  }

  lemma {:induction false} FiledExactly(s: Segment, folder: string)
    requires PackedOk(s) && s.batch <= 0x7FFF_FFFF
    ensures ValidatedFolder(s) == Ok(folder) <==>
            exists n: nat | 100 * n - 100 < (if s.batch == 0 then 1 else s.batch) <= 100 * n ::
              folder == FolderName(n) && LiesIn(s.path, folder)
  {
    hide LiesIn, FolderName, PackedOk, FolderOfPath;
    var n := SegmentFolderNumber(s.batch);
    FolderNameParses(n);
    HundredPerFolder(s.batch, n);
    FolderOfPathExactly(s.path, FolderName(n));
    FolderOfPathParses(s.path);
    if m: nat :| 100 * m - 100 < (if s.batch == 0 then 1 else s.batch) <= 100 * m && folder == FolderName(m) {
      HundredPerFolder(s.batch, m);
    }
  }

  lemma {:induction false} FolderOfPathParses(path: string)
    ensures FolderOfPath(path).Some? ==>
              ParseFolderName(FolderOfPath(path).value).Some?
              && FolderOfPath(path).value == FolderName(ParseFolderName(FolderOfPath(path).value).value)
  {
    hide Parts, FolderName;
  }

  lemma {:induction false} PackedExactly(s: Segment)
    ensures PackedOk(s) <==> && s.rowCounts != [] && |s.rowCounts| == s.rowGroupCount && GroupsOk(s)
                             && Sum(s.rowCounts) == s.rowCount && s.rowCount <= 0x7FFF_FFFF_FFFF_FFFF
                             && (forall i | 0 <= i < |s.indexes| :: ColumnOk(s.indexes[i], s))
  {
    hide Sum, IsHex, TextLess;
    forall i | 0 <= i < |s.indexes| && |s.rowCounts| > 0
      ensures IndexOk(s.indexes[i], s.rowCounts) <==> ColumnOk(s.indexes[i], s)
    {
      IndexExactly(s.indexes[i], s);
    }
  }

  lemma {:induction false} IndexExactly(x: ColumnBounds, s: Segment)
    ensures IndexOk(x, s.rowCounts) <==> ColumnOk(x, s)
  {
    hide IsHex, TextLess;
    forall a, b ensures BoundsOk(a, b) <==> PairOk(a, b) {
      if a.Some? && b.Some? {
        TextOrder(a.value, b.value);
      }
    }
  }

  lemma {:induction false} SumConcat(a: seq<int>, b: seq<int>, x: int)
    ensures Sum(a + b) == Sum(a) + Sum(b) && Sum([x]) == x
  {
    assert [x][..0] == [];
    if b == [] {
      assert a + b == a;
    } else {
      SumConcat(a, b[..|b| - 1], x);
      assert (a + b)[..|a + b| - 1] == a + b[..|b| - 1];
    }
  }

  // ---- What a split produces ----

  lemma {:induction false} RangeIsExtreme(segments: seq<Segment>)
    requires segments != []
    ensures forall s | s in segments :: MinSeq(segments) <= s.minSeq && s.maxSeq <= MaxSeq(segments)
    ensures (exists s | s in segments :: s.minSeq == MinSeq(segments))
    ensures (exists s | s in segments :: s.maxSeq == MaxSeq(segments))
  {
    var init, last := segments[..|segments| - 1], segments[|segments| - 1];
    assert last in segments && segments == init + [last];
    if init != [] {
      RangeIsExtreme(init);
      var a :| a in init && a.minSeq == MinSeq(init);
      var b :| b in init && b.maxSeq == MaxSeq(init);
      assert a in segments && b in segments;
    }
  }

  /** A loaded shard is accepted exactly when it is of the shard version, has the folder, table, namespace and schema
      version of its reference and root, its object is named by its folder and checksum, all its segments are filed
      under its folder, and the reference has their number and their least and greatest sequence numbers. */
  lemma {:induction false} ShardAcceptedExactly(root: Manifest, r: ShardRef, shard: Shard)
    requires shard.segments != []
    ensures ShardOk(root, r, shard) <==>
            && shard.version == 2 && shard.folder == r.folder && shard.table == root.table
            && shard.namespace == root.namespace && shard.schemaVersion == root.schemaVersion
            && (exists n: nat | 1 <= n <= 0xFFFF_FFFF :: r.folder == FolderName(n) && r.path == ShardPath(n, r.hash))
            && r.segmentCount == |shard.segments| <= 0xFFFF_FFFF
            && (forall s | s in shard.segments :: ValidatedFolder(s) == Ok(r.folder))
            && Range(shard.segments, r.minSeq, r.maxSeq)
  {
    hide FolderName, ParseFolderName, ShardPath, ValidatedFolder, MinSeq, MaxSeq;
    RangeIsExtreme(shard.segments);
    RangeUnique(shard.segments, r.minSeq, r.maxSeq);
    forall n: nat ensures ParseFolderName(r.folder) == Some(n) <==> 1 <= n <= 0xFFFF_FFFF && r.folder == FolderName(n) {
      FolderParsesExactly(r.folder, n);
    }
    if ParseFolderName(r.folder).Some? {
      var n := ParseFolderName(r.folder).value;
      assert ParseFolderName(r.folder) == Some(n);
    }
    assert (forall i | 0 <= i < |shard.segments| :: ValidatedFolder(shard.segments[i]) == Ok(shard.folder))
      <==> forall s | s in shard.segments :: ValidatedFolder(s) == Ok(shard.folder);
  }

  /** The least and greatest sequence numbers of the segments. */
  ghost predicate Range(segments: seq<Segment>, low: int, high: int) {
    && (forall s | s in segments :: low <= s.minSeq && s.maxSeq <= high)
    && (exists s | s in segments :: s.minSeq == low) && (exists s | s in segments :: s.maxSeq == high)
  }

  lemma {:induction false} RangeUnique(segments: seq<Segment>, low: int, high: int)
    requires segments != []
    ensures Range(segments, low, high) <==> low == MinSeq(segments) && high == MaxSeq(segments)
  {
    hide MinSeq, MaxSeq;
    RangeIsExtreme(segments);
  }

  /** Every shard of an export holds exactly the segments of its folder, in their order; its reference counts them and
      gives the smallest and largest sequence numbers among them. */
  lemma {:induction false} ShardHoldsFolder(hash: ContentHash, m: Manifest, e: Export, i: nat)
    requires IsSplit(hash, m, e) && i < |e.shards|
    ensures |e.root.shards| == |e.shards|
    ensures var shard, ref := e.shards[i].1, e.root.shards[i];
            && shard == Shard(2, ref.folder, m.table, m.namespace, m.schemaVersion, shard.segments)
            && shard.segments == Of(m.segments, FolderKey, ref.folder) && shard.segments != []
            && ref.segmentCount == |shard.segments| && ref.hash == hash(shard) && ref.path == e.shards[i].0
            && (forall s | s in shard.segments :: ref.minSeq <= s.minSeq && s.maxSeq <= ref.maxSeq)
            && (exists s | s in shard.segments :: s.minSeq == ref.minSeq)
            && (exists s | s in shard.segments :: s.maxSeq == ref.maxSeq)
  {
    hide FolderKey, TextLess, ValidatedFolder, ParseFolderName, ShardPath, MinSeq, MaxSeq;
    var keys, groups :| Grouped(m.segments, FolderKey, TextLess, keys, groups)
                        && |e.shards| == |e.root.shards| == |keys|
                        && forall i | 0 <= i < |keys| :: ShardFor(hash, m, keys, groups, e.root.shards, e.shards, i);
    assert ShardFor(hash, m, keys, groups, e.root.shards, e.shards, i);
    RangeIsExtreme(groups[keys[i]]);
  }

  /** The root is the manifest in the sharded layout's version, without segments. */
  lemma {:induction false} RootOfSplit(hash: ContentHash, m: Manifest, e: Export)
    requires IsSplit(hash, m, e)
    ensures e.root == Manifest(2, m.table, m.namespace, m.schemaVersion, e.root.shards, [], e.root.files, m.other)
  {
    hide Grouped, ShardFor, ValidatedFolder;
  }

  /** Every segment is in the shard of its folder. */
  lemma {:induction false} EverySegmentIsExported(hash: ContentHash, m: Manifest, e: Export, s: Segment)
    requires IsSplit(hash, m, e) && s in m.segments
    ensures exists i | 0 <= i < |e.shards| :: s in e.shards[i].1.segments && e.shards[i].1.folder == FolderKey(s)
  {
    hide FolderKey, TextLess, ValidatedFolder, Refers;
    var keys, groups :| Grouped(m.segments, FolderKey, TextLess, keys, groups)
                        && |e.shards| == |e.root.shards| == |keys|
                        && forall i | 0 <= i < |keys| :: ShardFor(hash, m, keys, groups, e.root.shards, e.shards, i);
    var i :| 0 <= i < |keys| && keys[i] == FolderKey(s);
    assert ShardFor(hash, m, keys, groups, e.root.shards, e.shards, i);
    InOf(m.segments, s);
  }

  lemma {:induction false} InOf(segments: seq<Segment>, s: Segment)
    requires s in segments
    ensures s in Of(segments, FolderKey, FolderKey(s))
  {
    hide FolderKey;
    var init, last := segments[..|segments| - 1], segments[|segments| - 1];
    if s in init {
      InOf(init, s);
    } else {
      assert s == last;
    }
  }

  /** Two exports of the same manifest have the same shards. */
  lemma {:induction false} SplitUnique(hash: ContentHash, m: Manifest, e: Export, e': Export)
    requires IsSplit(hash, m, e) && IsSplit(hash, m, e')
    ensures e.shards == e'.shards && e.root.shards == e'.root.shards
  {
    hide FolderKey, TextLess, ValidatedFolder, ParseFolderName, ShardPath, ShardRange;
    var keys, groups :| Grouped(m.segments, FolderKey, TextLess, keys, groups)
                        && |e.shards| == |e.root.shards| == |keys|
                        && forall i | 0 <= i < |keys| :: ShardFor(hash, m, keys, groups, e.root.shards, e.shards, i);
    var keys', groups' :| Grouped(m.segments, FolderKey, TextLess, keys', groups')
                          && |e'.shards| == |e'.root.shards| == |keys'|
                          && forall i | 0 <= i < |keys'| ::
                            ShardFor(hash, m, keys', groups', e'.root.shards, e'.shards, i);
    TextOrderIsStrict();
    GroupedUnique(m.segments, FolderKey, TextLess, keys, groups, keys', groups');
    forall i | 0 <= i < |keys| ensures e.shards[i] == e'.shards[i] && e.root.shards[i] == e'.root.shards[i] {
      assert ShardFor(hash, m, keys, groups, e.root.shards, e.shards, i);
      assert ShardFor(hash, m, keys, groups, e'.root.shards, e'.shards, i);
    }
  }
}
