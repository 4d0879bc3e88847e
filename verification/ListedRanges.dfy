/** The key ranges that compaction and scans list for a segment, and why they are true of its rows. */
module ListedRanges {
  import opened Bytes
  import opened KeyBounds
  import opened SegmentIndex
  import opened CandidateQuery
  import opened FlushedIndex
  import RangePrecision
  import opened Compaction
  import opened ColdVersions
  import P = Publication
  import CompactionSafety
  import SkipSafety

  // ---- Tuple bounds of a segment ----

  /** The keys of all rows, in order. */
  ghost function AllKeys(key: seq<string>, batches: seq<Batch>): seq<KeyTuple>
    requires ValidBatches(batches) && AllKeyed(key, batches)
  {
    if batches == [] then []
    else
      var init, last := batches[..|batches| - 1], batches[|batches| - 1];
      AllKeys(key, init) + last.Keys(key, last.numRows)
  }

  lemma {:induction false} KeysHas(b: Batch, key: seq<string>, n: nat, i: nat)
    requires b.Valid() && b.HasKey(key) && i < n <= b.numRows && b.AllUsable(key, n)
    ensures b.KeyOf(key, i) in b.Keys(key, n)
  {
    if i < n - 1 {
      KeysHas(b, key, n - 1, i);
    }
  }

  lemma {:induction false} AllKeysHas(key: seq<string>, batches: seq<Batch>, g: nat, i: nat)
    requires ValidBatches(batches) && AllKeyed(key, batches) && g < |batches| && i < batches[g].numRows
    ensures batches[g].KeyOf(key, i) in AllKeys(key, batches)
  {
    hide Batch.KeyOf, Batch.Keys;
    var n := |batches| - 1;
    assert batches[g] in batches;
    if g < n {
      AllKeysHas(key, batches[..n], g, i);
    } else {
      KeysHas(batches[n], key, batches[n].numRows, i);
    }
  }

  lemma {:induction false} AllKeysSize(key: seq<string>, batches: seq<Batch>)
    requires ValidBatches(batches) && AllKeyed(key, batches)
    ensures |AllKeys(key, batches)| == TotalRows(batches)
  {
    if batches != [] {
      AllKeysSize(key, batches[..|batches| - 1]);
    }
  }

  /** Feeds the batches to the tuple bounds, as the segment is written. There are bounds exactly when every row has its
      whole key. */
  method TupleBoundsOf(key: seq<string>, batches: seq<Batch>) returns (bounds: Option<Interval>)
    requires ValidBatches(batches)
    ensures bounds.Some? <==> key != [] && AllKeyed(key, batches) && TotalRows(batches) > 0
    ensures bounds.Some? ==> Extremes(AllKeys(key, batches), bounds.value.0, bounds.value.1)
  {
    hide Batch.Valid, Batch.Keys, KeyBoundsBuilder.Valid, Extremes;
    var builder := new KeyBoundsBuilder();
    var rows := 0;
    assert batches[..0] == [];
    for g := 0 to |batches|
      invariant builder.Valid() && (key != [] || g == 0) && AllKeyed(key, batches[..g])
      invariant builder.keys == AllKeys(key, batches[..g]) && rows == TotalRows(batches[..g])
      invariant fresh(builder)
    {
      var b := batches[g];
      assert b in batches && batches[..g + 1] == batches[..g] + [b] && batches[..g + 1][..g] == batches[..g];
      KeyedMore(key, batches[..g], b);
      var ok := builder.AddBatch(b, key);
      if !ok {
        NotKeyed(key, batches, g);
        return None;
      }
      rows := rows + b.numRows;
    }
    assert batches[..|batches|] == batches;
    AllKeysSize(key, batches);
    bounds := builder.Finish(rows);
  }

  lemma {:induction false} NotKeyed(key: seq<string>, batches: seq<Batch>, g: nat)
    requires ValidBatches(batches) && g < |batches|
    ensures AllKeyed(key, batches) ==> batches[g].HasKey(key) && batches[g].AllUsable(key, batches[g].numRows)
  {
    assert batches[g] in batches;
  }

  // ---- The range listed for a segment ----

  /** A segment as it was written: its batches, and for each column of the primary key what its index row was flushed
      from, that row, and the values; with the tuple bounds, if the key is composite. */
  datatype Origin = Origin(key: seq<string>, batches: seq<Batch>, sources: seq<Source>, rows: seq<IndexRow>,
                           columns: seq<seq<Values>>, keys: seq<seq<Values>>, tuple: Option<Interval>)
  {
    ghost predicate Holds() {
      && key != [] && |key| == |sources| == |rows| == |columns| == |keys|
      && ValidBatches(batches) && HasKeys(key, batches)
      && (forall c | 0 <= c < |key| :: ColumnHolds(c))
      && (tuple.Some? ==> AllKeyed(key, batches) && Extremes(AllKeys(key, batches), tuple.value.0, tuple.value.1))
    }

    ghost predicate ColumnHolds(c: nat)
      requires c < |key| == |sources| == |rows| == |columns| == |keys|
    {
      && sources[c].name == key[c] && sources[c].batches == batches
      && SourceHolds(sources[c], columns[c], keys[c]) && OnceFlushed(rows[c].subject, sources[c], rows[c])
    }

    /** The key of one of the segment's rows. */
    ghost predicate HasKey(k: KeyTuple)
      requires ValidBatches(batches) && HasKeys(key, batches)
    {
      exists g, i | 0 <= g < |batches| && 0 <= i < batches[g].numRows ::
        batches[g].Usable(key, i) && batches[g].KeyOf(key, i) == k
    }
  }

  predicate AllBounds(rows: seq<IndexRow>) {
    forall c | 0 <= c < |rows| :: rows[c].minValue.Some? && rows[c].maxValue.Some?
  }

  /** The range listed from the key columns' index rows; none when a column has no bounds. The tuple bounds may be left
      out, as they are unless all segments have them. */
  function ListedRange(rowCount: int, rows: seq<IndexRow>, tuple: Option<Interval>): Option<SegmentRange> {
    if AllBounds(rows) then
      var bounds := seq(|rows|, c requires 0 <= c < |rows| && rows[c].minValue.Some? && rows[c].maxValue.Some? =>
        (rows[c].minValue.value, rows[c].maxValue.value));
      Some(SegmentRange(rowCount, bounds, tuple))
    else None
  }

  lemma {:induction false} ColumnCovers(o: Origin, c: nat, g: nat, i: nat)
    requires o.Holds() && c < |o.key| && g < |o.batches| && i < o.batches[g].numRows && o.batches[g].Usable(o.key, i)
    ensures var v := o.batches[g].KeyOf(o.key, i)[c];
            && (o.rows[c].minValue.Some? ==> AtMost(o.rows[c].minValue.value, v))
            && (o.rows[c].maxValue.Some? ==> AtMost(v, o.rows[c].maxValue.value))
  {
    hide OnceFlushed, AtMost, AllTruthful;
    assert o.ColumnHolds(c);
    var src, b := o.sources[c], o.batches[g];
    OnceFlushedDescribes(o.rows[c].subject, src, o.rows[c], o.columns[c], o.keys[c]);
    assert b in o.batches && b.HasKey(o.key) && b.Valid() && o.key[c] in o.key;
    assert CellIs(b.columns[o.key[c]][i], o.columns[c][g][i]);
    assert DescribesRow(o.rows[c], o.columns[c][g][i], o.keys[c][g][i], src.hash);
  }

  /** The listed range covers the key of every row, column by column and as a tuple. */
  lemma {:induction false} ListedRangeCovers(o: Origin, range: SegmentRange, k: KeyTuple)
    requires o.Holds() && o.HasKey(k) && (range.tuple.None? || range.tuple == o.tuple)
    requires ListedRange(range.rowCount, o.rows, range.tuple) == Some(range)
    ensures k != [] && CoversKey(range, k)
  {
    hide AtMost, FrameTuple, Origin.ColumnHolds;
    var g, i :| 0 <= g < |o.batches| && 0 <= i < o.batches[g].numRows && o.batches[g].Usable(o.key, i)
                && o.batches[g].KeyOf(o.key, i) == k;
    forall c | 0 <= c < |k| ensures AtMost(o.rows[c].minValue.value, k[c]) && AtMost(k[c], o.rows[c].maxValue.value) {
      ColumnCovers(o, c, g, i);
    }
    if o.tuple.Some? {
      AllKeysHas(o.key, o.batches, g, i);
    }
  }

  /** The rows are those of the segment as it was written, and the range is the one listed for it. */
  ghost predicate Lists(o: Origin, range: SegmentRange, rows: set<ColdRow>) {
    && o.Holds() && (forall r | r in rows :: o.HasKey(r.key))
    && (range.tuple.None? || range.tuple == o.tuple)
    && ListedRange(range.rowCount, o.rows, range.tuple) == Some(range)
  }

  lemma {:induction false} ListedCovers(o: Origin, range: SegmentRange, rows: set<ColdRow>, r: ColdRow)
    requires Lists(o, range, rows) && r in rows
    ensures r.key != [] && CoversKey(range, r.key)
  {
    hide Origin.Holds, CoversKey;
    ListedRangeCovers(o, range, r.key);
  }

  /** So what compaction plans from is true of the active segments, */
  lemma {:induction false} ListedDescribe(s: P.State, ids: seq<P.SegId>, segs: seq<SegmentRange>, origins: seq<Origin>)
    requires |ids| == |segs| == |origins| && (forall i, j | 0 <= i < j < |ids| :: ids[i] != ids[j])
    requires forall id :: id in ids <==> id in P.ActiveIds(s.segments)
    requires forall i | 0 <= i < |ids| && ids[i] in s.segments :: Lists(origins[i], segs[i], s.segments[ids[i]].rows)
    ensures CompactionSafety.Describes(s, ids, segs)
  {
    hide Lists, CoversKey;
    forall i, r | 0 <= i < |ids| && ids[i] in s.segments && r in s.segments[ids[i]].rows
      ensures r.key != [] && CoversKey(segs[i], r.key)
    {
      ListedCovers(origins[i], segs[i], s.segments[ids[i]].rows, r);
    }
  }

  /** and so is what the disjointness test looks at. */
  lemma {:induction false} ListedRangesHold(segments: seq<set<ColdRow>>, segs: seq<SegmentRange>, origins: seq<Origin>)
    requires |segments| == |segs| == |origins|
    requires forall i | 0 <= i < |segs| :: Lists(origins[i], segs[i], segments[i])
    ensures SkipSafety.RangesHold(segments, segs)
  {
    hide Lists, CoversKey;
    forall i, r | 0 <= i < |segs| && r in segments[i] ensures CoversKey(segs[i], r.key) {
      ListedCovers(origins[i], segs[i], segments[i], r);
    }
  }

  // ---- The listed range is exact ----

  lemma {:induction false} KeysFrom(b: Batch, key: seq<string>, n: nat, k: KeyTuple)
    requires b.Valid() && b.HasKey(key) && n <= b.numRows && b.AllUsable(key, n) && k in b.Keys(key, n)
    ensures exists i | 0 <= i < n :: b.KeyOf(key, i) == k
  {
    hide Batch.KeyOf;
    if n > 0 && k in b.Keys(key, n - 1) {
      KeysFrom(b, key, n - 1, k);
    }
  }

  ghost predicate RowHasKey(key: seq<string>, batches: seq<Batch>, g: nat, i: nat, k: KeyTuple)
    requires ValidBatches(batches) && AllKeyed(key, batches)
  {
    g < |batches| && i < batches[g].numRows && batches[g] in batches && batches[g].KeyOf(key, i) == k
  }

  lemma {:induction false} AllKeysFrom(key: seq<string>, batches: seq<Batch>, k: KeyTuple)
    requires ValidBatches(batches) && AllKeyed(key, batches) && k in AllKeys(key, batches)
    ensures exists g: nat, i: nat :: RowHasKey(key, batches, g, i, k)
  {
    hide Batch.KeyOf, Batch.Keys;
    var n := |batches| - 1;
    var init, last := batches[..n], batches[n];
    assert last in batches;
    if k in AllKeys(key, init) {
      AllKeysFrom(key, init, k);
      var g: nat, i: nat :| RowHasKey(key, init, g, i, k);
      assert RowHasKey(key, batches, g, i, k);
    } else {
      KeysFrom(last, key, last.numRows, k);
      var i :| 0 <= i < last.numRows && last.KeyOf(key, i) == k;
      assert RowHasKey(key, batches, n, i, k);
    }
  }

  /** In a key column, the value of a row is that of its key. */
  lemma {:induction false} ColumnOfKey(o: Origin, c: nat, g: nat, i: nat, k: KeyTuple)
    requires o.Holds() && AllKeyed(o.key, o.batches) && c < |o.key| && RowHasKey(o.key, o.batches, g, i, k)
    ensures |k| == |o.key| && g < |o.columns[c]| && i < |o.columns[c][g]| && o.columns[c][g][i] == Some(k[c])
  {
    hide OnceFlushed, AllTruthful, Extremes;
    assert o.ColumnHolds(c);
    var b := o.batches[g];
    assert b.HasKey(o.key) && b.Valid() && o.key[c] in o.key && b.Usable(o.key, i);
    assert CellIs(b.columns[o.key[c]][i], o.columns[c][g][i]);
  }

  /** So the values of a key column are those of the keys. */
  lemma {:induction false} ValueIffKey(o: Origin, c: nat, v: ByteString)
    requires o.Holds() && AllKeyed(o.key, o.batches) && c < |o.key|
    ensures RangePrecision.HasValue(o.columns[c], v) <==>
            exists k | k in AllKeys(o.key, o.batches) :: c < |k| && k[c] == v
  {
    hide Batch.KeyOf, Origin.ColumnHolds, Extremes;
    if RangePrecision.HasValue(o.columns[c], v) {
      var g :| 0 <= g < |o.columns[c]| && RangePrecision.Present(o.columns[c][g], v);
      var i :| 0 <= i < |o.columns[c][g]| && o.columns[c][g][i] == Some(v);
      ColumnShape(o, c, g);
      assert o.batches[g] in o.batches && o.batches[g].Usable(o.key, i);
      var k := o.batches[g].KeyOf(o.key, i);
      AllKeysHas(o.key, o.batches, g, i);
      assert RowHasKey(o.key, o.batches, g, i, k);
      ColumnOfKey(o, c, g, i, k);
    }
    if k :| k in AllKeys(o.key, o.batches) && c < |k| && k[c] == v {
      AllKeysFrom(o.key, o.batches, k);
      var g: nat, i: nat :| RowHasKey(o.key, o.batches, g, i, k);
      ColumnOfKey(o, c, g, i, k);
      assert o.columns[c][g][i] in o.columns[c][g] && RangePrecision.Present(o.columns[c][g], v);
    }
  }

  lemma {:induction false} ColumnShape(o: Origin, c: nat, g: nat)
    requires o.Holds() && c < |o.key| && g < |o.columns[c]|
    ensures g < |o.batches| && |o.columns[c][g]| == o.batches[g].numRows && o.batches[g].Valid()
  {
    hide OnceFlushed, AllTruthful, Extremes;
    assert o.ColumnHolds(c);
  }

  lemma {:induction false} KeyColumnExact(o: Origin, c: nat)
    requires o.Holds() && AllKeyed(o.key, o.batches) && AllKeys(o.key, o.batches) != [] && c < |o.key|
    requires RangePrecision.ExactSource(o.sources[c], o.columns[c])
    requires forall k | k in AllKeys(o.key, o.batches) :: c < |k|
    ensures o.rows[c].minValue.Some? && o.rows[c].maxValue.Some?
    ensures ColumnExact((o.rows[c].minValue.value, o.rows[c].maxValue.value), AllKeys(o.key, o.batches), c)
  {
    hide RangePrecision.ExactSource, RangePrecision.HasValue, AtMost, Batch.KeyOf, Origin.ColumnHolds, AllKeys,
      Extremes;
    var keys, r := AllKeys(o.key, o.batches), o.rows[c];
    OnceBoundsExact(o, c);
    assert keys[0] in keys;
    ValueIffKey(o, c, keys[0][c]);
    ValueIffKey(o, c, r.minValue.value);
    ValueIffKey(o, c, r.maxValue.value);
    forall k | k in keys ensures Compaction.Within(k[c], (r.minValue.value, r.maxValue.value)) {
      KeyCovered(o, c, k);
    }
  }

  lemma {:induction false} KeyCovered(o: Origin, c: nat, k: KeyTuple)
    requires o.Holds() && AllKeyed(o.key, o.batches) && c < |o.key| && k in AllKeys(o.key, o.batches) && c < |k|
    ensures o.rows[c].minValue.Some? ==> AtMost(o.rows[c].minValue.value, k[c])
    ensures o.rows[c].maxValue.Some? ==> AtMost(k[c], o.rows[c].maxValue.value)
  {
    hide AtMost, Origin.ColumnHolds, Extremes;
    AllKeysFrom(o.key, o.batches, k);
    var g: nat, i: nat :| RowHasKey(o.key, o.batches, g, i, k);
    assert o.batches[g].Usable(o.key, i);
    ColumnCovers(o, c, g, i);
  }

  lemma {:induction false} OnceBoundsExact(o: Origin, c: nat)
    requires o.Holds() && c < |o.key| && RangePrecision.ExactSource(o.sources[c], o.columns[c])
    ensures o.rows[c].minValue.Some? <==> exists v :: RangePrecision.HasValue(o.columns[c], v)
    ensures o.rows[c].maxValue.Some? <==> exists v :: RangePrecision.HasValue(o.columns[c], v)
    ensures o.rows[c].minValue.Some? ==> RangePrecision.HasValue(o.columns[c], o.rows[c].minValue.value)
    ensures o.rows[c].maxValue.Some? ==> RangePrecision.HasValue(o.columns[c], o.rows[c].maxValue.value)
  {
    hide Flushed, AllTruthful, Extremes, RangePrecision.HasValue;
    assert o.ColumnHolds(c);
    var src, r := o.sources[c], o.rows[c];
    if Flushed(r.subject, src, r) {
      RangePrecision.RowBoundsExact(r.subject, src, r, o.columns[c], o.keys[c]);
    } else {
      RangePrecision.RowBoundsExact(r.subject, src.(key := None), r, o.columns[c], o.keys[c]);
    }
  }

  lemma {:induction false} KeyLengths(key: seq<string>, batches: seq<Batch>, k: KeyTuple)
    requires ValidBatches(batches) && AllKeyed(key, batches) && k in AllKeys(key, batches)
    ensures |k| == |key|
  {
    AllKeysFrom(key, batches, k);
    var g: nat, i: nat :| RowHasKey(key, batches, g, i, k);
  }

  /** With exact statistics a segment whose rows all have their keys has a listed range, and it is exact: each column's
      ends are values of its keys, and the tuple's ends are keys. */
  lemma {:induction false} ListedRangeExact(o: Origin, rowCount: int, tuple: Option<Interval>)
    requires o.Holds() && AllKeyed(o.key, o.batches) && TotalRows(o.batches) > 0 && (tuple.None? || tuple == o.tuple)
    requires forall c | 0 <= c < |o.key| :: RangePrecision.ExactSource(o.sources[c], o.columns[c])
    ensures var range := ListedRange(rowCount, o.rows, tuple);
            && range.Some? && range.value.rowCount == rowCount && range.value.tuple == tuple
            && |range.value.bounds| == |o.key| && ExactFor(range.value, AllKeys(o.key, o.batches))
  {
    hide RangePrecision.ExactSource, ColumnExact, AllKeys, AllKeyed, Origin.ColumnHolds, Extremes;
    AllKeysSize(o.key, o.batches);
    var keys := AllKeys(o.key, o.batches);
    forall k | k in keys ensures |k| == |o.key| {
      KeyLengths(o.key, o.batches, k);
    }
    forall c | 0 <= c < |o.key|
      ensures o.rows[c].minValue.Some? && o.rows[c].maxValue.Some?
      ensures ColumnExact((o.rows[c].minValue.value, o.rows[c].maxValue.value), keys, c)
    {
      KeyColumnExact(o, c);
    }
  }
}
