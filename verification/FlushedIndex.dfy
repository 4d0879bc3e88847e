/** The index row a flush writes for a column, and the whole range-pruning path from flush to scan. */
module FlushedIndex {
  import opened Bytes
  import opened KeyBounds
  import opened SegmentIndex
  import opened CandidateQuery
  import opened ValueSummary

  // ---- The membership summary of the primary key ----

  ghost predicate ValidBatches(batches: seq<Batch>) {
    forall b | b in batches :: b.Valid()
  }

  ghost predicate HasKeys(key: seq<string>, batches: seq<Batch>) {
    forall b | b in batches :: b.HasKey(key)
  }

  /** A key's columns back to back, as they are hashed. */
  function Joined(key: KeyTuple): ByteString {
    if key == [] then [] else Joined(key[..|key| - 1]) + key[|key| - 1]
  }

  /** The hashes of the keys among the first `n` rows; a row with an unusable column has none. */
  ghost function BatchHashes(hash: ByteString -> nat, key: seq<string>, b: Batch, n: nat): seq<nat>
    requires b.Valid() && b.HasKey(key) && n <= b.numRows
  {
    if n == 0 then []
    else
      BatchHashes(hash, key, b, n - 1) + if b.Usable(key, n - 1) then [hash(Joined(b.KeyOf(key, n - 1)))] else []
  }

  ghost function KeyHashes(hash: ByteString -> nat, key: seq<string>, batches: seq<Batch>): seq<nat>
    requires ValidBatches(batches) && HasKeys(key, batches)
  {
    if batches == [] then []
    else
      var last := batches[|batches| - 1];
      KeyHashes(hash, key, batches[..|batches| - 1]) + BatchHashes(hash, key, last, last.numRows)
  }

  ghost function TotalRows(batches: seq<Batch>): nat {
    if batches == [] then 0 else TotalRows(batches[..|batches| - 1]) + batches[|batches| - 1].numRows
  }

  /** Every row has a whole key. */
  ghost predicate AllKeyed(key: seq<string>, batches: seq<Batch>)
    requires ValidBatches(batches)
  {
    HasKeys(key, batches) && forall b | b in batches :: b.AllUsable(key, b.numRows)
  }

  lemma {:induction false} BatchHashesSize(hash: ByteString -> nat, key: seq<string>, b: Batch, n: nat)
    requires b.Valid() && b.HasKey(key) && n <= b.numRows
    ensures |BatchHashes(hash, key, b, n)| <= n
    ensures |BatchHashes(hash, key, b, n)| == n <==> b.AllUsable(key, n)
    ensures forall i | 0 <= i < n && b.Usable(key, i) :: hash(Joined(b.KeyOf(key, i))) in BatchHashes(hash, key, b, n)
  {
    hide Batch.Usable, Batch.KeyOf, Joined;
    if n > 0 {
      BatchHashesSize(hash, key, b, n - 1);
    }
  }

  /** There are as many hashes as rows exactly when every row has its key, and each key's hash is among them. */
  lemma {:induction false} KeyHashesSize(hash: ByteString -> nat, key: seq<string>, batches: seq<Batch>)
    requires ValidBatches(batches) && HasKeys(key, batches)
    ensures |KeyHashes(hash, key, batches)| <= TotalRows(batches)
    ensures |KeyHashes(hash, key, batches)| == TotalRows(batches) <==> AllKeyed(key, batches)
    ensures forall g, i | 0 <= g < |batches| && 0 <= i < batches[g].numRows && batches[g].Usable(key, i) ::
              hash(Joined(batches[g].KeyOf(key, i))) in KeyHashes(hash, key, batches)
  {
    hide Batch.Usable, Batch.KeyOf, Joined, BatchHashes;
    if batches != [] {
      var init, last := batches[..|batches| - 1], batches[|batches| - 1];
      assert batches == init + [last];
      KeyHashesSize(hash, key, init);
      BatchHashesSize(hash, key, last, last.numRows);
      forall g, i | 0 <= g < |batches| && 0 <= i < batches[g].numRows && batches[g].Usable(key, i)
        ensures hash(Joined(batches[g].KeyOf(key, i))) in KeyHashes(hash, key, batches)
      {
        if g < |init| {
          assert init[g] == batches[g];
        }
      }
    }
  }

  /** Accumulates the primary-key summary of the segment being written. */
  class KeySummaryState {
    const key: seq<string>
    const hash: ByteString -> nat
    // Null once anything went wrong for the current segment.
    var builder: ValueSummaryBuilder?

    constructor (key: seq<string>, hash: ByteString -> nat)
      ensures this.key == key && this.hash == hash && Covers([]) && fresh(builder)
    {
      this.key, this.hash := key, hash;
      builder := new ValueSummaryBuilder();
    }

    /** The builder has the hashes of the keys of these batches, up to the cap, or a row has no usable key. */
    ghost predicate Covers(batches: seq<Batch>)
      reads this, builder
    {
      && ValidBatches(batches)
      && (if builder == null then !AllKeyed(key, batches)
          else HasKeys(key, batches) && Gathered(KeyHashes(hash, key, batches)))
    }

    ghost predicate Gathered(all: seq<nat>)
      reads this, builder
      requires builder != null
    {
      if builder.overflowed then builder.hashes == [] && |all| > SUMMARY_MAX_ROWS
      else builder.hashes == all && |all| <= SUMMARY_MAX_ROWS
    }

    method RowKey(b: Batch, i: nat) returns (cell: Cell)
      requires b.Valid() && b.HasKey(key) && i < b.numRows
      ensures cell.Encoded? <==> b.Usable(key, i)
      ensures cell.Encoded? ==> cell.bytes == Joined(b.KeyOf(key, i))
    {
      var out: ByteString := [];
      for c := 0 to |key|
        invariant forall d | 0 <= d < c :: b.columns[key[d]][i].Encoded?
        invariant out == Joined(seq(c, d requires 0 <= d < c => b.columns[key[d]][i].bytes))
      {
        var part := b.columns[key[c]][i];
        if !part.Encoded? {
          return part;
        }
        ghost var more := seq(c + 1, d requires 0 <= d < c + 1 => b.columns[key[d]][i].bytes);
        assert more[..c] == seq(c, d requires 0 <= d < c => b.columns[key[d]][i].bytes);
        out := out + part.bytes;
      }
      assert b.KeyOf(key, i) == seq(|key|, d requires 0 <= d < |key| => b.columns[key[d]][i].bytes);
      cell := Encoded(out);
    }

    /** A missing column or a value that cannot be encoded gives the summary up; a row with a NULL is passed over. */
    method AddBatch(b: Batch, ghost batches: seq<Batch>)
      requires Covers(batches) && b.Valid()
      modifies this, builder
      ensures Covers(batches + [b]) && (builder == null || builder == old(builder))
    {
      hide Batch.Usable, Batch.KeyOf, Joined;
      assert (batches + [b])[..|batches|] == batches;
      KeyedMore(key, batches, b);
      if builder == null {
        return;
      }
      if exists name | name in key :: name !in b.columns {
        builder := null;
        return;
      }
      ghost var before := KeyHashes(hash, key, batches);
      for i := 0 to b.numRows
        invariant builder == old(builder) && Gathered(before + BatchHashes(hash, key, b, i))
      {
        var cell := RowKey(b, i);
        if cell.Unencodable? {
          builder := null;
          return;
        }
        if cell.Encoded? {
          builder.InsertHash(hash(cell.bytes));
        }
        assert before + BatchHashes(hash, key, b, i + 1)
            == before + BatchHashes(hash, key, b, i) + if cell.Encoded? then [hash(cell.bytes)] else [];
      }
    }

    /** The segment's summary, only if it has a key from each of its rows; the state restarts. */
    method Finish(rowCount: nat, ghost batches: seq<Batch>) returns (r: Option<Bitmap>)
      requires Covers(batches) && rowCount == TotalRows(batches)
      modifies this
      ensures Covers([]) && fresh(builder)
      ensures r.Some? <==> AllKeyed(key, batches) && 0 < rowCount <= SUMMARY_MAX_ROWS
      ensures r.Some? ==> HoldsExactly(r.value, Elements(KeyHashes(hash, key, batches)))
    {
      hide HoldsExactly;
      var finished := builder;
      builder := new ValueSummaryBuilder();
      if finished == null {
        return None;
      }
      KeyHashesSize(hash, key, batches);
      if |finished.hashes| != rowCount {
        return None;
      }
      r := finished.Finish();
    }
  }

  lemma {:induction false} KeyedMore(key: seq<string>, batches: seq<Batch>, b: Batch)
    requires ValidBatches(batches) && b.Valid()
    ensures ValidBatches(batches + [b])
    ensures HasKeys(key, batches + [b]) <==> HasKeys(key, batches) && b.HasKey(key)
    ensures AllKeyed(key, batches + [b]) <==>
            AllKeyed(key, batches) && b.HasKey(key) && b.AllUsable(key, b.numRows)
  {
    hide Batch.Valid, Batch.HasKey, Batch.AllUsable;
    var all := batches + [b];
    assert b in all && forall x | x in batches :: x in all;
    assert forall x | x in all :: x in batches || x == b;
  }

  // ---- The row ----

  ghost predicate Readable(name: string, batches: seq<Batch>) {
    forall b | b in batches :: name in b.columns && Unencodable !in b.columns[name]
  }

  /** The sort keys of a column's non-NULL values. */
  ghost function ColumnKeys(name: string, batches: seq<Batch>): seq<ByteString> {
    if batches == [] then []
    else
      var last := batches[|batches| - 1];
      ColumnKeys(name, batches[..|batches| - 1]) + if name in last.columns then KeysIn(last.columns[name]) else []
  }

  function FlushedRow(about: Subject, index: ColumnIndex, bounds: Option<Bounds>, summary: Option<Bitmap>): IndexRow {
    IndexRow(about, if bounds.Some? then Some(bounds.value.low) else index.minValue,
             if bounds.Some? then Some(bounds.value.high) else index.maxValue,
             Packed(index.mins, index.maxs, index.nulls), summary)
  }

  /** Bounds of a numeric column: there are some exactly when every value could be read and there is one, and they are
      the extremes. */
  ghost predicate BoundsOf(numeric: bool, name: string, batches: seq<Batch>, bounds: Option<Bounds>) {
    var keys := ColumnKeys(name, batches);
    && (bounds.Some? <==> numeric && Readable(name, batches) && keys != [])
    && (bounds.Some? ==> bounds.value.low in keys && bounds.value.high in keys)
    && (bounds.Some? ==> forall k | k in keys :: AtMost(bounds.value.low, k) && AtMost(k, bounds.value.high))
  }

  /** The summary of the primary key, if the column carries it: there is one exactly when every row has its key and the
      segment is not too large. */
  ghost predicate SummaryOf(key: Option<seq<string>>, hash: ByteString -> nat, batches: seq<Batch>,
                            summary: Option<Bitmap>)
    requires ValidBatches(batches)
  {
    && (summary.Some? <==> key.Some? && AllKeyed(key.value, batches) && 0 < TotalRows(batches) <= SUMMARY_MAX_ROWS)
    && (summary.Some? ==> HoldsExactly(summary.value, Elements(KeyHashes(hash, key.value, batches))))
  }

  /** What a segment's column is flushed from: its footer statistics and the batches written, with the primary key's
      columns when the column is the one that carries the summary. */
  datatype Source = Source(name: string, numeric: bool, groups: seq<FooterGroup>, batches: seq<Batch>,
                           key: Option<seq<string>>, hash: ByteString -> nat)

  ghost predicate Flushed(about: Subject, src: Source, r: IndexRow)
    requires ValidBatches(src.batches)
  {
    exists index, bounds, summary ::
      && Packs(src.numeric, src.groups, index) && BoundsOf(src.numeric, src.name, src.batches, bounds)
      && SummaryOf(src.key, src.hash, src.batches, summary) && r == FlushedRow(about, index, bounds, summary)
  }

  /** Feeds a column's batches to its numeric bounds, as the segment is written. */
  method NumericBoundsOf(name: string, numeric: bool, batches: seq<Batch>) returns (bounds: Option<Bounds>)
    ensures BoundsOf(numeric, name, batches, bounds)
  {
    hide NumericBounds.Covers, AtMost;
    if !numeric {
      return None;
    }
    var state := new NumericBounds();
    assert batches[..0] == [];
    for g := 0 to |batches|
      invariant state.complete <==> Readable(name, batches[..g])
      invariant state.Covers(ColumnKeys(name, batches[..g]))
    {
      var b := batches[g];
      assert batches[..g + 1] == batches[..g] + [b] && batches[..g + 1][..g] == batches[..g];
      if name in b.columns {
        state.AddBatch(Some(b.columns[name]), ColumnKeys(name, batches[..g]));
      } else {
        state.AddBatch(None, ColumnKeys(name, batches[..g]));
        state.GivenUp();
      }
    }
    assert batches[..|batches|] == batches;
    bounds := state.Finish(ColumnKeys(name, batches));
  }

  /** Feeds the batches to the key summary, as the segment is written. */
  method KeySummaryOf(key: Option<seq<string>>, hash: ByteString -> nat, batches: seq<Batch>)
    returns (summary: Option<Bitmap>)
    requires ValidBatches(batches)
    ensures SummaryOf(key, hash, batches, summary)
  {
    hide KeySummaryState.Covers, HoldsExactly, AllKeyed, Batch.Valid;
    if key.None? {
      return None;
    }
    var state := new KeySummaryState(key.value, hash);
    var rows := 0;
    assert batches[..0] == [];
    for g := 0 to |batches|
      invariant state.key == key.value && state.hash == hash && state.Covers(batches[..g])
      invariant fresh(state) && (state.builder != null ==> fresh(state.builder)) && rows == TotalRows(batches[..g])
    {
      assert batches[..g + 1] == batches[..g] + [batches[g]] && batches[..g + 1][..g] == batches[..g];
      state.AddBatch(batches[g], batches[..g]);
      rows := rows + batches[g].numRows;
    }
    assert batches[..|batches|] == batches;
    summary := state.Finish(rows, batches);
  }

  /** The index row of a finished segment's column. */
  method WriteIndexRow(about: Subject, src: Source, required: bool) returns (r: Result<IndexRow>)
    requires ValidBatches(src.batches)
    ensures r.Ok? <==> forall g | g in src.groups :: Acceptable(src.numeric, required, g)
    ensures r.Ok? ==> Flushed(about, src, r.value)
  {
    hide Packs, BoundsOf, SummaryOf, Acceptable, ValidBatches;
    var index := ExtractColumnIndex(src.groups, src.numeric, required);
    if index.Err? {
      return Err(index.error);
    }
    var bounds := NumericBoundsOf(src.name, src.numeric, src.batches);
    var summary := KeySummaryOf(src.key, src.hash, src.batches);
    r := Ok(FlushedRow(about, index.value, bounds, summary));
  }

  // ---- From flush to scan ----

  /** The value of a row whose cell is this; one that cannot be encoded still is one. */
  predicate CellIs(cell: Cell, v: Option<ByteString>) {
    match cell
    case Encoded(bytes) => v == Some(bytes)
    case NullCell => v.None?
    case Unencodable => v.Some?
  }

  /** The column's values and the rows' whole keys, row group by row group, and statistics that hold of them. */
  ghost predicate SourceHolds(src: Source, column: seq<Values>, keys: seq<Values>) {
    && ValidBatches(src.batches) && AllTruthful(src.numeric, src.groups, column)
    && |column| == |src.batches| == |keys|
    && (forall g | 0 <= g < |column| ::
          src.batches[g].Valid() && |column[g]| == |keys[g]| == src.batches[g].numRows)
    && (forall g, j | 0 <= g < |column| && 0 <= j < |column[g]| ::
          src.name in src.batches[g].columns ==> CellIs(src.batches[g].columns[src.name][j], column[g][j]))
    && (src.key.Some? ==> forall g, j | 0 <= g < |keys| && 0 <= j < |keys[g]| ::
          src.batches[g].HasKey(src.key.value) && src.batches[g].Usable(src.key.value, j) ==>
            keys[g][j] == Some(Joined(src.batches[g].KeyOf(src.key.value, j))))
  }

  lemma {:induction false} ColumnKeysHas(name: string, batches: seq<Batch>, g: nat, j: nat)
    requires g < |batches| && name in batches[g].columns && j < |batches[g].columns[name]|
    requires batches[g].columns[name][j].Encoded?
    ensures batches[g].columns[name][j].bytes in ColumnKeys(name, batches)
  {
    if g == |batches| - 1 {
      KeysInHas(batches[g].columns[name], j);
    } else {
      ColumnKeysHas(name, batches[..|batches| - 1], g, j);
    }
  }

  /** Numeric bounds cover every value: they are only written when all of them could be encoded. */
  lemma {:induction false} NumericBoundsCover(src: Source, column: seq<Values>, keys: seq<Values>,
                                              bounds: Option<Bounds>, g: nat, j: nat)
    requires SourceHolds(src, column, keys) && BoundsOf(src.numeric, src.name, src.batches, bounds) && bounds.Some?
    requires g < |column| && j < |column[g]| && column[g][j].Some?
    ensures AtMost(bounds.value.low, column[g][j].value) && AtMost(column[g][j].value, bounds.value.high)
  {
    hide AtMost, AllTruthful;
    var b := src.batches[g];
    assert b in src.batches && b.Valid();
    var cell := b.columns[src.name][j];
    assert CellIs(cell, column[g][j]) && cell in b.columns[src.name];
    ColumnKeysHas(src.name, src.batches, g, j);
  }

  /** The summary has the bit of every row's key. */
  lemma {:induction false} SummaryCovers(src: Source, column: seq<Values>, keys: seq<Values>, summary: Option<Bitmap>,
                                         g: nat, j: nat)
    requires SourceHolds(src, column, keys) && SummaryOf(src.key, src.hash, src.batches, summary) && summary.Some?
    requires g < |keys| && j < |keys[g]| && keys[g][j].Some?
    ensures summary.value != [] && Bit(summary.value, src.hash(keys[g][j].value) % (8 * |summary.value|))
  {
    hide Joined, Bit, KeyHashes, AllTruthful, Batch.Usable, Batch.KeyOf;
    var key, b := src.key.value, src.batches[g];
    assert b in src.batches && b.HasKey(key) && b.AllUsable(key, b.numRows);
    assert b.Usable(key, j);
    KeyHashesSize(src.hash, key, src.batches);
    var h, bits := src.hash(keys[g][j].value), 8 * |summary.value|;
    assert h in Elements(KeyHashes(src.hash, key, src.batches));
    assert Claims(Elements(KeyHashes(src.hash, key, src.batches)), h % bits, bits);
  }

  /** The row a flush writes holds of the segment, whatever its bounds and summary. */
  lemma {:induction false} FlushedDescribes(about: Subject, src: Source, r: IndexRow, column: seq<Values>,
                                            keys: seq<Values>)
    requires SourceHolds(src, column, keys) && Flushed(about, src, r)
    ensures Describes(r, column, keys, src.hash)
  {
    hide Packs, AllTruthful, BoundsOf, SummaryOf, DescribesGroup, Bit, AtMost;
    var index, bounds, summary :|
      && Packs(src.numeric, src.groups, index) && BoundsOf(src.numeric, src.name, src.batches, bounds)
      && SummaryOf(src.key, src.hash, src.batches, summary) && r == FlushedRow(about, index, bounds, summary);
    PacksShape(src.numeric, src.groups, index, column);
    forall i | 0 <= i < |column| ensures DescribesGroup(column[i], index.mins[i], index.maxs[i], index.nulls[i]) {
      ExtractedDescribesGroup(src.numeric, src.groups, index, column, i);
    }
    assert SummaryOk(r.summary) by { SummaryNotEmpty(src, summary); }
    forall i, j | 0 <= i < |column| && 0 <= j < |column[i]|
      ensures DescribesRow(r, column[i][j], keys[i][j], src.hash)
    {
      if column[i][j].Some? {
        ExtractedBoundsCover(src.numeric, src.groups, index, column, i, column[i][j].value);
        if bounds.Some? {
          NumericBoundsCover(src, column, keys, bounds, i, j);
        }
      }
      if summary.Some? && keys[i][j].Some? {
        SummaryCovers(src, column, keys, summary, i, j);
      }
    }
  }

  lemma {:induction false} PacksShape(numeric: bool, groups: seq<FooterGroup>, index: ColumnIndex, column: seq<Values>)
    requires Packs(numeric, groups, index) && AllTruthful(numeric, groups, column)
    ensures |index.mins| == |index.maxs| == |index.nulls| == |groups| == |column|
  {
  }

  lemma {:induction false} SummaryNotEmpty(src: Source, summary: Option<Bitmap>)
    requires ValidBatches(src.batches) && SummaryOf(src.key, src.hash, src.batches, summary)
    ensures SummaryOk(summary)
  {
  }

  /** The table accepts the row: its bounds come in pairs and in order, its arrays have one length. */
  lemma {:induction false} FlushedPassesChecks(about: Subject, src: Source, r: IndexRow, column: seq<Values>,
                                               keys: seq<Values>)
    requires SourceHolds(src, column, keys) && Flushed(about, src, r)
    ensures Checks(r) && SummaryOk(r.summary)
  {
    hide AllTruthful, SummaryOf, Packs;
    FlushedDescribes(about, src, r, column, keys);
    var index, bounds, summary :|
      && Packs(src.numeric, src.groups, index) && BoundsOf(src.numeric, src.name, src.batches, bounds)
      && SummaryOf(src.key, src.hash, src.batches, summary) && r == FlushedRow(about, index, bounds, summary);
    ExtractedBoundsPaired(src.numeric, src.groups, index);
    if bounds.None? && index.minValue.Some? {
      BoundedHasValue(src.numeric, src.groups, index, column);
      var i, j :| 0 <= i < |column| && 0 <= j < |column[i]| && column[i][j].Some?;
      assert DescribesRow(r, column[i][j], keys[i][j], src.hash);
      AtMostTransitive(index.minValue.value, column[i][j].value, index.maxValue.value);
    }
  }

  /** Segment bounds from the footer mean that there is a value. */
  lemma {:induction false} BoundedHasValue(numeric: bool, groups: seq<FooterGroup>, index: ColumnIndex,
                                           column: seq<Values>)
    requires Packs(numeric, groups, index) && AllTruthful(numeric, groups, column) && index.minValue.Some?
    ensures exists i, j :: 0 <= i < |column| && 0 <= j < |column[i]| && column[i][j].Some?
  {
    hide MinOf, MaxOf;
    MinOfIsLeast(index.mins);
    var i :| 0 <= i < |groups| && index.mins[i].Some?;
    assert PacksGroup(numeric, groups[i], index.mins[i], index.maxs[i], index.nulls[i]);
    assert Truthful(numeric, groups[i], column[i]);
    NullsCount(column[i]);
    var v :| v in column[i] && v.Some?;
    var j :| 0 <= j < |column[i]| && column[i][j] == v;
  }

  /** The row as written, or as an older release wrote it, without the summary that a rebuild adds. */
  ghost predicate OnceFlushed(about: Subject, src: Source, r: IndexRow)
    requires ValidBatches(src.batches)
  {
    Flushed(about, src, r) || Flushed(about, src.(key := None), r)
  }

  lemma {:induction false} OnceFlushedDescribes(about: Subject, src: Source, r: IndexRow, column: seq<Values>,
                                                keys: seq<Values>)
    requires SourceHolds(src, column, keys) && OnceFlushed(about, src, r)
    ensures Describes(r, column, keys, src.hash)
  {
    hide Flushed, Describes;
    if Flushed(about, src, r) {
      FlushedDescribes(about, src, r, column, keys);
    } else {
      FlushedDescribes(about, src.(key := None), r, column, keys);
    }
  }

  /** From flush to scan: if the index rows about a segment's column are those its flush wrote, any active row that the
      query asks for is in a returned segment, the selector accepts the arrays returned with it, and keeps the row's
      group. That holds with and without a value summary, bounds or an index row. */
  lemma {:induction false} RangeScanKeepsRow(segments: set<Segment>, index: set<IndexRow>, s: Segment, about: Subject,
                                             src: Source, q: Range, column: seq<Values>, keys: seq<Values>, i: nat,
                                             j: nat)
    requires ValidIndex(index) && s in segments && Wanted(s, about) && about.id == s.id
    requires HoldsRows(s, column, keys) && SourceHolds(src, column, keys)
    requires forall r | r in index && r.subject == about :: OnceFlushed(about, src, r)
    requires i < |column| && j < |column[i]| && column[i][j].Some? && keys[i][j].Some?
    requires Asks(q, column[i][j].value, keys[i][j].value, src.hash)
    ensures exists c :: c in Candidates(segments, index, about, q) && c.segment == s
    ensures forall c | c in Candidates(segments, index, about, q) && c.segment == s :: SelectsGroup(c, q, i)
  {
    hide SourceHolds, OnceFlushed, Describes, Candidates, Asks, SelectsGroup;
    forall r | r in index && r.subject == about ensures Describes(r, column, keys, src.hash) {
      OnceFlushedDescribes(about, src, r, column, keys);
    }
    SegmentWithRowIsRead(segments, index, s, about, q, column, keys, i, j, column[i][j].value, keys[i][j].value,
                         src.hash);
  }
}
