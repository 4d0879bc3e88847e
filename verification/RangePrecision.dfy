/** What a range scan leaves unread: with exact statistics, the segments and row groups that the range does not reach.
    */
module RangePrecision {
  import opened Bytes
  import opened KeyBounds
  import opened SegmentIndex
  import opened CandidateQuery
  import opened ValueSummary
  import opened FlushedIndex

  ghost predicate Present(values: Values, v: ByteString) {
    Some(v) in values
  }

  ghost predicate HasValue(column: seq<Values>, v: ByteString) {
    exists g | 0 <= g < |column| :: Present(column[g], v)
  }

  /** Footer bounds that are the group's smallest and largest value, and there whenever it has a value. */
  ghost predicate BoundsExact(stats: Stats, values: Values) {
    && (stats.bounds.Some? <==> exists v :: Present(values, v))
    && (stats.bounds.Some? ==> Present(values, stats.bounds.value.low) && Present(values, stats.bounds.value.high))
  }

  /** Every group has its null count and, but for a numeric column, exact bounds; a numeric column could be read. */
  ghost predicate ExactSource(src: Source, column: seq<Values>) {
    && |src.groups| == |column|
    && (forall g | 0 <= g < |column| ::
          && src.groups[g].stats.Some? && src.groups[g].stats.value.nullCount.Some?
          && (src.numeric || BoundsExact(src.groups[g].stats.value, column[g])))
    && (src.numeric ==> Readable(src.name, src.batches))
  }

  // ---- The bounds of the index row ----

  lemma {:induction false} AllNullIff(values: Values)
    ensures Nulls(values) == |values| <==> !exists v :: Present(values, v)
  {
    NullsCount(values);
    if Nulls(values) != |values| {
      var v :| v in values && v.Some?;
      assert Present(values, v.value);
    }
  }

  /** Group by group the row has the group's own extremes. */
  lemma {:induction false} GroupExact(src: Source, index: ColumnIndex, column: seq<Values>, i: nat)
    requires Packs(src.numeric, src.groups, index) && AllTruthful(src.numeric, src.groups, column)
    requires ExactSource(src, column) && i < |column|
    ensures index.nulls[i] == Some(Nulls(column[i])) && src.groups[i].rows == |column[i]|
    ensures AllNull(src.groups[i]) <==> !exists v :: Present(column[i], v)
    ensures if src.numeric then index.mins[i].None? && index.maxs[i].None?
            else && (index.mins[i].Some? <==> exists v :: Present(column[i], v))
                 && (index.maxs[i].Some? <==> exists v :: Present(column[i], v))
                 && (index.mins[i].Some? ==> Present(column[i], index.mins[i].value))
                 && (index.maxs[i].Some? ==> Present(column[i], index.maxs[i].value))
  {
    hide MinOf, MaxOf, Readable;
    assert PacksGroup(src.numeric, src.groups[i], index.mins[i], index.maxs[i], index.nulls[i]);
    assert Truthful(src.numeric, src.groups[i], column[i]);
    AllNullIff(column[i]);
  }

  lemma {:induction false} FooterExact(src: Source, index: ColumnIndex, column: seq<Values>)
    requires Packs(src.numeric, src.groups, index) && AllTruthful(src.numeric, src.groups, column)
    requires ExactSource(src, column) && |index.mins| == |index.maxs| == |column|
    ensures if src.numeric then index.minValue.None? && index.maxValue.None?
            else && (index.minValue.Some? <==> exists v :: HasValue(column, v))
                 && (index.maxValue.Some? <==> exists v :: HasValue(column, v))
                 && (index.minValue.Some? ==> HasValue(column, index.minValue.value))
                 && (index.maxValue.Some? ==> HasValue(column, index.maxValue.value))
  {
    hide MinOf, MaxOf, ExactSource, AllTruthful, Present;
    MinOfIsLeast(index.mins);
    MaxOfIsGreatest(index.maxs);
    forall i | 0 <= i < |column|
      ensures src.numeric ==> index.mins[i].None? && index.maxs[i].None?
      ensures !src.numeric ==>
                && (index.mins[i].Some? <==> exists v :: Present(column[i], v))
                && (index.maxs[i].Some? <==> exists v :: Present(column[i], v))
                && (index.mins[i].Some? ==> Present(column[i], index.mins[i].value))
                && (index.maxs[i].Some? ==> Present(column[i], index.maxs[i].value))
                && Bounded(src.numeric, src.groups[i])
    {
      GroupExact(src, index, column, i);
      assert PacksGroup(src.numeric, src.groups[i], index.mins[i], index.maxs[i], index.nulls[i]);
    }
    if !src.numeric {
      assert forall g | g in src.groups :: Bounded(src.numeric, g);
      ValuesBounded(column, index);
    }
  }

  lemma {:induction false} ValuesBounded(column: seq<Values>, index: ColumnIndex)
    requires |index.mins| == |index.maxs| == |column|
    requires forall i | 0 <= i < |column| ::
               && (index.mins[i].Some? <==> exists v :: Present(column[i], v))
               && (index.maxs[i].Some? <==> exists v :: Present(column[i], v))
    ensures (exists v :: HasValue(column, v)) <==> (exists m | m in index.mins :: m.Some?)
    ensures (exists v :: HasValue(column, v)) <==> (exists m | m in index.maxs :: m.Some?)
  {
    hide Present;
    if v :| HasValue(column, v) {
      var i :| 0 <= i < |column| && Present(column[i], v);
      assert index.mins[i] in index.mins && index.maxs[i] in index.maxs;
    }
    if m :| m in index.mins && m.Some? {
      var i :| 0 <= i < |column| && index.mins[i] == m;
      var v :| Present(column[i], v);
      assert HasValue(column, v);
    }
    if m :| m in index.maxs && m.Some? {
      var i :| 0 <= i < |column| && index.maxs[i] == m;
      var v :| Present(column[i], v);
      assert HasValue(column, v);
    }
  }

  lemma {:induction false} KeysInFrom(cells: seq<Cell>, k: ByteString)
    requires k in KeysIn(cells)
    ensures exists j | 0 <= j < |cells| :: cells[j] == Encoded(k)
  {
    var n := |cells| - 1;
    if k in KeysIn(cells[..n]) {
      KeysInFrom(cells[..n], k);
      var j :| 0 <= j < n && cells[..n][j] == Encoded(k);
      assert cells[j] == Encoded(k);
    } else {
      assert cells[n] == Encoded(k);
    }
  }

  /** The keys of a numeric column are values of it. */
  lemma {:induction false} ColumnKeysFrom(name: string, batches: seq<Batch>, k: ByteString)
    requires k in ColumnKeys(name, batches)
    ensures exists g, j :: 0 <= g < |batches| && name in batches[g].columns && 0 <= j < |batches[g].columns[name]|
                        && batches[g].columns[name][j] == Encoded(k)
  {
    var n := |batches| - 1;
    if k in ColumnKeys(name, batches[..n]) {
      ColumnKeysFrom(name, batches[..n], k);
      var g, j :| 0 <= g < n && name in batches[..n][g].columns && 0 <= j < |batches[..n][g].columns[name]|
                  && batches[..n][g].columns[name][j] == Encoded(k);
      assert batches[g].columns[name][j] == Encoded(k);
    } else {
      KeysInFrom(batches[n].columns[name], k);
    }
  }

  lemma {:induction false} NumericKeysAreValues(src: Source, column: seq<Values>, keys: seq<Values>)
    requires SourceHolds(src, column, keys) && Readable(src.name, src.batches)
    ensures forall k | k in ColumnKeys(src.name, src.batches) :: HasValue(column, k)
    ensures ColumnKeys(src.name, src.batches) != [] <==> exists v :: HasValue(column, v)
  {
    hide AllTruthful, ColumnKeys, Batch.HasKey, Batch.Usable, Batch.KeyOf, Joined;
    var all := ColumnKeys(src.name, src.batches);
    forall k | k in all ensures HasValue(column, k) {
      ColumnKeysFrom(src.name, src.batches, k);
      var g, j :| 0 <= g < |src.batches| && src.name in src.batches[g].columns
                  && 0 <= j < |src.batches[g].columns[src.name]|
                  && src.batches[g].columns[src.name][j] == Encoded(k);
      assert src.batches[g].Valid() && CellIs(src.batches[g].columns[src.name][j], column[g][j]);
      assert column[g][j] in column[g] && Present(column[g], k);
    }
    if all != [] {
      assert all[0] in all;
    }
    if v :| HasValue(column, v) {
      var g :| 0 <= g < |column| && Present(column[g], v);
      var j :| 0 <= j < |column[g]| && column[g][j] == Some(v);
      var b := src.batches[g];
      assert b in src.batches && b.Valid();
      assert CellIs(b.columns[src.name][j], column[g][j]) && b.columns[src.name][j] in b.columns[src.name];
      ColumnKeysHas(src.name, src.batches, g, j);
    }
  }

  /** The bounds of a flushed row are values of the column, and there exactly when it has a value. */
  lemma {:induction false} RowBoundsExact(about: Subject, src: Source, r: IndexRow, column: seq<Values>,
                                          keys: seq<Values>)
    requires SourceHolds(src, column, keys) && Flushed(about, src, r) && ExactSource(src, column)
    ensures r.minValue.Some? <==> exists v :: HasValue(column, v)
    ensures r.maxValue.Some? <==> exists v :: HasValue(column, v)
    ensures r.minValue.Some? ==> HasValue(column, r.minValue.value)
    ensures r.maxValue.Some? ==> HasValue(column, r.maxValue.value)
  {
    hide Packs, AllTruthful, SummaryOf, HasValue, AtMost;
    var index, bounds, summary :|
      && Packs(src.numeric, src.groups, index) && BoundsOf(src.numeric, src.name, src.batches, bounds)
      && SummaryOf(src.key, src.hash, src.batches, summary) && r == FlushedRow(about, index, bounds, summary);
    PacksShape(src.numeric, src.groups, index, column);
    FooterExact(src, index, column);
    if src.numeric {
      NumericKeysAreValues(src, column, keys);
    }
  }

  // ---- The summary of the index row ----

  lemma {:induction false} BatchHashesFrom(hash: ByteString -> nat, key: seq<string>, b: Batch, n: nat, h: nat)
    requires b.Valid() && b.HasKey(key) && n <= b.numRows && h in BatchHashes(hash, key, b, n)
    ensures exists i | 0 <= i < n && b.Usable(key, i) :: h == hash(Joined(b.KeyOf(key, i)))
  {
    hide Batch.Usable, Batch.KeyOf, Joined;
    if h in BatchHashes(hash, key, b, n - 1) {
      BatchHashesFrom(hash, key, b, n - 1, h);
    }
  }

  lemma {:induction false} KeyHashesFrom(hash: ByteString -> nat, key: seq<string>, batches: seq<Batch>, h: nat)
    requires ValidBatches(batches) && HasKeys(key, batches) && h in KeyHashes(hash, key, batches)
    ensures exists g, i | 0 <= g < |batches| && 0 <= i < batches[g].numRows && batches[g].Usable(key, i) ::
              h == hash(Joined(batches[g].KeyOf(key, i)))
  {
    hide Batch.Usable, Batch.KeyOf, Joined, BatchHashes;
    var n := |batches| - 1;
    var init, last := batches[..n], batches[n];
    assert last in batches && forall b | b in init :: b in batches;
    if h in KeyHashes(hash, key, init) {
      KeyHashesFrom(hash, key, init, h);
      var g, i :| 0 <= g < |init| && 0 <= i < init[g].numRows && init[g].Usable(key, i)
                  && h == hash(Joined(init[g].KeyOf(key, i)));
      assert init[g] == batches[g] && batches[g].Usable(key, i);
    } else {
      BatchHashesFrom(hash, key, last, last.numRows, h);
      var i :| 0 <= i < last.numRows && last.Usable(key, i) && h == hash(Joined(last.KeyOf(key, i)));
      assert batches[n].Usable(key, i);
    }
  }

  /** The key of some row falls on the bit of the hash. */
  ghost predicate Collides(keys: seq<Values>, hash: ByteString -> nat, h: nat, bits: nat)
    requires bits > 0
  {
    exists g, k | 0 <= g < |keys| && Present(keys[g], k) :: hash(k) % bits == h % bits
  }

  /** There is a summary exactly when every row has its key and they are 32768 at most; a bit of it is set exactly when
      some row's key falls on it. */
  lemma {:induction false} SummaryExact(about: Subject, src: Source, r: IndexRow, column: seq<Values>,
                                        keys: seq<Values>, h: nat)
    requires SourceHolds(src, column, keys) && Flushed(about, src, r)
    requires forall g, j | 0 <= g < |keys| && 0 <= j < |keys[g]| :: keys[g][j].Some?
    ensures r.summary.Some? <==>
              src.key.Some? && AllKeyed(src.key.value, src.batches) && 0 < TotalRows(src.batches) <= 32768
    ensures r.summary.Some? ==> r.summary.value != []
                                && (Bit(r.summary.value, h % (8 * |r.summary.value|))
                                    <==> Collides(keys, src.hash, h, 8 * |r.summary.value|))
  {
    hide Packs, AllTruthful, BoundsOf, Bit, TotalRows;
    var index, bounds, summary :|
      && Packs(src.numeric, src.groups, index) && BoundsOf(src.numeric, src.name, src.batches, bounds)
      && SummaryOf(src.key, src.hash, src.batches, summary) && r == FlushedRow(about, index, bounds, summary);
    if summary.Some? {
      HashesAreKeys(src, column, keys, h, 8 * |summary.value|);
    }
  }

  lemma {:induction false} HashesAreKeys(src: Source, column: seq<Values>, keys: seq<Values>, h: nat, bits: nat)
    requires SourceHolds(src, column, keys) && src.key.Some? && AllKeyed(src.key.value, src.batches) && bits > 0
    requires forall g, j | 0 <= g < |keys| && 0 <= j < |keys[g]| :: keys[g][j].Some?
    ensures Claims(Elements(KeyHashes(src.hash, src.key.value, src.batches)), h % bits, bits)
       <==> Collides(keys, src.hash, h, bits)
  {
    hide AllTruthful, Batch.Usable, Batch.KeyOf, Joined;
    var key, all := src.key.value, KeyHashes(src.hash, src.key.value, src.batches);
    if Claims(Elements(all), h % bits, bits) {
      var x :| x in Elements(all) && x % bits == h % bits;
      KeyHashesFrom(src.hash, key, src.batches, x);
      var g, i :| 0 <= g < |src.batches| && 0 <= i < src.batches[g].numRows && src.batches[g].Usable(key, i)
                  && x == src.hash(Joined(src.batches[g].KeyOf(key, i)));
      assert src.batches[g] in src.batches && src.batches[g].HasKey(key);
      assert keys[g][i] == Some(Joined(src.batches[g].KeyOf(key, i))) && keys[g][i] in keys[g];
      assert Present(keys[g], Joined(src.batches[g].KeyOf(key, i)));
    }
    if Collides(keys, src.hash, h, bits) {
      var g, k :| 0 <= g < |keys| && Present(keys[g], k) && src.hash(k) % bits == h % bits;
      var i :| 0 <= i < |keys[g]| && keys[g][i] == Some(k);
      var b := src.batches[g];
      assert b in src.batches && b.HasKey(key) && b.AllUsable(key, b.numRows) && b.Usable(key, i);
      KeyHashesSize(src.hash, key, src.batches);
      assert src.hash(k) in Elements(all);
    }
  }

  // ---- What is read, exactly ----

  /** Some value is high enough for the range and some value low enough. */
  ghost predicate Reaches(column: seq<Values>, q: Range) {
    && (q.Lower().Some? ==> exists v | HasValue(column, v) :: AtMost(q.Lower().value, v))
    && (q.Upper().Some? ==> exists v | HasValue(column, v) :: AtMost(v, q.Upper().value))
  }

  lemma {:induction false} BoundsMeetExactly(r: IndexRow, q: Range, column: seq<Values>)
    requires r.minValue.Some? <==> exists v :: HasValue(column, v)
    requires r.maxValue.Some? <==> exists v :: HasValue(column, v)
    requires r.minValue.Some? ==> HasValue(column, r.minValue.value)
    requires r.maxValue.Some? ==> HasValue(column, r.maxValue.value)
    requires forall v | HasValue(column, v) ::
               r.minValue.Some? && r.maxValue.Some? && AtMost(r.minValue.value, v) && AtMost(v, r.maxValue.value)
    ensures BoundsMeet(r, q) || Unknown(r, q) <==> (forall v :: !HasValue(column, v)) || Reaches(column, q)
  {
    hide HasValue, AtMost;
    if q.Lower().Some? && r.maxValue.Some? {
      if v :| HasValue(column, v) && AtMost(q.Lower().value, v) {
        AtMostTransitive(q.Lower().value, v, r.maxValue.value);
      }
    }
    if q.Upper().Some? && r.minValue.Some? {
      if v :| HasValue(column, v) && AtMost(v, q.Upper().value) {
        AtMostTransitive(r.minValue.value, v, q.Upper().value);
      }
    }
  }

  lemma {:induction false} CoveredByBounds(r: IndexRow, column: seq<Values>, keys: seq<Values>, hash: ByteString -> nat,
                                           v: ByteString)
    requires |column| == |keys| && (forall i | 0 <= i < |column| :: |column[i]| == |keys[i]|)
    requires Describes(r, column, keys, hash) && HasValue(column, v)
    ensures (r.minValue.Some? ==> AtMost(r.minValue.value, v)) && (r.maxValue.Some? ==> AtMost(v, r.maxValue.value))
  {
    hide AtMost, DescribesGroups, Bit;
    var g :| 0 <= g < |column| && Present(column[g], v);
    var j :| 0 <= j < |column[g]| && column[g][j] == Some(v);
    assert DescribesRow(r, column[g][j], keys[g][j], hash);
  }

  /** A segment with an index row is returned exactly when the range reaches its values, or it has none, and, for a
      point query, some row's key falls on the bit of the one asked for. */
  lemma {:induction false} SegmentReadExactly(segments: set<Segment>, index: set<IndexRow>, s: Segment, about: Subject,
                                              src: Source, r: IndexRow, q: Range, column: seq<Values>,
                                              keys: seq<Values>)
    requires ValidIndex(index) && s in segments && about.id == s.id && r in index && r.subject == about
    requires s.active && s.table == about.table && s.scope == about.scope
    requires SourceHolds(src, column, keys) && Flushed(about, src, r) && ExactSource(src, column)
    requires forall g, j | 0 <= g < |keys| && 0 <= j < |keys[g]| :: keys[g][j].Some?
    ensures (exists c | c in Candidates(segments, index, about, q) :: c.segment == s) <==>
            && ((forall v :: !HasValue(column, v)) || Reaches(column, q))
            && (q.Point? && r.summary.Some? ==>
                  r.summary.value != [] && Collides(keys, src.hash, q.hash, 8 * |r.summary.value|))
  {
    hide SourceHolds, Flushed, ExactSource, Describes, Bit, AtMost, Reaches, Collides, HasValue, Checks, BoundsMeet,
         Unknown;
    RowBoundsExact(about, src, r, column, keys);
    FlushedDescribes(about, src, r, column, keys);
    SameShape(src, column, keys);
    forall v | HasValue(column, v)
      ensures r.minValue.Some? && r.maxValue.Some? && AtMost(r.minValue.value, v) && AtMost(v, r.maxValue.value)
    {
      CoveredByBounds(r, column, keys, src.hash, v);
    }
    BoundsMeetExactly(r, q, column);
    if q.Point? {
      SummaryExact(about, src, r, column, keys, q.hash);
    }
    OnlyItsRow(segments, index, s, about, r, q);
  }

  lemma {:induction false} SameShape(src: Source, column: seq<Values>, keys: seq<Values>)
    requires SourceHolds(src, column, keys)
    ensures |column| == |keys| && forall i | 0 <= i < |column| :: |column[i]| == |keys[i]|
  {
    hide AllTruthful;
  }

  /** A segment with an index row is returned exactly when that row is kept, with that row's arrays. */
  lemma {:induction false} OnlyItsRow(segments: set<Segment>, index: set<IndexRow>, s: Segment, about: Subject,
                                      r: IndexRow, q: Range)
    requires ValidIndex(index) && s in segments && about.id == s.id && r in index && r.subject == about
    requires Wanted(s, about)
    ensures (exists c | c in Candidates(segments, index, about, q) :: c.segment == s) <==> Kept(r, q)
    ensures forall c | c in Candidates(segments, index, about, q) && c.segment == s :: c.packed == r.packed
  {
    hide Kept, Checks;
    assert about.(id := s.id) == about;
    forall c | c in Candidates(segments, index, about, q) && c.segment == s ensures c.packed == r.packed && Kept(r, q) {
      var o :| o in index && o.subject == about && Kept(o, q) && c == Candidate(s, o.packed);
      assert SameKey(o, r);
    }
    if Kept(r, q) {
      assert Candidate(s, r.packed) in Candidates(segments, index, about, q);
    }
  }

  /** Only active segments of the table and scope asked about are returned, each once. */
  lemma {:induction false} OnlyWanted(segments: set<Segment>, index: set<IndexRow>, about: Subject, q: Range,
                                      c: Candidate, d: Candidate)
    requires ValidIndex(index) && c in Candidates(segments, index, about, q)
    requires d in Candidates(segments, index, about, q) && d.segment == c.segment
    ensures c.segment in segments && c.segment.active && c.segment.table == about.table
    ensures c.segment.scope == about.scope && c == d
  {
    hide Kept, Checks;
    var s := c.segment;
    if r :| r in index && r.subject == about.(id := s.id) {
      assert forall o | o in index && o.subject == r.subject :: SameKey(o, r);
    }
  }

  /** A row group is read exactly when the range reaches its own values; one of a numeric column, which has no bounds,
      exactly when it has a value at all. */
  lemma {:induction false} GroupReadExactly(s: Segment, about: Subject, src: Source, r: IndexRow, q: Range,
                                            column: seq<Values>, keys: seq<Values>, i: nat)
    requires HoldsRows(s, column, keys) && SourceHolds(src, column, keys) && Flushed(about, src, r)
    requires ExactSource(src, column) && i < |column|
    ensures SelectsGroup(Candidate(s, r.packed), q, i) <==>
            (exists v :: Present(column[i], v)) && (src.numeric || Reaches([column[i]], q))
  {
    hide BoundsOf, SummaryOf, AllTruthful, Packs, AtMost, ExactSource, Reaches, Present, Batch.HasKey, Batch.Usable;
    var index, bounds, summary :|
      && Packs(src.numeric, src.groups, index) && BoundsOf(src.numeric, src.name, src.batches, bounds)
      && SummaryOf(src.key, src.hash, src.batches, summary) && r == FlushedRow(about, index, bounds, summary);
    PacksShape(src.numeric, src.groups, index, column);
    forall k | 0 <= k < |column| ensures DescribesGroup(column[k], index.mins[k], index.maxs[k], index.nulls[k]) {
      ExtractedDescribesGroup(src.numeric, src.groups, index, column, k);
    }
    GroupExact(src, index, column, i);
    GroupMatchesExactly(column[i], index.mins[i], index.maxs[i], index.nulls[i], q, src.numeric);
  }

  lemma {:induction false} GroupMatchesExactly(values: Values, low: Option<ByteString>, high: Option<ByteString>,
                                               nulls: Option<int>, q: Range, numeric: bool)
    requires DescribesGroup(values, low, high, nulls) && nulls == Some(Nulls(values))
    requires if numeric then low.None? && high.None?
             else && (low.Some? <==> exists v :: Present(values, v)) && (high.Some? <==> exists v :: Present(values, v))
                  && (low.Some? ==> Present(values, low.value)) && (high.Some? ==> Present(values, high.value))
    ensures MayMatch(|values|, low, high, nulls, q.Lower(), q.Upper()) <==>
            (exists v :: Present(values, v)) && (numeric || Reaches([values], q))
  {
    AllNullIff(values);
    forall v ensures HasValue([values], v) <==> Present(values, v) {
      assert Present([values][0], v) <==> Present(values, v);
    }
    if low.Some? && high.Some? && q.Lower().Some? {
      if v :| Present(values, v) && AtMost(q.Lower().value, v) {
        AtMostTransitive(q.Lower().value, v, high.value);
      }
    }
    if low.Some? && high.Some? && q.Upper().Some? {
      if v :| Present(values, v) && AtMost(v, q.Upper().value) {
        AtMostTransitive(low.value, v, q.Upper().value);
      }
    }
  }
}
