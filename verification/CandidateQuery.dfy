/** The segment index table with its constraints, and the three-arm candidate query over it. */
module CandidateQuery {
  import opened Bytes
  import opened SegmentIndex
  import ValueSummary

  type SegmentId = nat

  /** A catalog row of a segment, with the row count of each of its row groups. */
  datatype Segment = Segment(id: SegmentId, table: nat, scope: string, active: bool, rowCounts: seq<int>)

  /** What an index row describes: a segment's column under one type and codec. */
  datatype Subject = Subject(id: SegmentId, table: nat, scope: string, column: nat, typeOid: nat, codec: nat)

  /** The packed row-group arrays as the scan gets them. */
  datatype Packed = Packed(mins: seq<Option<ByteString>>, maxs: seq<Option<ByteString>>, nulls: seq<Option<int>>)

  datatype IndexRow = IndexRow(subject: Subject, minValue: Option<ByteString>, maxValue: Option<ByteString>,
                               packed: Packed, summary: Option<ValueSummary.Bitmap>)

  // ---- The table ----

  /** The CHECK constraints of the index table. */
  predicate Checks(r: IndexRow) {
    && (r.minValue.None? <==> r.maxValue.None?)
    && (r.minValue.Some? && r.maxValue.Some? ==> AtMost(r.minValue.value, r.maxValue.value))
    && |r.packed.mins| == |r.packed.maxs| == |r.packed.nulls|
  }

  predicate SummaryOk(summary: Option<ValueSummary.Bitmap>) {
    summary.Some? ==> summary.value != []
  }

  predicate SameKey(a: IndexRow, b: IndexRow) {
    a.subject.id == b.subject.id && a.subject.column == b.subject.column
  }

  /** Rows pass the checks, no bitmap is empty, and a segment has at most one row for a column. */
  ghost predicate ValidIndex(index: set<IndexRow>) {
    && (forall r | r in index :: Checks(r) && SummaryOk(r.summary))
    && (forall r, o | r in index && o in index && SameKey(r, o) :: r == o)
  }

  /** How the table is written: a flush inserts or replaces rows, a rebuild fills in missing summaries, and the rows of
      a removed segment go with it. */
  datatype Write =
    | Upsert(row: IndexRow)
    | Fill(id: SegmentId, column: nat, bitmap: ValueSummary.Bitmap)
    | Remove(id: SegmentId)

  /** The write takes effect, or fails on a constraint and changes nothing. */
  ghost function Written(index: set<IndexRow>, w: Write): set<IndexRow> {
    match w
    case Upsert(row) => if Checks(row) then (set r | r in index && !SameKey(r, row)) + {row} else index
    case Fill(id, column, bitmap) => set r | r in index :: Filled(r, id, column, bitmap)
    case Remove(id) => set r | r in index && r.subject.id != id
  }

  function Filled(r: IndexRow, id: SegmentId, column: nat, bitmap: ValueSummary.Bitmap): IndexRow {
    if r.subject.id == id && r.subject.column == column && r.summary.None? then r.(summary := Some(bitmap)) else r
  }

  predicate WritesBitmap(w: Write) {
    (w.Upsert? ==> SummaryOk(w.row.summary)) && (w.Fill? ==> w.bitmap != [])
  }

  ghost function AllWritten(writes: seq<Write>): set<IndexRow> {
    if writes == [] then {} else Written(AllWritten(writes[..|writes| - 1]), writes[|writes| - 1])
  }

  /** Whatever is written in whatever order, the table keeps its constraints. */
  lemma {:induction false} IndexStaysValid(writes: seq<Write>)
    requires forall w | w in writes :: WritesBitmap(w)
    ensures ValidIndex(AllWritten(writes))
  {
    if writes != [] {
      var init, last := writes[..|writes| - 1], writes[|writes| - 1];
      IndexStaysValid(init);
      assert last in writes;
      WriteKeepsValid(AllWritten(init), last);
    }
  }

  lemma {:induction false} WriteKeepsValid(index: set<IndexRow>, w: Write)
    requires ValidIndex(index) && WritesBitmap(w)
    ensures ValidIndex(Written(index, w))
  {
    hide AtMost;
    var after := Written(index, w);
    if w.Fill? {
      forall r | r in after
        ensures exists o :: o in index && SameKey(r, o) && r == Filled(o, w.id, w.column, w.bitmap)
      {
        var o :| o in index && r == Filled(o, w.id, w.column, w.bitmap);
      }
    }
  }

  /** What the table holds after a write: an inserted row takes the place of its predecessor, unless its bounds are
      unpaired or reversed or its arrays uneven; a rebuild only fills in what is missing; a removal is complete. */
  lemma {:induction false} WriteEffect(index: set<IndexRow>, w: Write, r: IndexRow)
    ensures w.Upsert? ==>
              var row := w.row;
              var refused := || row.minValue.Some? != row.maxValue.Some?
                             || (row.minValue.Some? && row.maxValue.Some?
                                 && Less(row.maxValue.value, row.minValue.value))
                             || |row.packed.mins| != |row.packed.maxs| || |row.packed.mins| != |row.packed.nulls|;
              if refused then Written(index, w) == index
              else r in Written(index, w) <==>
                     || r == row
                     || (r in index && (r.subject.id != row.subject.id || r.subject.column != row.subject.column))
    ensures w.Fill? ==>
              (r in Written(index, w) <==>
                 if r.subject.id == w.id && r.subject.column == w.column
                 then (r in index && r.summary.Some?)
                      || (r.summary == Some(w.bitmap) && r.(summary := None) in index)
                 else r in index)
    ensures w.Remove? ==> (r in Written(index, w) <==> r in index && r.subject.id != w.id)
  {
    if w.Upsert? && w.row.minValue.Some? && w.row.maxValue.Some? {
      AtMostTotal(w.row.minValue.value, w.row.maxValue.value);
      LessTotal(w.row.minValue.value, w.row.maxValue.value);
    }
    if w.Fill? && r in Written(index, w) {
      var o :| o in index && r == Filled(o, w.id, w.column, w.bitmap);
      assert o.summary.None? ==> o == o.(summary := None);
    }
    if w.Fill? && r.summary == Some(w.bitmap) && r.(summary := None) in index {
      assert r == r.(summary := None).(summary := Some(w.bitmap));
    }
  }

  // ---- The query ----

  datatype Range =
    | Closed(low: ByteString, high: ByteString)
    | AtLeast(low: ByteString)
    | UpTo(high: ByteString)
    | Point(value: ByteString, hash: nat)
  {
    function Lower(): Option<ByteString> {
      match this
      case Closed(low, _) => Some(low)
      case AtLeast(low) => Some(low)
      case UpTo(_) => None
      case Point(value, _) => Some(value)
    }

    function Upper(): Option<ByteString> {
      match this
      case Closed(_, high) => Some(high)
      case AtLeast(_) => None
      case UpTo(high) => Some(high)
      case Point(value, _) => Some(value)
    }
  }

  /** The first arm: a comparison with NULL is not true. */
  predicate BoundsMeet(r: IndexRow, q: Range) {
    && (q.Lower().Some? ==> r.maxValue.Some? && AtMost(q.Lower().value, r.maxValue.value))
    && (q.Upper().Some? ==> r.minValue.Some? && AtMost(r.minValue.value, q.Upper().value))
  }

  /** The second arm tests one bound for NULL, the maximum only for a lower-bounded range. */
  predicate Unknown(r: IndexRow, q: Range) {
    if q.AtLeast? then r.maxValue.None? else r.minValue.None?
  }

  predicate SummaryAllows(r: IndexRow, q: Range)
    requires SummaryOk(r.summary)
  {
    q.Point? && r.summary.Some? ==> ValueSummary.Bit(r.summary.value, q.hash % (8 * |r.summary.value|))
  }

  predicate Kept(r: IndexRow, q: Range)
    requires SummaryOk(r.summary)
  {
    (BoundsMeet(r, q) || Unknown(r, q)) && SummaryAllows(r, q)
  }

  /** A returned segment, with the arrays its row groups are selected by. */
  datatype Candidate = Candidate(segment: Segment, packed: Packed)

  function NullArrays(groups: nat): Packed {
    Packed(seq(groups, _ => None), seq(groups, _ => None), seq(groups, _ => None))
  }

  predicate Wanted(s: Segment, about: Subject) {
    s.active && s.table == about.table && s.scope == about.scope
  }

  /** Active segments of the subject's table and scope that an arm of the query returns: through an index row for the
      column, type and codec, or because there is no such row. */
  ghost function Candidates(segments: set<Segment>, index: set<IndexRow>, about: Subject, q: Range): set<Candidate>
    requires ValidIndex(index)
  {
    (set s, r | s in segments && r in index && Wanted(s, about) && r.subject == about.(id := s.id) && Kept(r, q) ::
       Candidate(s, r.packed)) +
    (set s | s in segments && Wanted(s, about) && (forall r | r in index :: r.subject != about.(id := s.id)) ::
       Candidate(s, NullArrays(|s.rowCounts|)))
  }

  // ---- What an index row says of its segment ----

  /** The segment's row groups hold these values of the column; `keys` are the same rows' whole primary keys, column
      after column. For a key of one column they are the values themselves. */
  ghost predicate HoldsRows(s: Segment, column: seq<Values>, keys: seq<Values>) {
    && |s.rowCounts| == |column| == |keys|
    && forall i | 0 <= i < |column| :: s.rowCounts[i] == |column[i]| == |keys[i]| > 0
  }

  ghost predicate DescribesRow(r: IndexRow, v: Option<ByteString>, key: Option<ByteString>, hash: ByteString -> nat)
    requires SummaryOk(r.summary)
  {
    && (r.minValue.Some? && v.Some? ==> AtMost(r.minValue.value, v.value))
    && (r.maxValue.Some? && v.Some? ==> AtMost(v.value, r.maxValue.value))
    && (r.summary.Some? && key.Some? ==> ValueSummary.Bit(r.summary.value, hash(key.value) % (8 * |r.summary.value|)))
  }

  ghost predicate DescribesGroups(packed: Packed, column: seq<Values>) {
    && |packed.mins| == |packed.maxs| == |packed.nulls| == |column|
    && forall i | 0 <= i < |column| :: DescribesGroup(column[i], packed.mins[i], packed.maxs[i], packed.nulls[i])
  }

  /** An index row that holds of its segment's column: its bounds and summary cover every row, and its arrays hold of
      the row groups. */
  ghost predicate Describes(r: IndexRow, column: seq<Values>, keys: seq<Values>, hash: ByteString -> nat)
    requires |column| == |keys| && forall i | 0 <= i < |column| :: |column[i]| == |keys[i]|
  {
    && SummaryOk(r.summary) && DescribesGroups(r.packed, column)
    && forall i, j | 0 <= i < |column| && 0 <= j < |column[i]| :: DescribesRow(r, column[i][j], keys[i][j], hash)
  }

  /** The query asks for a row with this value and key: the value is in the range, and a point query carries the hash of
      the whole key. */
  predicate Asks(q: Range, v: ByteString, key: ByteString, hash: ByteString -> nat) {
    InRange(v, q.Lower(), q.Upper()) && (q.Point? ==> q.hash == hash(key))
  }

  /** Which rows a query asks for: values between its bounds, both included, or the one value of a point query together
      with its key's hash. */
  lemma {:induction false} AsksExactly(q: Range, v: ByteString, key: ByteString, hash: ByteString -> nat)
    ensures Asks(q, v, key, hash) <==>
            match q
            case Closed(low, high) => !Less(v, low) && !Less(high, v)
            case AtLeast(low) => !Less(v, low)
            case UpTo(high) => !Less(high, v)
            case Point(value, h) => v == value && h == hash(key)
  {
    if q.Lower().Some? {
      AtMostTotal(q.Lower().value, v);
      LessTotal(q.Lower().value, v);
    }
    if q.Upper().Some? {
      AtMostTotal(v, q.Upper().value);
      LessTotal(v, q.Upper().value);
    }
  }

  /** A row that describes a segment holding a row asked for is kept, except by a range bounded above and below when it
      has a minimum and no maximum. */
  lemma {:induction false} KeptIff(r: IndexRow, q: Range, v: ByteString, key: ByteString, hash: ByteString -> nat)
    requires SummaryOk(r.summary) && DescribesRow(r, Some(v), Some(key), hash) && Asks(q, v, key, hash)
    ensures Kept(r, q) <==> !(q.Lower().Some? && q.Upper().Some? && r.minValue.Some? && r.maxValue.None?)
  {
    if q.Lower().Some? && r.maxValue.Some? {
      AtMostTransitive(q.Lower().value, v, r.maxValue.value);
    }
    if q.Upper().Some? && r.minValue.Some? {
      AtMostTransitive(r.minValue.value, v, q.Upper().value);
    }
  }

  /** The table's CHECK is needed: with a minimum and no maximum the closed query would lose the row the others find. */
  lemma {:induction false} UnpairedBoundsLoseSegment()
    ensures var r := IndexRow(Subject(1, 1, "", 1, 20, 1), Some([1]), None, NullArrays(1), None);
            && !Checks(r) && Describes(r, [[Some([5])]], [[Some([5])]], (_: ByteString) => 0)
            && !Kept(r, Closed([5], [5])) && Kept(r, AtLeast([5])) && Kept(r, UpTo([5]))
  {
    var r := IndexRow(Subject(1, 1, "", 1, 20, 1), Some([1]), None, NullArrays(1), None);
    assert Less([1], [5]) && DescribesGroups(r.packed, [[Some([5])]]);
  }

  /** Every index row about this segment's column holds of it. */
  ghost predicate IndexHolds(index: set<IndexRow>, about: Subject, column: seq<Values>, keys: seq<Values>,
                             hash: ByteString -> nat)
    requires |column| == |keys| && forall i | 0 <= i < |column| :: |column[i]| == |keys[i]|
  {
    forall r | r in index && r.subject == about :: Describes(r, column, keys, hash)
  }

  /** The selector takes the candidate's arrays and keeps row group `i`. */
  ghost predicate SelectsGroup(c: Candidate, q: Range, i: nat) {
    && i < |c.segment.rowCounts| == |c.packed.mins| == |c.packed.maxs| == |c.packed.nulls|
    && (forall k | 0 <= k < |c.segment.rowCounts| ::
          WellFormed(c.segment.rowCounts[k], c.packed.mins[k], c.packed.maxs[k], c.packed.nulls[k]))
    && MayMatch(c.segment.rowCounts[i], c.packed.mins[i], c.packed.maxs[i], c.packed.nulls[i], q.Lower(), q.Upper())
  }

  lemma {:induction false} DescribedGroupSelected(s: Segment, packed: Packed, column: seq<Values>, keys: seq<Values>,
                                                  q: Range, i: nat, v: ByteString)
    requires HoldsRows(s, column, keys) && DescribesGroups(packed, column)
    requires i < |column| && Some(v) in column[i] && InRange(v, q.Lower(), q.Upper())
    ensures SelectsGroup(Candidate(s, packed), q, i)
  {
    hide MayMatch, InRange;
    assert forall k | 0 <= k < |column| :: DescribesGroup(column[k], packed.mins[k], packed.maxs[k], packed.nulls[k]);
    GroupWithValueSelected(column[i], packed.mins[i], packed.maxs[i], packed.nulls[i], v, q.Lower(), q.Upper());
  }

  lemma {:induction false} NullArraysSelect(s: Segment, column: seq<Values>, keys: seq<Values>, q: Range, i: nat)
    requires HoldsRows(s, column, keys) && i < |column|
    ensures SelectsGroup(Candidate(s, NullArrays(|s.rowCounts|)), q, i)
  {
  }

  /** An active segment with a row asked for is a candidate, and whichever arm returns it, with the index row's arrays
      or with arrays of NULLs, the selector accepts them and keeps the row's group. */
  lemma {:induction false} SegmentWithRowIsRead(segments: set<Segment>, index: set<IndexRow>, s: Segment,
                                                about: Subject, q: Range, column: seq<Values>, keys: seq<Values>,
                                                i: nat, j: nat, v: ByteString, key: ByteString, hash: ByteString -> nat)
    requires ValidIndex(index) && s in segments && Wanted(s, about) && about.id == s.id
    requires HoldsRows(s, column, keys) && IndexHolds(index, about, column, keys, hash)
    requires i < |column| && j < |column[i]| && column[i][j] == Some(v) && keys[i][j] == Some(key)
    requires Asks(q, v, key, hash)
    ensures exists c :: c in Candidates(segments, index, about, q) && c.segment == s
    ensures forall c | c in Candidates(segments, index, about, q) && c.segment == s :: SelectsGroup(c, q, i)
  {
    hide InRange, Kept, DescribesRow, SelectsGroup, DescribesGroups, NullArrays;
    assert about.(id := s.id) == about && Some(v) in column[i];
    if r :| r in index && r.subject == about {
      assert DescribesRow(r, column[i][j], keys[i][j], hash);
      KeptIff(r, q, v, key, hash);
      assert Candidate(s, r.packed) in Candidates(segments, index, about, q);
    } else {
      assert Candidate(s, NullArrays(|s.rowCounts|)) in Candidates(segments, index, about, q);
    }
    forall c | c in Candidates(segments, index, about, q) && c.segment == s ensures SelectsGroup(c, q, i) {
      if r :| r in index && r.subject == about && c == Candidate(s, r.packed) {
        DescribedGroupSelected(s, r.packed, column, keys, q, i, v);
      } else {
        NullArraysSelect(s, column, keys, q, i);
      }
    }
  }
}
