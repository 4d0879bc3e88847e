/** Rows become row groups, row groups become segments: the encoder's accounting. */
module SegmentEncoding {
  import opened Bytes
  import opened Chars
  import opened FlushRows

  datatype Input = Input(maxRowsPerFile: nat, rowGroupSize: nat, fetchBatchSize: int, sortByOrderKey: bool,
                         scopeColumn: Option<nat>)
  {
    function Cap(): (cap: nat)
      ensures cap > 0
    {
      if maxRowsPerFile == 0 then 1 else maxRowsPerFile
    }

    function GroupCap(): (cap: nat)
      ensures cap > 0
    {
      if rowGroupSize == 0 then 1 else rowGroupSize
    }
  }

  /** A written segment: its row groups, and the scope it belongs to. */
  datatype Chunk = Chunk(groups: seq<seq<Row>>, scope: Option<string>)

  /** When the split policy closes a segment holding these row groups. */
  type SplitPolicy = seq<seq<Row>> -> bool

  ghost function Flat(groups: seq<seq<Row>>): seq<Row> {
    if groups == [] then [] else Flat(groups[..|groups| - 1]) + groups[|groups| - 1]
  }

  ghost function Written(chunks: seq<Chunk>): seq<Row> {
    if chunks == [] then [] else Written(chunks[..|chunks| - 1]) + Flat(chunks[|chunks| - 1].groups)
  }

  lemma {:induction false} FlatMore(groups: seq<seq<Row>>, g: seq<Row>)
    ensures Flat(groups + [g]) == Flat(groups) + g
  {
    assert (groups + [g])[..|groups|] == groups;
  }

  lemma {:induction false} WrittenMore(chunks: seq<Chunk>, c: Chunk)
    ensures Written(chunks + [c]) == Written(chunks) + Flat(c.groups)
  {
    assert (chunks + [c])[..|chunks|] == chunks;
  }

  ghost function MaxSeq(rows: seq<Row>): int {
    if rows == [] then 0 else Max(MaxSeq(rows[..|rows| - 1]), rows[|rows| - 1].seqId)
  }

  lemma {:induction false} MaxSeqMore(rows: seq<Row>, r: Row)
    ensures MaxSeq(rows + [r]) == Max(MaxSeq(rows), r.seqId)
  {
    assert (rows + [r])[..|rows|] == rows;
  }

  /** The largest sequence number, or 0 when there is none above it. */
  lemma {:induction false} MaxSeqIsMax(rows: seq<Row>)
    ensures MaxSeq(rows) >= 0 && forall r | r in rows :: r.seqId <= MaxSeq(rows)
    ensures MaxSeq(rows) > 0 ==> exists r | r in rows :: r.seqId == MaxSeq(rows)
  {
    if rows != [] {
      var init, last := rows[..|rows| - 1], rows[|rows| - 1];
      MaxSeqIsMax(init);
      assert last in rows && forall r | r in rows :: r in init || r == last;
      assert forall r | r in init :: r in rows;
    }
  }

  ghost predicate GoodGroups(input: Input, groups: seq<seq<Row>>) {
    groups != [] && forall i | 0 <= i < |groups| :: 0 < |groups[i]| <= input.GroupCap()
  }

  /** Rows a group takes after `before` rows of its segment: a full group, unless the segment's cap comes first. */
  function GroupRoom(input: Input, before: nat): nat {
    var room := Max(input.Cap() - before, 1);
    if input.GroupCap() < room then input.GroupCap() else room
  }

  /** The first `n` groups were filled up, and the split policy closed the segment after none of them. */
  ghost predicate Filled(input: Input, closes: SplitPolicy, groups: seq<seq<Row>>, n: nat)
    requires n <= |groups|
  {
    forall k | 0 <= k < n :: FilledAt(input, closes, groups, k)
  }

  ghost predicate FilledAt(input: Input, closes: SplitPolicy, groups: seq<seq<Row>>, k: nat)
    requires k < |groups|
  {
    !closes(groups[..k + 1]) && |groups[k]| == GroupRoom(input, |Flat(groups[..k])|)
  }

  /** The split policy closed the segment after a row group that was filled up. */
  ghost predicate ClosedFull(input: Input, closes: SplitPolicy, groups: seq<seq<Row>>) {
    groups != [] && closes(groups) &&
    |groups[|groups| - 1]| == GroupRoom(input, |Flat(groups[..|groups| - 1])|)
  }

  /** Each segment but the last was closed by the split policy, or because the next one is of another scope. */
  ghost predicate CutForReason(input: Input, closes: SplitPolicy, chunks: seq<Chunk>) {
    forall i | 0 <= i < |chunks| - 1 ::
      ClosedFull(input, closes, chunks[i].groups) || chunks[i].scope != chunks[i + 1].scope
  }

  ghost predicate MayOpen(input: Input, closes: SplitPolicy, chunks: seq<Chunk>, scope: Option<string>) {
    chunks == [] || ClosedFull(input, closes, chunks[|chunks| - 1].groups) || chunks[|chunks| - 1].scope != scope
  }

  ghost predicate OneScope(input: Input, rows: seq<Row>, scope: Option<string>) {
    input.scopeColumn.Some? ==> forall r | r in rows :: RowScope(r, input.scopeColumn.value) == scope
  }

  /** No segment is empty, exceeds the row cap or a row group's cap, or mixes scopes; each carries its rows' scope, and
      only its last group may be short. */
  ghost predicate GoodChunk(input: Input, closes: SplitPolicy, c: Chunk) {
    && GoodGroups(input, c.groups) && 0 < |Flat(c.groups)| <= input.Cap()
    && Filled(input, closes, c.groups, |c.groups| - 1)
    && OneScope(input, Flat(c.groups), c.scope)
    && (input.scopeColumn.None? ==> c.scope.None?)
  }

  ghost predicate GoodChunks(input: Input, closes: SplitPolicy, chunks: seq<Chunk>) {
    CutForReason(input, closes, chunks) && forall i | 0 <= i < |chunks| :: GoodChunk(input, closes, chunks[i])
  }

  lemma {:induction false} GoodChunksMore(input: Input, closes: SplitPolicy, chunks: seq<Chunk>, c: Chunk)
    requires GoodChunks(input, closes, chunks) && GoodChunk(input, closes, c) && MayOpen(input, closes, chunks, c.scope)
    ensures GoodChunks(input, closes, chunks + [c])
  {
    hide GoodChunk;
  }

  lemma {:induction false} FilledMore(input: Input, closes: SplitPolicy, groups: seq<seq<Row>>, g: seq<Row>)
    requires Filled(input, closes, groups, |groups|)
    ensures Filled(input, closes, groups + [g], |groups|)
    ensures !closes(groups + [g]) && |g| == GroupRoom(input, |Flat(groups)|) ==>
              Filled(input, closes, groups + [g], |groups| + 1)
  {
    hide GroupRoom, Flat;
    var all := groups + [g];
    forall k | 0 <= k < |groups| ensures FilledAt(input, closes, all, k) {
      assert FilledAt(input, closes, groups, k);
      assert all[..k + 1] == groups[..k + 1] && all[..k] == groups[..k];
    }
    assert all[..|all|] == all && all[..|groups|] == groups;
  }

  ghost predicate ClosesAtCap(input: Input, closes: SplitPolicy) {
    forall groups: seq<seq<Row>> :: |Flat(groups)| >= input.Cap() ==> closes(groups)
  }

  // ---- What a written segment looks like ----

  /** A segment of a scoped table carries the scope of its rows: that of the scope cell for a live row, the recorded
      one for a delete marker, and none for a NULL, an empty text or a cell of another kind. */
  lemma {:induction false} ChunkScopeIsCell(input: Input, closes: SplitPolicy, c: Chunk, r: Row)
    requires GoodChunk(input, closes, c) && r in Flat(c.groups) && input.scopeColumn.Some?
    ensures var column := input.scopeColumn.value;
            && (r.op == 3 ==> c.scope == if r.scope == Some("") then None else r.scope)
            && (r.op != 3 && column >= |r.values| ==> c.scope == None)
            && (r.op != 3 && column < |r.values| ==>
                  match r.values[column]
                  case TextCell(text) => c.scope == if text == "" then None else Some(text)
                  case IntCell(n) => c.scope == Some(IntText(n))
                  case BoolCell(b) => c.scope == Some(if b then "true" else "false")
                  case NullCell => c.scope == None
                  case OtherCell => c.scope == None)
  {
    hide Flat, GoodGroups, Filled;
    if r.op != DELETE_OP && input.scopeColumn.value < |r.values| && r.values[input.scopeColumn.value].IntCell? {
      IntTextNotEmpty(r.values[input.scopeColumn.value].n);
    }
  }

  /** A table without a scope column has segments without scope. */
  lemma {:induction false} UnscopedChunk(input: Input, closes: SplitPolicy, c: Chunk)
    requires GoodChunk(input, closes, c) && input.scopeColumn.None?
    ensures c.scope == None
  {
    hide Flat, GoodGroups, Filled;
  }

  lemma {:induction false} FlatFront(groups: seq<seq<Row>>, k: nat)
    requires k < |groups|
    ensures |Flat(groups[..k])| + |groups[k]| <= |Flat(groups)|
    ensures k + 1 < |groups| && groups[k + 1] != [] ==> |Flat(groups[..k])| + |groups[k]| < |Flat(groups)|
    decreases |groups|
  {
    var n := |groups| - 1;
    if k < n {
      assert groups[..n][..k] == groups[..k];
      FlatFront(groups[..n], k);
    }
  }

  /** Row groups are full but for the last of a segment, and a segment has at most the rows of the cap. The last group
      of a segment that the split policy closed is full too, or reaches the cap. Limits below one row count as one row.
      */
  lemma {:induction false} GroupsAreFull(input: Input, closes: SplitPolicy, c: Chunk, k: nat)
    requires GoodChunk(input, closes, c) && k < |c.groups|
    ensures var size := if input.rowGroupSize == 0 then 1 else input.rowGroupSize;
            var cap := if input.maxRowsPerFile == 0 then 1 else input.maxRowsPerFile;
            && (k + 1 < |c.groups| ==> |c.groups[k]| == size)
            && 0 < |c.groups[k]| <= size && |Flat(c.groups)| <= cap
            && (k + 1 == |c.groups| && ClosedFull(input, closes, c.groups) ==>
                  |c.groups[k]| == size || |Flat(c.groups)| == cap)
  {
    hide OneScope, Flat;
    FlatFront(c.groups, k);
    if k + 1 < |c.groups| {
      assert FilledAt(input, closes, c.groups, k);
    } else {
      LastGroup(c.groups);
    }
  }

  lemma {:induction false} LastGroup(groups: seq<seq<Row>>)
    requires groups != []
    ensures |Flat(groups)| == |Flat(groups[..|groups| - 1])| + |groups[|groups| - 1]|
  {
  }

  class SegmentEncoder {
    const input: Input
    const closes: SplitPolicy
    // The row group being filled.
    var pending: seq<Row>
    // The open segment's row groups; none before its first.
    var writer: Option<seq<seq<Row>>>
    var rowCount: nat
    // Scope of the segment being built; the outer `None` means no row yet.
    var currentScope: Option<Option<string>>
    var chunks: seq<Chunk>
    var rowsWritten: nat
    var maxSeq: int

    constructor (input: Input, closes: SplitPolicy)
      requires ClosesAtCap(input, closes)
      ensures Valid() && this.input == input && this.closes == closes && Rows() == []
    {
      hide ClosesAtCap, GoodChunk, Filled, OneScope, GoodGroups;
      this.input, this.closes := input, closes;
      pending, writer, rowCount := [], None, 0;
      currentScope, chunks, rowsWritten, maxSeq := None, [], 0, 0;
    }

    ghost function Open(): seq<Row>
      reads `writer
    {
      if writer.Some? then Flat(writer.value) else []
    }

    /** Every row taken so far, in order. */
    ghost function Rows(): seq<Row>
      reads `chunks, `writer, `pending
    {
      Written(chunks) + (Open() + pending)
    }

    function Scope(): Option<string>
      reads `currentScope
    {
      if currentScope.Some? then currentScope.value else None
    }

    ghost predicate AllFilled()
      reads `writer
    {
      writer.Some? ==> Filled(input, closes, writer.value, |writer.value|)
    }

    /** What holds between any two statements. */
    ghost predicate Consistent()
      reads `chunks, `writer, `pending, `rowCount, `currentScope
    {
      && ClosesAtCap(input, closes)
      && GoodChunks(input, closes, chunks)
      && rowCount == |Open()|
      && (writer.Some? ==> GoodGroups(input, writer.value) && rowCount > 0)
      && (writer.Some? ==> Filled(input, closes, writer.value, |writer.value| - 1))
      && (writer.Some? || pending != [] ==> OneScope(input, Open() + pending, Scope()))
      && (writer.Some? || pending != [] ==> MayOpen(input, closes, chunks, Scope()))
      && (input.scopeColumn.None? ==> currentScope.None?)
      && (currentScope.None? && input.scopeColumn.Some? ==> writer.None? && pending == [])
    }

    /** There is room for one more row, and a segment may be opened for it. */
    ghost predicate HasRoom()
      reads `chunks, `writer, `pending, `rowCount
    {
      && AllFilled() && |pending| < GroupRoom(input, rowCount) && rowCount < input.Cap()
      && (writer.None? && pending == [] ==>
            chunks == [] || ClosedFull(input, closes, chunks[|chunks| - 1].groups))
    }

    /** What holds between two rows. */
    ghost predicate Valid()
      reads this
    {
      Consistent() && HasRoom() && rowsWritten == |Rows()| && maxSeq == MaxSeq(Rows())
    }

    /** The pending rows become a row group of the open segment; true when the segment must close. */
    method PushBatch() returns (close: bool)
      requires Consistent() && AllFilled() && 0 < |pending| <= input.GroupCap()
      modifies this`pending, this`writer, this`rowCount
      ensures Consistent() && Rows() == old(Rows())
      ensures pending == [] && writer.Some? && rowCount == old(rowCount) + |old(pending)|
      ensures rowCount >= input.Cap() ==> close
      ensures close == closes(writer.value)
      ensures close && |old(pending)| == GroupRoom(input, old(rowCount)) ==> ClosedFull(input, closes, writer.value)
      ensures !close && |old(pending)| == GroupRoom(input, old(rowCount)) ==> AllFilled()
    {
      hide OneScope, GoodChunks, Filled, MayOpen, GroupRoom;
      var groups := if writer.Some? then writer.value else [];
      FlatMore(groups, pending);
      assert Flat(groups) == Open();
      assert Open() + pending + [] == Open() + pending;
      NoneFilled(input, closes);
      FilledMore(input, closes, groups, pending);
      assert (groups + [pending])[..|groups|] == groups;
      groups := groups + [pending];
      writer := Some(groups);
      rowCount := rowCount + |pending|;
      pending := [];
      close := closes(groups);
    }

    /** Closes the open segment, if any row group was written to it. */
    method FinishSegment()
      requires Consistent() && pending == [] && rowCount <= input.Cap()
      modifies this`writer, this`rowCount, this`chunks
      ensures Consistent() && Rows() == old(Rows())
      ensures writer.None? && rowCount == 0
      ensures chunks == old(chunks) + if old(writer).Some? then [Chunk(old(writer).value, Scope())] else []
    {
      hide ClosesAtCap, GoodChunks, Filled, MayOpen;
      if writer.None? {
        return;
      }
      var chunk := Chunk(writer.value, Scope());
      WrittenMore(chunks, chunk);
      assert Open() + pending == Flat(chunk.groups);
      GoodChunksMore(input, closes, chunks, chunk);
      chunks := chunks + [chunk];
      writer, rowCount := None, 0;
      assert Rows() == Written(chunks);
    }

    method CutSegment()
      requires Consistent() && AllFilled() && |pending| <= input.GroupCap() && rowCount + |pending| <= input.Cap()
      modifies this`pending, this`writer, this`rowCount, this`chunks
      ensures Consistent() && Rows() == old(Rows())
      ensures pending == [] && writer.None? && rowCount == 0 && old(chunks) <= chunks
      ensures old(writer).Some? || old(pending) != [] ==> chunks != [] && chunks[|chunks| - 1].scope == Scope()
      ensures old(writer).None? && old(pending) == [] ==> chunks == old(chunks)
    {
      hide Consistent, AllFilled, Rows, Scope;
      if |pending| > 0 {
        var _ := PushBatch();
      }
      FinishSegment();
    }

    /** Takes one row: a new scope first closes the open segment, a full row group is pushed, a full segment closed. */
    method AddRow(row: Row)
      requires Valid()
      modifies this
      ensures Valid() && Rows() == old(Rows()) + [row] && old(chunks) <= chunks
    {
      hide ClosesAtCap, GoodChunks, GoodGroups, OneScope, Consistent, Rows, RowScope, HasRoom;
      MaxSeqMore(Rows(), row);
      maxSeq := Max(maxSeq, row.seqId);
      EnterScope(row);
      rowsWritten := rowsWritten + 1;
      PushRow(row);
    }

    /** A different scope starts: the open segment closes, so that none mixes scopes. */
    method EnterScope(row: Row)
      requires Consistent() && HasRoom()
      modifies this`pending, this`writer, this`rowCount, this`chunks, this`currentScope
      ensures Consistent() && Rows() == old(Rows()) && old(chunks) <= chunks
      ensures input.scopeColumn.Some? ==> currentScope == Some(RowScope(row, input.scopeColumn.value))
      ensures AllFilled() && |pending| < GroupRoom(input, rowCount) && rowCount < input.Cap()
      ensures MayOpen(input, closes, chunks, Scope())
    {
      hide ClosesAtCap, GoodChunks, GoodGroups, RowScope, Flat, Written, Filled, OneScope;
      if input.scopeColumn.Some? {
        var scope := RowScope(row, input.scopeColumn.value);
        if currentScope.Some? && currentScope.value != scope {
          CutSegment();
        }
        currentScope := Some(scope);
      }
    }

    method PushRow(row: Row)
      requires Consistent()
      requires input.scopeColumn.Some? ==> currentScope == Some(RowScope(row, input.scopeColumn.value))
      requires AllFilled() && |pending| < GroupRoom(input, rowCount) && rowCount < input.Cap()
      requires MayOpen(input, closes, chunks, Scope())
      modifies this`pending, this`writer, this`rowCount, this`chunks
      ensures Consistent() && HasRoom() && Rows() == old(Rows()) + [row] && old(chunks) <= chunks
    {
      hide ClosesAtCap, GoodChunks, GoodGroups, Filled, RowScope, Flat, Written;
      pending := pending + [row];
      assert Open() + pending == old(Open() + pending) + [row];
      assert Rows() == old(Rows()) + [row];
      if |pending| >= GroupRoom(input, rowCount) {
        var close := PushBatch();
        if close {
          FinishSegment();
        }
      }
    }

    /** Writes out what is left; every row taken is then in a written segment. */
    method Finish()
      requires Valid()
      modifies this
      ensures Written(chunks) == old(Rows()) && GoodChunks(input, closes, chunks) && old(chunks) <= chunks
      ensures rowsWritten == |Written(chunks)| && maxSeq == MaxSeq(Written(chunks))
    {
      hide ClosesAtCap, GoodChunks, GoodGroups, Filled, OneScope, MaxSeq, MayOpen;
      CutSegment();
      assert Open() + pending == [];
      assert Rows() == Written(chunks);
    }
  }

  lemma {:induction false} NoneFilled(input: Input, closes: SplitPolicy)
    ensures Filled(input, closes, [], 0)
  {
  }
}
