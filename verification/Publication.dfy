/** Flush, prune and compaction publication as a step system over one managed table. Every SQL statement is
    one atomic step; DML, WAL apply and crashes may fall between any two. */
module Publication {
  import opened Bytes
  import opened KeyBounds
  import opened ColdVersions
  import opened MirrorPages
  import FlushRows

  type SegId = nat

  /** A committed primary-key change that the WAL applier has not seen yet. */
  datatype Change = Change(key: KeyTuple, op: Op)

  /** Latest state of a key in the mirror. The order key is NOT NULL where the table has one. */
  datatype Entry = Entry(seqId: int, op: Op, orderKey: ByteString)

  datatype Status = Pending | Active | History | Compacted

  datatype Segment = Segment(status: Status, rows: set<ColdRow>)

  /** What one flush pass selects: mirror rows up to a watermark, by operation and by a filter on the hot
      row (which is NULL when the hot row is missing), in order of sequence number or of the order key. */
  datatype Selection = Selection(maxSeq: int, ops: Option<set<Op>>, filter: Option<Option<Image> -> bool>,
                                 ordered: bool)
  {
    predicate AllowsOp(op: Op) {
      ops.None? || ops.value == {} || op in ops.value
    }

    predicate Selects(e: Entry, hot: Option<Image>) {
      e.seqId <= maxSeq && AllowsOp(e.op) && (e.op.Delete? || filter.None? || filter.value(hot))
    }

    /** The cleanup statement's condition besides its bound; unlike the selection it demands that the hot row exists. */
    predicate Prunes(e: Entry, hot: Option<Image>) {
      AllowsOp(e.op) && (e.op.Delete? || filter.None? || (hot.Some? && filter.value(hot)))
    }
  }

  /** An attempt that holds the table's job lock: its page cursor, whether a short page has ended the pass, the rows it
      fetched and the segments it wrote. */
  datatype Flush = Flush(sel: Selection, cursor: Cursor, done: bool, collected: set<ColdRow>, ids: set<SegId>,
                         activated: bool)
  {
    /** At most the greatest sequence number the pass wrote, which is what the cleanup statement is given. */
    ghost predicate UpToWritten(n: int) {
      exists r | r in collected :: n <= r.seqId
    }
  }

  /** `issued` are the segment ids handed out so far; ids are random and never repeat. `table` is the logical table,
      which no step looks at. */
  datatype State = State(
    hot: map<KeyTuple, Image>,
    wal: seq<Change>,
    mirror: map<KeyTuple, Entry>,
    lastSeq: int,
    segments: map<SegId, Segment>,
    issued: set<SegId>,
    generation: Option<nat>,
    flush: Option<Flush>,
    table: map<KeyTuple, Image>)

  function Lookup(m: map<KeyTuple, Image>, key: KeyTuple): Option<Image> {
    if key in m then Some(m[key]) else None
  }

  predicate Queued(wal: seq<Change>, key: KeyTuple) {
    exists i | 0 <= i < |wal| :: wal[i].key == key
  }

  /** The last queued operation on `key`. */
  function LastOp(wal: seq<Change>, key: KeyTuple): (op: Op)
    requires Queued(wal, key)
  {
    if wal[|wal| - 1].key == key then wal[|wal| - 1].op else LastOp(wal[..|wal| - 1], key)
  }

  ghost function RowsOf(segments: map<SegId, Segment>, ids: set<SegId>): set<ColdRow> {
    set id, r | id in ids && id in segments && r in segments[id].rows :: r
  }

  ghost function ActiveIds(segments: map<SegId, Segment>): set<SegId> {
    set id | id in segments && segments[id].status == Active
  }

  ghost function ActiveRows(segments: map<SegId, Segment>): set<ColdRow> {
    RowsOf(segments, ActiveIds(segments))
  }

  // ---- Reads ----

  /** The key is deleted in the latest state: by the last queued change, or else by the mirror. */
  ghost predicate Tombstoned(s: State, key: KeyTuple) {
    if Queued(s.wal, key) then LastOp(s.wal, key).Delete? else key in s.mirror && s.mirror[key].op.Delete?
  }

  /** The merged read with the queue taken into account: a hot row wins, else a tombstone hides the key,
      else the newest active cold version is shown unless it is a delete marker. */
  ghost function Read(s: State, key: KeyTuple): Option<Image> {
    if key in s.hot then Some(s.hot[key])
    else if Tombstoned(s, key) then None
    else ColdAnswer(ActiveRows(s.segments), key)
  }

  /** The same read without the queue, as a scan that does not fence performs it. */
  ghost function UnfencedRead(s: State, key: KeyTuple): Option<Image> {
    if key in s.hot then Some(s.hot[key])
    else if key in s.mirror && s.mirror[key].op.Delete? then None
    else ColdAnswer(ActiveRows(s.segments), key)
  }

  // ---- Steps ----

  datatype Step =
    | Put(key: KeyTuple, image: Image)                // INSERT or UPDATE of a hot row, committed
    | Erase(key: KeyTuple)                            // DELETE of a hot row, committed
    | ApplyWal(seqId: int, orderKey: ByteString)      // the applier moves the oldest change to the mirror
    | BeginFlush(sel: Selection)
    | FetchPage(limit: nat, page: seq<FlushRows.Row>) // one keyset page of the selection
    | WriteSegment(id: SegId, rows: set<ColdRow>)     // pending insert of a written segment
    | ActivateFlush(expected: nat)
    | Prune
    | Crash                                           // the attempt ends, by a failed check or the loss of its lock
    | WriteRewrite(id: SegId, rows: set<ColdRow>)     // pending insert by compaction
    | ActivateCompaction(expected: nat, rewritten: set<SegId>, replaced: set<SegId>, history: set<SegId>,
                         dropMarkers: bool)
    | Reap(id: SegId)                                 // removal of a segment that no reader lists

  function OpCode(op: Op): int {
    match op
    case Insert => 1
    case Update => 2
    case Delete => FlushRows.DELETE_OP
  }

  /** A mirror entry as the page query sees it. */
  function MirrorRow(key: KeyTuple, e: Entry): FlushRows.Row {
    FlushRows.Row(e.seqId, OpCode(e.op), FrameTuple(key), [], Some(e.orderKey), None)
  }

  ghost function SelectedRows(s: State, sel: Selection): set<FlushRows.Row> {
    set k | k in s.mirror && sel.Selects(s.mirror[k], Lookup(s.hot, k)) :: MirrorRow(k, s.mirror[k])
  }

  /** What a page returns: the mirror's sequence number and operation, the hot row's image. */
  ghost function PageRows(s: State, sel: Selection, page: seq<FlushRows.Row>): set<ColdRow> {
    set k | k in s.mirror && MirrorRow(k, s.mirror[k]) in page && sel.Selects(s.mirror[k], Lookup(s.hot, k)) ::
      ColdRow(k, s.mirror[k].seqId, s.mirror[k].op, if s.mirror[k].op.Delete? then None else Lookup(s.hot, k))
  }

  ghost function PrunedKeys(s: State, f: Flush): set<KeyTuple> {
    set k | k in s.mirror && f.UpToWritten(s.mirror[k].seqId) && f.sel.Prunes(s.mirror[k], Lookup(s.hot, k))
  }

  ghost function SetStatus(segments: map<SegId, Segment>, ids: set<SegId>, from: Status,
                           to: Status): map<SegId, Segment> {
    map id | id in segments ::
      if id in ids && segments[id].status == from then segments[id].(status := to) else segments[id]
  }

  /** The manifest row is inserted when it does not exist, else updated only from the expected generation. */
  predicate FlushWinsCas(generation: Option<nat>, expected: nat) {
    generation.None? || generation.value == expected
  }

  /** The whole compaction statement takes effect, or none of it: the generation must be the expected one and
      every listed segment must still have the status it is moved from. */
  ghost predicate CompactionWinsCas(s: State, expected: nat, rewritten: set<SegId>, replaced: set<SegId>,
                                    history: set<SegId>) {
    && s.generation == Some(expected)
    && (forall id | id in replaced :: id in s.segments && s.segments[id].status == Active)
    && (forall id | id in rewritten + history :: id in s.segments && s.segments[id].status == Pending)
    && rewritten !! history
  }

  ghost predicate Enabled(s: State, step: Step) {
    match step
    case Put(_, _) => true
    case Erase(key) => key in s.hot
    case ApplyWal(seqId, _) => s.wal != [] && seqId > s.lastSeq
    case BeginFlush(sel) => s.flush.None? && sel.maxSeq <= s.lastSeq
    case FetchPage(limit, page) =>
      && s.flush.Some? && !s.flush.value.done && limit > 0
      && (var f := s.flush.value; IsPage(f.sel.ordered, SelectedRows(s, f.sel), f.cursor, limit, page))
    case WriteSegment(id, rows) =>
      s.flush.Some? && !s.flush.value.activated && id !in s.issued && rows <= s.flush.value.collected
    case ActivateFlush(_) => s.flush.Some? && ReadyToActivate(s, s.flush.value)
    case Prune => s.flush.Some? && s.flush.value.activated && s.wal == []
    case Crash => true
    case WriteRewrite(id, _) => id !in s.issued
    case ActivateCompaction(expected, rewritten, replaced, history, dropMarkers) =>
      && s.flush.None?
      && (CompactionWinsCas(s, expected, rewritten, replaced, history) ==>
            var unit := RowsOf(s.segments, replaced);
            && IsRewrite(unit, RowsOf(s.segments, rewritten), dropMarkers)
            && (dropMarkers ==> NoSharedKey(RowsOf(s.segments, ActiveIds(s.segments) - replaced), unit)))
    case Reap(id) => id in s.segments && s.segments[id].status != Active && (s.flush.Some? ==> id !in s.flush.value.ids)
  }

  /** A short page has ended the pass, and every row fetched is written. Nothing looks at the mirror again. */
  ghost predicate ReadyToActivate(s: State, f: Flush) {
    !f.activated && f.done && f.collected <= RowsOf(s.segments, f.ids)
  }

  ghost function Do(s: State, step: Step): State
    requires Enabled(s, step)
  {
    match step
    case Put(key, image) =>
      s.(hot := s.hot[key := image], wal := s.wal + [Change(key, if key in s.hot then Update else Insert)],
         table := s.table[key := image])
    case Erase(key) =>
      s.(hot := s.hot - {key}, wal := s.wal + [Change(key, Delete)], table := s.table - {key})
    case ApplyWal(seqId, orderKey) =>
      s.(wal := s.wal[1..], mirror := s.mirror[s.wal[0].key := Entry(seqId, s.wal[0].op, orderKey)], lastSeq := seqId)
    case BeginFlush(sel) =>
      s.(flush := Some(Flush(sel, InitialPageCursor(sel.ordered), false, {}, {}, false)))
    case FetchPage(limit, page) =>
      var f := s.flush.value;
      s.(flush := Some(f.(cursor := if page == [] then f.cursor else NextPageCursor(f.sel.ordered, page[|page| - 1]),
                          done := |page| < limit, collected := f.collected + PageRows(s, f.sel, page))))
    case WriteSegment(id, rows) =>
      s.(segments := s.segments[id := Segment(Pending, rows)], issued := s.issued + {id},
         flush := Some(s.flush.value.(ids := s.flush.value.ids + {id})))
    case ActivateFlush(expected) =>
      if FlushWinsCas(s.generation, expected) then
        s.(generation := Some(expected + 1), segments := SetStatus(s.segments, s.flush.value.ids, Pending, Active),
           flush := Some(s.flush.value.(activated := true)))
      else s.(flush := None)
    case Prune => AfterPrune(s)
    case Crash => s.(flush := None)
    case WriteRewrite(id, rows) =>
      s.(segments := s.segments[id := Segment(Pending, rows)], issued := s.issued + {id})
    case ActivateCompaction(expected, rewritten, replaced, history, _) =>
      if CompactionWinsCas(s, expected, rewritten, replaced, history) then
        s.(generation := Some(expected + 1),
           segments := SetStatus(SetStatus(SetStatus(s.segments, replaced, Active, Compacted),
                                           rewritten, Pending, Active), history, Pending, History))
      else s
    case Reap(id) => s.(segments := s.segments - {id})
  }

  /** The cleanup statement: the pruned mirror rows go, and with them the hot rows of those that are not deletes. */
  ghost function AfterPrune(s: State): State
    requires s.flush.Some?
  {
    var removed := PrunedKeys(s, s.flush.value);
    var live := set k | k in removed && !s.mirror[k].op.Delete?;
    s.(mirror := s.mirror - removed, hot := s.hot - live, flush := None)
  }

  /** A table as `manage_table` leaves it: every hot row has a mirror entry, nothing is queued or cold. */
  ghost predicate Init(s: State) {
    && s.wal == [] && s.segments == map[] && s.generation.None? && s.flush.None? && s.table == s.hot
    && s.mirror.Keys == s.hot.Keys
    && s.lastSeq >= 0 && forall k | k in s.mirror :: s.mirror[k].op == Insert && 0 < s.mirror[k].seqId <= s.lastSeq
  }

  ghost predicate Next(s: State, s': State) {
    exists step :: Enabled(s, step) && s' == Do(s, step)
  }

  /** Any finite run, with steps of all kinds interleaved in any order. */
  ghost predicate Run(states: seq<State>) {
    && states != [] && Init(states[0])
    && (forall i | 0 < i < |states| :: Next(states[i - 1], states[i]))
  }
}
