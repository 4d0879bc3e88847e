/** In every run the merged read equals the logical table, and what each step keeps to make it so. */
module PublicationSafety {
  import opened Bytes
  import opened KeyBounds
  import opened ColdVersions
  import opened Publication
  import opened MirrorPages
  import FlushRows

  // ---- The invariant ----

  /** The hot heap agrees with the latest state of every key. */
  ghost predicate Coherent(s: State) {
    forall k: KeyTuple :: k in s.hot <==>
      if Queued(s.wal, k) then !LastOp(s.wal, k).Delete? else k in s.mirror && !s.mirror[k].op.Delete?
  }

  /** Sequence numbers are positive, and none is ahead of the last one handed out; so with segment ids. */
  ghost predicate SeqsBelow(s: State) {
    && s.lastSeq >= 0 && (forall k | k in s.mirror :: 0 < s.mirror[k].seqId <= s.lastSeq)
    && (forall r | r in ActiveRows(s.segments) :: r.seqId <= s.lastSeq)
    && s.segments.Keys <= s.issued
  }

  /** A cold row is never newer than its key's mirror entry, and a row with the entry's sequence number is an
      exact copy of the current version, unless a newer change of the key is still queued. */
  ghost predicate RowTrue(s: State, r: ColdRow) {
    r.key in s.mirror ==>
      var e := s.mirror[r.key];
      && r.seqId <= e.seqId
      && (r.seqId == e.seqId ==>
            && r.op == e.op
            && (Queued(s.wal, r.key) || r.op.Delete? || (r.key in s.hot && r.image == Some(s.hot[r.key]))))
  }

  ghost predicate RowsTrue(s: State, rows: set<ColdRow>) {
    forall r | r in rows :: RowTrue(s, r)
  }

  ghost predicate KeyTrue(s: State, k: KeyTuple) {
    if k in s.hot then k in s.table && s.table[k] == s.hot[k]
    else if Tombstoned(s, k) then k !in s.table
    else ColdSays(ActiveRows(s.segments), k, Lookup(s.table, k))
  }

  /** What the merged read shows of any key is what the table holds. */
  ghost predicate TableTrue(s: State) {
    forall k: KeyTuple :: KeyTrue(s, k)
  }

  ghost predicate Collected(f: Flush, k: KeyTuple, seqId: int) {
    exists r | r in f.collected :: r.key == k && r.seqId == seqId
  }

  /** No later page can return the row: the pass is over, or its cursor is past it. */
  predicate Passed(f: Flush, r: FlushRows.Row) {
    f.done || !Reaches(f.cursor, r)
  }

  /** The key is selected, unchanged since the mirror saw it, and no later page can return it. */
  ghost predicate Due(s: State, f: Flush, k: KeyTuple)
    requires k in s.mirror
  {
    !Queued(s.wal, k) && f.sel.Selects(s.mirror[k], Lookup(s.hot, k)) && Passed(f, MirrorRow(k, s.mirror[k]))
  }

  /** The row is one the pass was asked for: up to the watermark, of a listed operation, and passing the filter. */
  ghost predicate Asked(sel: Selection, r: ColdRow) {
    && r.seqId <= sel.maxSeq
    && (sel.ops.None? || sel.ops.value == {} || r.op in sel.ops.value)
    && (r.op.Delete? || sel.filter.None? || sel.filter.value(r.image))
  }

  /** The rows gathered so far are true copies, and a selected row that the cursor has passed is among them
      as long as its key has not changed since. */
  ghost predicate CollectedTrue(s: State, f: Flush) {
    && f.sel.maxSeq <= s.lastSeq
    && RowsTrue(s, f.collected)
    && (forall r | r in f.collected :: r.key in s.mirror && Asked(f.sel, r))
    && (forall k | k in s.mirror && Due(s, f, k) :: Collected(f, k, s.mirror[k].seqId))
  }

  /** The attempt's segments hold collected rows only; once activated they hold all of them and the pass is over. */
  ghost predicate WrittenTrue(s: State, f: Flush) {
    && (forall id | id in f.ids :: id in s.segments && s.segments[id].rows <= f.collected
                                   && s.segments[id].status == if f.activated then Active else Pending)
    && (f.activated ==> f.collected <= RowsOf(s.segments, f.ids))
    && (f.activated ==> f.done)
  }

  ghost predicate FlushTrue(s: State) {
    s.flush.Some? ==> CollectedTrue(s, s.flush.value) && WrittenTrue(s, s.flush.value)
  }

  ghost predicate Inv(s: State) {
    Coherent(s) && SeqsBelow(s) && RowsTrue(s, ActiveRows(s.segments)) && TableTrue(s) && FlushTrue(s)
  }

  // ---- Small facts ----

  lemma {:induction false} LastOpQueued(wal: seq<Change>, c: Change, k: KeyTuple)
    ensures Queued(wal + [c], k) <==> Queued(wal, k) || c.key == k
    ensures Queued(wal + [c], k) ==> LastOp(wal + [c], k) == if c.key == k then c.op else LastOp(wal, k)
  {
    var grown := wal + [c];
    if Queued(wal, k) {
      var i :| 0 <= i < |wal| && wal[i].key == k;
      assert grown[i].key == k;
    }
    if c.key == k {
      assert grown[|wal|].key == k;
    }
    if Queued(grown, k) && c.key != k {
      var i :| 0 <= i < |grown| && grown[i].key == k;
      assert wal[i].key == k;
    }
    assert grown[..|grown| - 1] == wal;
  }

  lemma {:induction false} LastOpApplied(wal: seq<Change>, k: KeyTuple)
    requires wal != []
    ensures Queued(wal, k) <==> Queued(wal[1..], k) || wal[0].key == k
    ensures Queued(wal, k) ==> LastOp(wal, k) == if Queued(wal[1..], k) then LastOp(wal[1..], k) else wal[0].op
  {
    if |wal| == 1 {
      assert wal[1..] == [];
      assert wal[0].key == k ==> wal[|wal| - 1].key == k;
    } else {
      var init, last := wal[..|wal| - 1], wal[|wal| - 1];
      assert wal == init + [last] && wal[1..] == init[1..] + [last];
      LastOpApplied(init, k);
      LastOpQueued(init, last, k);
      LastOpQueued(init[1..], last, k);
    }
  }

  /** The cold answer depends only on the rows of the key. */
  lemma {:induction false} ColdSaysByKey(a: set<ColdRow>, b: set<ColdRow>, k: KeyTuple, answer: Option<Image>)
    requires forall r: ColdRow | r.key == k :: r in a <==> r in b
    requires ColdSays(a, k, answer)
    ensures ColdSays(b, k, answer)
  {
    forall r | Newest(b, r) && r.key == k ensures Shown(r) == answer {
      assert Newest(a, r);
    }
  }

  // ---- Committed DML ----

  /** A commit that touches one key: its change is queued, every other key is as before. */
  ghost predicate Commits(s: State, s': State, key: KeyTuple, op: Op) {
    && s' == s.(hot := s'.hot, wal := s.wal + [Change(key, op)], table := s'.table)
    && (forall k: KeyTuple | k != key ::
          Lookup(s'.hot, k) == Lookup(s.hot, k) && Lookup(s'.table, k) == Lookup(s.table, k))
    && Lookup(s'.hot, key) == Lookup(s'.table, key)
    && (key in s'.hot <==> !op.Delete?)
  }

  lemma {:induction false} CommitKeepsRows(s: State, s': State, key: KeyTuple, op: Op, rows: set<ColdRow>)
    requires Commits(s, s', key, op) && RowsTrue(s, rows)
    ensures RowsTrue(s', rows)
  {
    forall r | r in rows ensures RowTrue(s', r) {
      assert RowTrue(s, r);
      LastOpQueued(s.wal, Change(key, op), r.key);
      assert Lookup(s'.hot, r.key) == Lookup(s.hot, r.key) || r.key == key;
    }
  }

  lemma {:induction false} CommitKeepsTable(s: State, s': State, key: KeyTuple, op: Op)
    requires Commits(s, s', key, op) && Coherent(s) && TableTrue(s)
    ensures Coherent(s') && TableTrue(s')
  {
    forall k: KeyTuple
      ensures KeyTrue(s', k)
      ensures k in s'.hot <==>
              if Queued(s'.wal, k) then !LastOp(s'.wal, k).Delete?
              else k in s'.mirror && !s'.mirror[k].op.Delete?
    {
      LastOpQueued(s.wal, Change(key, op), k);
      assert KeyTrue(s, k);
      assert k != key ==> Lookup(s'.hot, k) == Lookup(s.hot, k) && Lookup(s'.table, k) == Lookup(s.table, k);
    }
  }

  lemma {:induction false} CommitKeepsFlush(s: State, s': State, key: KeyTuple, op: Op)
    requires Commits(s, s', key, op) && FlushTrue(s)
    ensures FlushTrue(s')
  {
    if s.flush.Some? {
      var f := s.flush.value;
      CommitKeepsRows(s, s', key, op, f.collected);
      forall k | k in s'.mirror && Due(s', f, k) ensures Collected(f, k, s'.mirror[k].seqId) {
        LastOpQueued(s.wal, Change(key, op), k);
        assert Lookup(s'.hot, k) == Lookup(s.hot, k) && Due(s, f, k);
      }
    }
  }

  lemma {:induction false} CommitKeeps(s: State, s': State, key: KeyTuple, op: Op)
    requires Inv(s) && Commits(s, s', key, op)
    ensures Inv(s')
  {
    CommitKeepsTable(s, s', key, op);
    CommitKeepsRows(s, s', key, op, ActiveRows(s.segments));
    CommitKeepsFlush(s, s', key, op);
  }

  // ---- WAL apply ----

  ghost predicate Applies(s: State, s': State, seqId: int) {
    && s.wal != [] && seqId > s.lastSeq && s.wal[0].key in s'.mirror
    && (var e := Entry(seqId, s.wal[0].op, s'.mirror[s.wal[0].key].orderKey);
        s' == s.(wal := s.wal[1..], mirror := s.mirror[s.wal[0].key := e], lastSeq := seqId))
  }

  lemma {:induction false} ApplyKeepsRows(s: State, s': State, seqId: int, rows: set<ColdRow>)
    requires Applies(s, s', seqId) && RowsTrue(s, rows) && forall r | r in rows :: r.seqId <= s.lastSeq
    ensures RowsTrue(s', rows)
  {
    forall r | r in rows ensures RowTrue(s', r) {
      assert RowTrue(s, r);
      LastOpApplied(s.wal, r.key);
    }
  }

  lemma {:induction false} ApplyKeepsTable(s: State, s': State, seqId: int)
    requires Applies(s, s', seqId) && Coherent(s) && TableTrue(s)
    ensures Coherent(s') && TableTrue(s')
  {
    forall k: KeyTuple
      ensures KeyTrue(s', k)
      ensures k in s'.hot <==>
              if Queued(s'.wal, k) then !LastOp(s'.wal, k).Delete?
              else k in s'.mirror && !s'.mirror[k].op.Delete?
    {
      LastOpApplied(s.wal, k);
      assert KeyTrue(s, k);
    }
  }

  lemma {:induction false} ApplyKeepsFlush(s: State, s': State, seqId: int)
    requires Applies(s, s', seqId) && FlushTrue(s)
    ensures FlushTrue(s')
  {
    if s.flush.Some? {
      var f := s.flush.value;
      ApplyKeepsRows(s, s', seqId, f.collected);
      forall k | k in s'.mirror && Due(s', f, k) ensures Collected(f, k, s'.mirror[k].seqId) {
        LastOpApplied(s.wal, k);
        assert s'.mirror[k].seqId <= f.sel.maxSeq;
        assert k != s.wal[0].key && Due(s, f, k);
      }
    }
  }

  lemma {:induction false} ApplyKeeps(s: State, s': State, seqId: int)
    requires Inv(s) && Applies(s, s', seqId)
    ensures Inv(s')
  {
    ApplyKeepsTable(s, s', seqId);
    ApplyKeepsRows(s, s', seqId, ActiveRows(s.segments));
    ApplyKeepsFlush(s, s', seqId);
  }

  // ---- A flush pass ----

  /** A page can be read at any time, even while changes are queued: what it copies is still true. */
  lemma {:induction false} PageRowsTrue(s: State, sel: Selection, page: seq<FlushRows.Row>)
    requires Coherent(s)
    ensures RowsTrue(s, PageRows(s, sel, page))
  {
    hide MirrorRow;
    forall r | r in PageRows(s, sel, page) ensures RowTrue(s, r) {
      assert !Queued(s.wal, r.key) && !r.op.Delete? ==> r.key in s.hot;
    }
  }

  /** A selected row that a page neither returns nor leaves to a later page was passed before. */
  lemma {:induction false} PageLeaves(s: State, limit: nat, page: seq<FlushRows.Row>, k: KeyTuple)
    requires SeqsBelow(s) && Enabled(s, FetchPage(limit, page)) && k in s.mirror
    requires Due(Do(s, FetchPage(limit, page)), Do(s, FetchPage(limit, page)).flush.value, k)
    ensures Due(s, s.flush.value, k) || MirrorRow(k, s.mirror[k]) in page
  {
    hide MirrorRow, Reaches, Before, NextPageCursor, Queued;
    var f, row := s.flush.value, MirrorRow(k, s.mirror[k]);
    var eligible := SelectedRows(s, f.sel);
    if Reaches(f.cursor, row) && row !in page {
      assert row in eligible;
      assert ComesLater(f.sel.ordered, limit, page, row);
      SelectedHaveKeys(s, f.sel);
      PageAhead(f.sel.ordered, page, row);
      assert false;
    }
  }

  lemma {:induction false} SelectedHaveKeys(s: State, sel: Selection)
    requires SeqsBelow(s)
    ensures forall r | r in SelectedRows(s, sel) :: r.orderKey.Some? && r.seqId > 0
  {
    hide FrameTuple;
  }

  lemma {:induction false} FetchKeeps(s: State, limit: nat, page: seq<FlushRows.Row>)
    requires Inv(s) && Enabled(s, FetchPage(limit, page))
    ensures Inv(Do(s, FetchPage(limit, page)))
  {
    hide MirrorRow, Due, IsPage;
    var f, s' := s.flush.value, Do(s, FetchPage(limit, page));
    var f', rows := s'.flush.value, PageRows(s, f.sel, page);
    PageRowsTrue(s, f.sel, page);
    assert RowsTrue(s', f'.collected) by {
      forall r | r in f'.collected ensures RowTrue(s', r) {
        assert RowTrue(s, r);
      }
    }
    forall k | k in s.mirror && Due(s', f', k) ensures Collected(f', k, s.mirror[k].seqId) {
      PageLeaves(s, limit, page, k);
      if MirrorRow(k, s.mirror[k]) in page {
        DueIsSelected(s', f', k);
        var e := s.mirror[k];
        var r := ColdRow(k, e.seqId, e.op, if e.op.Delete? then None else Lookup(s.hot, k));
        assert r in rows && r in f'.collected;
      } else {
        assert Collected(f, k, s.mirror[k].seqId);
        var r :| r in f.collected && r.key == k && r.seqId == s.mirror[k].seqId;
        assert r in f'.collected;
      }
    }
    SameDataKeeps(s, s');
  }

  lemma {:induction false} DueIsSelected(s: State, f: Flush, k: KeyTuple)
    requires k in s.mirror && Due(s, f, k)
    ensures f.sel.Selects(s.mirror[k], Lookup(s.hot, k)) && !Queued(s.wal, k)
  {
  }

  /** The invariant's other parts do not mention the attempt. */
  lemma {:induction false} SameDataKeeps(s: State, s': State)
    requires s' == s.(flush := s'.flush) && Inv(s)
    ensures FlushTrue(s') ==> Inv(s')
  {
    forall k: KeyTuple ensures KeyTrue(s', k) {
      assert KeyTrue(s, k);
    }
    forall r | r in ActiveRows(s.segments) ensures RowTrue(s', r) {
      assert RowTrue(s, r);
    }
  }

  lemma {:induction false} BeginKeeps(s: State, sel: Selection)
    requires Inv(s) && Enabled(s, BeginFlush(sel))
    ensures Inv(Do(s, BeginFlush(sel)))
  {
    hide FrameTuple;
    SameDataKeeps(s, Do(s, BeginFlush(sel)));
  }

  /** Steps that leave the active segments and everything but the attempt alone. */
  lemma {:induction false} SameActiveKeeps(s: State, s': State)
    requires s' == s.(segments := s'.segments, issued := s'.issued, flush := s'.flush) && Inv(s)
    requires s'.segments.Keys <= s'.issued && ActiveRows(s'.segments) == ActiveRows(s.segments)
    ensures FlushTrue(s') ==> Inv(s')
  {
    forall k: KeyTuple ensures KeyTrue(s', k) {
      assert KeyTrue(s, k);
    }
    forall r | r in ActiveRows(s.segments) ensures RowTrue(s', r) {
      assert RowTrue(s, r);
    }
  }

  lemma {:induction false} AddPendingActiveRows(segments: map<SegId, Segment>, id: SegId, rows: set<ColdRow>)
    requires id !in segments
    ensures ActiveRows(segments[id := Segment(Pending, rows)]) == ActiveRows(segments)
  {
    assert ActiveIds(segments[id := Segment(Pending, rows)]) == ActiveIds(segments);
  }

  lemma {:induction false} WriteSegmentKeeps(s: State, id: SegId, rows: set<ColdRow>)
    requires Inv(s) && Enabled(s, WriteSegment(id, rows))
    ensures Inv(Do(s, WriteSegment(id, rows)))
  {
    var s' := Do(s, WriteSegment(id, rows));
    AddPendingActiveRows(s.segments, id, rows);
    assert RowsTrue(s', s'.flush.value.collected) by {
      forall r | r in s'.flush.value.collected ensures RowTrue(s', r) {
        assert RowTrue(s, r);
      }
    }
    forall k | k in s.mirror && Due(s', s'.flush.value, k) ensures Collected(s'.flush.value, k, s.mirror[k].seqId) {
      assert Due(s, s.flush.value, k);
      assert Collected(s.flush.value, k, s.mirror[k].seqId);
    }
    assert FlushTrue(s');
    SameActiveKeeps(s, s');
  }

  lemma {:induction false} WriteRewriteKeeps(s: State, id: SegId, rows: set<ColdRow>)
    requires Inv(s) && Enabled(s, WriteRewrite(id, rows))
    ensures Inv(Do(s, WriteRewrite(id, rows)))
  {
    var s' := Do(s, WriteRewrite(id, rows));
    AddPendingActiveRows(s.segments, id, rows);
    KeepsFlushSegments(s, s');
    SameActiveKeeps(s, s');
  }

  lemma {:induction false} ReapKeeps(s: State, id: SegId)
    requires Inv(s) && Enabled(s, Reap(id))
    ensures Inv(Do(s, Reap(id)))
  {
    var s' := Do(s, Reap(id));
    assert ActiveIds(s'.segments) == ActiveIds(s.segments);
    assert ActiveRows(s'.segments) == ActiveRows(s.segments);
    KeepsFlushSegments(s, s');
    SameActiveKeeps(s, s');
  }

  /** A step that leaves the attempt and its segments alone leaves what is known of them alone. */
  lemma {:induction false} KeepsFlushSegments(s: State, s': State)
    requires FlushTrue(s) && s' == s.(segments := s'.segments, issued := s'.issued)
    requires s.flush.Some? ==> forall id | id in s.flush.value.ids ::
               id in s.segments && id in s'.segments && s'.segments[id] == s.segments[id]
    ensures FlushTrue(s')
  {
    if s.flush.Some? {
      var f := s.flush.value;
      assert RowsOf(s'.segments, f.ids) == RowsOf(s.segments, f.ids);
      assert RowsTrue(s', f.collected) by {
        forall r | r in f.collected ensures RowTrue(s', r) {
          assert RowTrue(s, r);
        }
      }
      forall k | k in s'.mirror && Due(s', f, k) ensures Collected(f, k, s'.mirror[k].seqId) {
        assert Due(s, f, k);
      }
    }
  }

  // ---- Activation ----

  lemma {:induction false} ActivatedRows(s: State, f: Flush)
    requires s.flush == Some(f) && !f.activated && WrittenTrue(s, f)
    ensures var after := SetStatus(s.segments, f.ids, Pending, Active);
            && ActiveRows(after) == ActiveRows(s.segments) + RowsOf(s.segments, f.ids)
            && RowsOf(after, f.ids) == RowsOf(s.segments, f.ids) <= f.collected
  {
    var after := SetStatus(s.segments, f.ids, Pending, Active);
    assert ActiveIds(after) == ActiveIds(s.segments) + f.ids;
    assert forall id | id in s.segments :: after[id].rows == s.segments[id].rows;
  }

  /** Publishing the pending segments changes no answer: their keys are all in the mirror. */
  lemma {:induction false} ActivateFlushKeeps(s: State, expected: nat)
    requires Inv(s) && Enabled(s, ActivateFlush(expected))
    ensures Inv(Do(s, ActivateFlush(expected)))
  {
    var f := s.flush.value;
    var s' := Do(s, ActivateFlush(expected));
    if FlushWinsCas(s.generation, expected) {
      ActivatedRows(s, f);
      var rows, rows' := ActiveRows(s.segments), ActiveRows(s'.segments);
      forall r | r in rows' ensures RowTrue(s', r) && r.seqId <= s.lastSeq {
        assert r in rows || r in f.collected;
        assert RowTrue(s, r);
      }
      forall r | r in f.collected ensures RowTrue(s', r) {
        assert RowTrue(s, r);
      }
      forall k: KeyTuple ensures KeyTrue(s', k) {
        assert KeyTrue(s, k);
        if k !in s.hot && !Tombstoned(s, k) {
          assert k !in s.mirror;
          ColdSaysByKey(rows, rows', k, Lookup(s.table, k));
        }
      }
      forall k | k in s.mirror && Due(s', s'.flush.value, k) ensures Collected(s'.flush.value, k, s.mirror[k].seqId) {
        assert Due(s, f, k);
        assert Collected(f, k, s.mirror[k].seqId);
      }
    } else {
      SameDataKeeps(s, s');
    }
  }

  // ---- Prune ----

  /** An attempt that has published its segments. */
  ghost predicate Published(s: State) {
    s.flush.Some? && s.flush.value.activated
  }

  /** When no change of the key is queued, what the cleanup statement removes is in an active segment in exactly its
      current version: same sequence number, same operation, same image. */
  lemma {:induction false} PruneRemovesOnlyPublished(s: State, k: KeyTuple)
    requires Inv(s) && Published(s) && !Queued(s.wal, k) && k in PrunedKeys(s, s.flush.value)
    ensures exists r | r in ActiveRows(s.segments) ::
              r.key == k && r.seqId == s.mirror[k].seqId && r.op == s.mirror[k].op
              && (!r.op.Delete? ==> k in s.hot && r.image == Some(s.hot[k]))
  {
    var f := s.flush.value;
    assert Due(s, f, k);
    assert Collected(f, k, s.mirror[k].seqId);
    var r :| r in f.collected && r.key == k && r.seqId == s.mirror[k].seqId;
    assert r in RowsOf(s.segments, f.ids);
    var id :| id in f.ids && id in s.segments && r in s.segments[id].rows;
    assert id in ActiveIds(s.segments);
    assert r in ActiveRows(s.segments);
    assert RowTrue(s, r);
  }

  /** So the cold side alone already gives the right answer for every pruned key. */
  lemma {:induction false} PrunedKeysReadCold(s: State, k: KeyTuple)
    requires Inv(s) && Published(s) && !Queued(s.wal, k) && k in PrunedKeys(s, s.flush.value)
    ensures ColdSays(ActiveRows(s.segments), k, Lookup(s.table, k))
  {
    PruneRemovesOnlyPublished(s, k);
    var rows := ActiveRows(s.segments);
    var copy :| copy in rows && copy.key == k && copy.seqId == s.mirror[k].seqId && copy.op == s.mirror[k].op
                && (!copy.op.Delete? ==> k in s.hot && copy.image == Some(s.hot[k]));
    assert KeyTrue(s, k);
    forall r | Newest(rows, r) && r.key == k ensures Shown(r) == Lookup(s.table, k) {
      assert RowTrue(s, r);
      assert r.seqId == s.mirror[k].seqId;
    }
  }

  lemma {:induction false} PruneKeeps(s: State)
    requires Inv(s) && Enabled(s, Prune)
    ensures Inv(Do(s, Prune))
  {
    var s' := Do(s, Prune);
    var removed := PrunedKeys(s, s.flush.value);
    forall r | r in ActiveRows(s.segments) ensures RowTrue(s', r) {
      assert RowTrue(s, r);
    }
    forall k: KeyTuple ensures KeyTrue(s', k) {
      assert KeyTrue(s, k);
      if k in removed {
        PrunedKeysReadCold(s, k);
      }
    }
  }

  // ---- Compaction ----

  lemma {:induction false} CompactedRows(s: State, expected: nat, rewritten: set<SegId>, replaced: set<SegId>,
                                         history: set<SegId>)
    requires CompactionWinsCas(s, expected, rewritten, replaced, history)
    ensures var after := SetStatus(SetStatus(SetStatus(s.segments, replaced, Active, Compacted),
                                             rewritten, Pending, Active), history, Pending, History);
            var outside := RowsOf(s.segments, ActiveIds(s.segments) - replaced);
            && ActiveRows(s.segments) == outside + RowsOf(s.segments, replaced)
            && ActiveRows(after) == outside + RowsOf(s.segments, rewritten)
  {
    var one := SetStatus(s.segments, replaced, Active, Compacted);
    var two := SetStatus(one, rewritten, Pending, Active);
    var after := SetStatus(two, history, Pending, History);
    assert forall id | id in s.segments :: after[id].rows == s.segments[id].rows;
    assert ActiveIds(after) == (ActiveIds(s.segments) - replaced) + rewritten;
    assert replaced <= ActiveIds(s.segments);
  }

  /** Publishing a rewrite leaves the cold answer for every key unchanged. */
  lemma {:induction false} CompactionKeepsAnswers(s: State, step: Step, k: KeyTuple, answer: Option<Image>)
    requires step.ActivateCompaction? && Enabled(s, step) && ColdSays(ActiveRows(s.segments), k, answer)
    ensures ColdSays(ActiveRows(Do(s, step).segments), k, answer)
  {
    if CompactionWinsCas(s, step.expected, step.rewritten, step.replaced, step.history) {
      CompactedRows(s, step.expected, step.rewritten, step.replaced, step.history);
      RewriteKeepsAnswers(RowsOf(s.segments, ActiveIds(s.segments) - step.replaced), RowsOf(s.segments, step.replaced),
                          RowsOf(s.segments, step.rewritten), step.dropMarkers, k, answer);
    }
  }

  lemma {:induction false} CompactionKeeps(s: State, step: Step)
    requires Inv(s) && step.ActivateCompaction? && Enabled(s, step)
    ensures Inv(Do(s, step))
  {
    var s' := Do(s, step);
    if CompactionWinsCas(s, step.expected, step.rewritten, step.replaced, step.history) {
      CompactedRows(s, step.expected, step.rewritten, step.replaced, step.history);
      var unit := RowsOf(s.segments, step.replaced);
      forall r | r in ActiveRows(s'.segments) ensures r in ActiveRows(s.segments) {
        assert r in RowsOf(s.segments, step.rewritten) ==> Newest(unit, r);
      }
      forall r | r in ActiveRows(s'.segments) ensures RowTrue(s', r) {
        assert RowTrue(s, r);
      }
      forall k: KeyTuple ensures KeyTrue(s', k) {
        assert KeyTrue(s, k);
        if k !in s.hot && !Tombstoned(s, k) {
          CompactionKeepsAnswers(s, step, k, Lookup(s.table, k));
        }
      }
    }
  }

  // ---- Every run ----

  lemma {:induction false} InitInv(s: State)
    requires Init(s)
    ensures Inv(s)
  {
    assert ActiveRows(s.segments) == {};
    forall k: KeyTuple ensures KeyTrue(s, k) {
    }
  }

  lemma {:induction false} StepKeepsInv(s: State, step: Step)
    requires Inv(s) && Enabled(s, step)
    ensures Inv(Do(s, step))
  {
    hide KeyTrue, RowTrue, CollectedTrue, WrittenTrue, Coherent;
    match step
    case Put(key, image) => CommitKeeps(s, Do(s, step), key, if key in s.hot then Update else Insert);
    case Erase(key) => CommitKeeps(s, Do(s, step), key, Delete);
    case ApplyWal(seqId, _) => ApplyKeeps(s, Do(s, step), seqId);
    case BeginFlush(sel) => BeginKeeps(s, sel);
    case FetchPage(limit, page) => FetchKeeps(s, limit, page);
    case WriteSegment(id, rows) => WriteSegmentKeeps(s, id, rows);
    case ActivateFlush(expected) => ActivateFlushKeeps(s, expected);
    case Prune => PruneKeeps(s);
    case Crash => SameDataKeeps(s, Do(s, step));
    case WriteRewrite(id, rows) => WriteRewriteKeeps(s, id, rows);
    case ActivateCompaction(_, _, _, _, _) => CompactionKeeps(s, step);
    case Reap(id) => ReapKeeps(s, id);
  }

  lemma {:induction false} RunKeepsInv(states: seq<State>, i: nat)
    requires Run(states) && i < |states|
    ensures Inv(states[i])
  {
    if i == 0 {
      InitInv(states[0]);
    } else {
      RunKeepsInv(states, i - 1);
      assert Next(states[i - 1], states[i]);
      var step :| Enabled(states[i - 1], step) && states[i] == Do(states[i - 1], step);
      StepKeepsInv(states[i - 1], step);
    }
  }

  /** The main theorem: at every point of every run, the merged read of every key is what the table holds. */
  lemma {:induction false} ReadsEqualTable(states: seq<State>, i: nat, key: KeyTuple)
    requires Run(states) && i < |states|
    ensures Read(states[i], key) == Lookup(states[i].table, key)
  {
    RunKeepsInv(states, i);
    ReadIsTable(states[i], key);
  }

  lemma {:induction false} ReadIsTable(s: State, key: KeyTuple)
    requires Inv(s)
    ensures Read(s, key) == Lookup(s.table, key)
  {
    assert KeyTrue(s, key);
    if key !in s.hot && !Tombstoned(s, key) {
      ColdSaysAnswer(ActiveRows(s.segments), key, Lookup(s.table, key));
    }
  }

  // ---- Reads that do not fence ----

  /** Exactly when a read that ignores the queue is wrong: the key's deletion is still queued, the mirror does
      not hide the key, and the cold side still shows an older version. */
  lemma {:induction false} UnfencedReadExact(s: State, key: KeyTuple)
    requires Inv(s)
    ensures UnfencedRead(s, key) == Lookup(s.table, key) <==>
            !(key !in s.hot && Queued(s.wal, key) && !(key in s.mirror && s.mirror[key].op.Delete?)
              && ColdAnswer(ActiveRows(s.segments), key).Some?)
  {
    assert KeyTrue(s, key);
    ReadIsTable(s, key);
  }

  /** After the fence the two reads agree. */
  lemma {:induction false} FencedReadExact(s: State, key: KeyTuple)
    requires Inv(s) && !Queued(s.wal, key)
    ensures UnfencedRead(s, key) == Lookup(s.table, key)
  {
    UnfencedReadExact(s, key);
  }

  /** It does happen: re-inserting and deleting a key that lives only in cold storage makes an unfenced read
      show the old row. */
  lemma {:induction false} UnfencedReadCanBeStale(states: seq<State>, key: KeyTuple, image: Image)
    requires Run(states)
    requires var s := states[|states| - 1];
             key !in s.hot && key !in s.mirror && !Queued(s.wal, key) && ColdAnswer(ActiveRows(s.segments), key).Some?
    ensures exists s1, s2 :: Run(states + [s1, s2]) && key !in s2.table && UnfencedRead(s2, key).Some?
  {
    var s := states[|states| - 1];
    var s1 := Do(s, Put(key, image));
    var s2 := Do(s1, Erase(key));
    assert Next(s, s1) by {
      assert Enabled(s, Put(key, image));
    }
    assert Next(s1, s2) by {
      assert Enabled(s1, Erase(key));
    }
    var longer := states + [s1, s2];
    forall i | 0 < i < |longer| ensures Next(longer[i - 1], longer[i]) {
      if i < |states| {
        assert longer[i - 1] == states[i - 1] && longer[i] == states[i];
      }
    }
  }

  // ---- A prune that does not fence ----

  /** The prune would remove a hot row that is not what cold storage shows for its key: something to look at before. */
  ghost predicate Overtaken(s: State, k: KeyTuple)
    requires s.flush.Some?
  {
    && k in PrunedKeys(s, s.flush.value) && !s.mirror[k].op.Delete? && k in s.hot
    && ColdAnswer(ActiveRows(s.segments), k) != Some(s.hot[k])
  }

  /** Exactly when a prune without the fence loses a row. It takes a queued change of the key. */
  lemma {:induction false} UnfencedPruneExact(s: State, k: KeyTuple)
    requires Inv(s) && Published(s)
    ensures Read(AfterPrune(s), k) == Lookup(s.table, k) <==> !Overtaken(s, k)
    ensures Overtaken(s, k) ==> Queued(s.wal, k)
  {
    var s' := AfterPrune(s);
    assert KeyTrue(s, k);
    ReadIsTable(s, k);
    if k in PrunedKeys(s, s.flush.value) && !Queued(s.wal, k) {
      PrunedKeysReadCold(s, k);
      ColdSaysAnswer(ActiveRows(s.segments), k, Lookup(s.table, k));
    }
  }

  /** It would happen: an update committed between publication and an unfenced prune is lost. */
  lemma {:induction false} UnfencedPruneLosesUpdate(states: seq<State>, key: KeyTuple, image: Image)
    requires Run(states)
    requires var s := states[|states| - 1];
             && Published(s) && s.flush.value.sel.filter.None? && !Queued(s.wal, key)
             && key in PrunedKeys(s, s.flush.value) && !s.mirror[key].op.Delete?
             && ColdAnswer(ActiveRows(s.segments), key) != Some(image)
    ensures exists s1 :: Run(states + [s1]) && Published(s1) && s1.table[key := image] == s1.table
                         && Read(AfterPrune(s1), key) != Some(image)
  {
    var s := states[|states| - 1];
    var s1 := Do(s, Put(key, image));
    assert Next(s, s1) by {
      assert Enabled(s, Put(key, image));
    }
    var longer := states + [s1];
    forall i | 0 < i < |longer| ensures Next(longer[i - 1], longer[i]) {
      if i < |states| {
        assert longer[i - 1] == states[i - 1] && longer[i] == states[i];
      }
    }
    assert Run(longer);
    RunKeepsInv(longer, |states|);
    LastOpQueued(s.wal, Change(key, if key in s.hot then Update else Insert), key);
    UnfencedPruneExact(s1, key);
    assert s1.table[key := image] == s1.table;
  }

  // ---- Whole runs ----

  /** A finished pass has everything: whatever was committed and applied while its pages were read, every mirror entry
      the selection still covers and no queued change has overtaken is among the fetched rows in its current version.
      */
  lemma {:induction false} FinishedPassIsComplete(states: seq<State>, i: nat, k: KeyTuple)
    requires Run(states) && i < |states| && states[i].flush.Some? && states[i].flush.value.done
    requires k in states[i].mirror && !Queued(states[i].wal, k)
    requires states[i].flush.value.sel.Selects(states[i].mirror[k], Lookup(states[i].hot, k))
    ensures exists r | r in states[i].flush.value.collected ::
              && r.key == k && r.seqId == states[i].mirror[k].seqId && r.op == states[i].mirror[k].op
              && (!r.op.Delete? ==> k in states[i].hot && r.image == Some(states[i].hot[k]))
  {
    RunKeepsInv(states, i);
    var s, f := states[i], states[i].flush.value;
    assert Due(s, f, k);
    assert Collected(f, k, s.mirror[k].seqId);
    var r :| r in f.collected && r.key == k && r.seqId == s.mirror[k].seqId;
    assert RowTrue(s, r);
  }

  /** The generation a publisher reads: 0 while there is no manifest row. */
  function Held(generation: Option<nat>): nat {
    if generation.Some? then generation.value else 0
  }

  predicate Publishes(step: Step, held: nat) {
    step == ActivateFlush(held) || (step.ActivateCompaction? && step.expected == held)
  }

  lemma {:induction false} StepGrowsGeneration(s: State, step: Step)
    requires Enabled(s, step)
    ensures Do(s, step).generation == s.generation || Held(Do(s, step).generation) > Held(s.generation)
    ensures s.generation.Some? ==> Do(s, step).generation.Some?
  {
  }

  /** Along a run the generation never goes back, and every publication moves it on. */
  lemma {:induction false} GenerationGrows(states: seq<State>, i: nat, j: nat)
    requires Run(states) && i <= j < |states|
    ensures states[j].generation == states[i].generation || Held(states[j].generation) > Held(states[i].generation)
    ensures states[i].generation.Some? ==> states[j].generation.Some?
    ensures states[j].generation != states[i].generation ==> states[j].generation.Some?
  {
    if i < j {
      GenerationGrows(states, i, j - 1);
      assert Next(states[j - 1], states[j]);
      var step :| Enabled(states[j - 1], step) && states[j] == Do(states[j - 1], step);
      StepGrowsGeneration(states[j - 1], step);
    }
  }

  /** A flush or compaction that read the generation and was overtaken by another publication changes no segment and no
      generation, however long afterwards it publishes. */
  lemma {:induction false} OvertakenPublisherChangesNothing(states: seq<State>, i: nat, j: nat, step: Step)
    requires Run(states) && i <= j < |states| && states[j].generation != states[i].generation
    requires Publishes(step, Held(states[i].generation)) && Enabled(states[j], step)
    ensures Do(states[j], step).segments == states[j].segments && Do(states[j], step).generation == states[j].generation
  {
    GenerationGrows(states, i, j);
  }

  /** What the read side sees of the catalog. */
  ghost function ActiveSegments(segments: map<SegId, Segment>): map<SegId, Segment> {
    map id | id in segments && segments[id].status == Active :: segments[id]
  }

  lemma {:induction false} StepKeepsActive(s: State, step: Step)
    requires SeqsBelow(s) && Enabled(s, step) && Do(s, step).generation == s.generation
    ensures ActiveSegments(Do(s, step).segments) == ActiveSegments(s.segments)
  {
    hide RowsOf, IsPage, SelectedRows, PageRows, IsRewrite;
  }

  /** What the compare-and-set is for: as long as the generation is the same, so are the active segments. */
  lemma {:induction false} SameGenerationSameActive(states: seq<State>, i: nat, j: nat)
    requires Run(states) && i <= j < |states| && states[i].generation == states[j].generation
    ensures ActiveSegments(states[i].segments) == ActiveSegments(states[j].segments)
  {
    hide Enabled, Do, ActiveSegments;
    if i < j {
      GenerationGrows(states, i, j - 1);
      GenerationGrows(states, j - 1, j);
      SameGenerationSameActive(states, i, j - 1);
      RunKeepsInv(states, j - 1);
      assert Next(states[j - 1], states[j]);
      var step :| Enabled(states[j - 1], step) && states[j] == Do(states[j - 1], step);
      StepKeepsActive(states[j - 1], step);
    }
  }

  /** Statuses move from pending to active or history, and from active to compacted. */
  predicate Forward(a: Status, b: Status) {
    a == b || a == Pending || (a == Active && b == Compacted)
  }

  /** What may have become of a segment: it is as it was but for its status, or it was removed when no reader listed
      it. */
  ghost predicate Follows(before: Segment, segments: map<SegId, Segment>, id: SegId) {
    id in segments ==> segments[id].rows == before.rows && Forward(before.status, segments[id].status)
  }

  lemma {:induction false} StatusFollows(segments: map<SegId, Segment>, ids: set<SegId>, from: Status, to: Status,
                                         id: SegId)
    requires Forward(from, to)
    ensures var after := SetStatus(segments, ids, from, to);
            (id in after <==> id in segments) && (id in segments ==> Follows(segments[id], after, id))
  {
  }

  lemma {:induction false} CompactionFollows(s: State, step: Step, id: SegId)
    requires Enabled(s, step) && step.ActivateCompaction?
    ensures id in Do(s, step).segments <==> id in s.segments
    ensures id in s.segments ==> Follows(s.segments[id], Do(s, step).segments, id)
  {
    hide SetStatus, RowsOf, IsRewrite;
    var one := SetStatus(s.segments, step.replaced, Active, Compacted);
    var two := SetStatus(one, step.rewritten, Pending, Active);
    StatusFollows(s.segments, step.replaced, Active, Compacted, id);
    StatusFollows(one, step.rewritten, Pending, Active, id);
    StatusFollows(two, step.history, Pending, History, id);
  }

  lemma {:induction false} StepFollows(s: State, step: Step, id: SegId)
    requires SeqsBelow(s) && Enabled(s, step) && id in s.issued
    ensures id in Do(s, step).issued && (id !in s.segments ==> id !in Do(s, step).segments)
    ensures id in s.segments ==> Follows(s.segments[id], Do(s, step).segments, id)
    ensures id in s.segments && s.segments[id].status == Active ==> id in Do(s, step).segments
  {
    hide RowsOf, IsPage, SelectedRows, PageRows, SetStatus, IsRewrite, CompactionWinsCas;
    if step.ActivateCompaction? {
      CompactionFollows(s, step, id);
    } else if step.ActivateFlush? {
      StatusFollows(s.segments, s.flush.value.ids, Pending, Active, id);
    }
  }

  lemma {:induction false} RunFollows(states: seq<State>, j: nat, id: SegId)
    requires Run(states) && 0 < j < |states| && id in states[j - 1].issued
    ensures id in states[j].issued && (id !in states[j - 1].segments ==> id !in states[j].segments)
    ensures id in states[j - 1].segments ==> Follows(states[j - 1].segments[id], states[j].segments, id)
    ensures id in states[j - 1].segments && states[j - 1].segments[id].status == Active ==> id in states[j].segments
  {
    hide Enabled, Do, Follows;
    RunKeepsInv(states, j - 1);
    assert Next(states[j - 1], states[j]);
    var step :| Enabled(states[j - 1], step) && states[j] == Do(states[j - 1], step);
    StepFollows(states[j - 1], step, id);
  }

  lemma {:induction false} RunIssued(states: seq<State>, i: nat, id: SegId)
    requires Run(states) && i < |states| && id in states[i].segments
    ensures id in states[i].issued
  {
    RunKeepsInv(states, i);
  }

  /** Along a run a segment's rows never change, its status only moves forward, and one that was active is removed only
      after a compaction has replaced it. */
  lemma {:induction false} SegmentsMoveForward(states: seq<State>, i: nat, j: nat, id: SegId)
    requires Run(states) && i <= j < |states| && id in states[i].segments
    ensures Follows(states[i].segments[id], states[j].segments, id) && id in states[j].issued
    ensures id !in states[j].segments && states[i].segments[id].status == Active ==>
              exists k | i < k < j :: id in states[k].segments && states[k].segments[id].status == Compacted
  {
    hide Run;
    RunIssued(states, i, id);
    if i < j {
      SegmentsMoveForward(states, i, j - 1, id);
      RunFollows(states, j, id);
    }
  }

  /** Along a run a mirror entry changes only to a number above all earlier ones, so a watermark chosen earlier never
      covers a change applied later. */
  lemma {:induction false} MirrorSeqsGrow(states: seq<State>, i: nat, j: nat, k: KeyTuple)
    requires Run(states) && i <= j < |states|
    ensures states[i].lastSeq <= states[j].lastSeq
    ensures k in states[j].mirror ==>
              (k in states[i].mirror && states[j].mirror[k] == states[i].mirror[k])
                || states[j].mirror[k].seqId > states[i].lastSeq
  {
    if i < j {
      MirrorSeqsGrow(states, i, j - 1, k);
      assert Next(states[j - 1], states[j]);
      var step :| Enabled(states[j - 1], step) && states[j] == Do(states[j - 1], step);
      StepGrowsSeqs(states[j - 1], step, k);
    }
  }

  /** So a pass that starts at `i` only ever meets rows that were in the mirror then, however the mirror changes. */
  lemma {:induction false} PassMeetsOldRows(states: seq<State>, i: nat, j: nat, sel: Selection, r: FlushRows.Row)
    requires Run(states) && i <= j < |states| && sel.maxSeq <= states[i].lastSeq && r in SelectedRows(states[j], sel)
    ensures exists k | k in states[i].mirror :: r == MirrorRow(k, states[i].mirror[k])
  {
    hide Run, MirrorRow;
    var k :| k in states[j].mirror && sel.Selects(states[j].mirror[k], Lookup(states[j].hot, k))
             && r == MirrorRow(k, states[j].mirror[k]);
    MirrorSeqsGrow(states, i, j, k);
  }

  lemma {:induction false} StepGrowsSeqs(s: State, step: Step, k: KeyTuple)
    requires Enabled(s, step)
    ensures s.lastSeq <= Do(s, step).lastSeq
    ensures k in Do(s, step).mirror ==>
              (k in s.mirror && Do(s, step).mirror[k] == s.mirror[k]) || Do(s, step).mirror[k].seqId > s.lastSeq
  {
  }
}
