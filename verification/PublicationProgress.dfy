/** A flush can always be run to its end, and then the rows it selected are in cold storage only. */
module PublicationProgress {
  import opened Bytes
  import opened KeyBounds
  import opened ColdVersions
  import opened Publication
  import opened PublicationSafety
  import opened PublicationEffects
  import opened MirrorPages
  import FlushRows

  // ---- Putting rows in order ----

  ghost predicate Ordered(ordered: bool, rows: set<FlushRows.Row>) {
    forall a, b | a in rows && b in rows && a != b :: Before(ordered, a, b) || Before(ordered, b, a)
  }

  lemma {:induction false} First(ordered: bool, rows: set<FlushRows.Row>) returns (first: FlushRows.Row)
    requires rows != {} && Ordered(ordered, rows)
    ensures first in rows && forall r | r in rows && r != first :: Before(ordered, first, r)
  {
    hide Before;
    var some :| some in rows;
    var rest := rows - {some};
    if rest == {} {
      first := some;
      assert rows == {some};
    } else {
      var least := First(ordered, rest);
      first := if Before(ordered, some, least) then some else least;
      forall r | r in rows && r != first ensures Before(ordered, first, r) {
        if first == some && r != least {
          BeforeTransitive(ordered, some, least, r);
        }
      }
    }
  }

  lemma {:induction false} InOrder(ordered: bool, rows: set<FlushRows.Row>) returns (list: seq<FlushRows.Row>)
    requires Ordered(ordered, rows)
    ensures Sorted(ordered, list) && forall r :: r in list <==> r in rows
  {
    hide Before;
    if rows == {} {
      list := [];
    } else {
      var first := First(ordered, rows);
      var rest := InOrder(ordered, rows - {first});
      list := [first] + rest;
      forall i, j | 0 <= i < j < |list| ensures Before(ordered, list[i], list[j]) {
        assert list[j] in rest;
        if i > 0 {
          assert rest[i - 1] == list[i] && rest[j - 1] == list[j];
        }
      }
    }
  }

  // ---- The page that has everything ----

  /** No two entries have the same sequence number. */
  ghost predicate DistinctSeqs(mirror: map<KeyTuple, Entry>) {
    forall k, l | k in mirror && l in mirror && k != l :: mirror[k].seqId != mirror[l].seqId
  }

  /** Every step keeps them distinct: a new number is larger than all before. */
  lemma {:induction false} SeqsStayDistinct(s: State, step: Step)
    requires Inv(s) && Enabled(s, step) && DistinctSeqs(s.mirror)
    ensures DistinctSeqs(Do(s, step).mirror)
  {
    hide Coherent, TableTrue, FlushTrue, RowsTrue;
  }

  lemma {:induction false} SelectionOrdered(s: State, sel: Selection)
    requires DistinctSeqs(s.mirror)
    ensures Ordered(sel.ordered, SelectedRows(s, sel))
  {
    hide FrameTuple;
    var rows := SelectedRows(s, sel);
    forall a, b | a in rows && b in rows && a != b
      ensures Before(sel.ordered, a, b) || Before(sel.ordered, b, a)
    {
      var k :| k in s.mirror && a == MirrorRow(k, s.mirror[k]);
      var l :| l in s.mirror && b == MirrorRow(l, s.mirror[l]);
      assert a.seqId != b.seqId;
      BeforeExactly(a, b);
    }
  }

  /** One page with room to spare returns all that is selected. */
  lemma {:induction false} WholePage(s: State, sel: Selection) returns (page: seq<FlushRows.Row>)
    requires Inv(s) && DistinctSeqs(s.mirror)
    ensures IsPage(sel.ordered, SelectedRows(s, sel), InitialPageCursor(sel.ordered), |page| + 1, page)
    ensures forall r :: r in page <==> r in SelectedRows(s, sel)
  {
    hide Coherent, TableTrue, FlushTrue, RowsTrue, Before, FrameTuple;
    SelectionOrdered(s, sel);
    page := InOrder(sel.ordered, SelectedRows(s, sel));
    forall r | r in page ensures Reaches(InitialPageCursor(sel.ordered), r) {
      var k :| k in s.mirror && r == MirrorRow(k, s.mirror[k]);
    }
  }

  // ---- A whole flush ----

  /** The states of a flush that nothing disturbs: begun, fetched, written, published, and, the queue being applied,
      pruned. */
  ghost predicate FlushRuns(s: State, sel: Selection, id: SegId, page: seq<FlushRows.Row>, orderKey: ByteString,
                            published: State, pruned: State)
  {
    && Enabled(s, BeginFlush(sel))
    && (var begun := Do(s, BeginFlush(sel));
        && Enabled(begun, FetchPage(|page| + 1, page))
        && (var fetched := Do(begun, FetchPage(|page| + 1, page));
            && Enabled(fetched, WriteSegment(id, fetched.flush.value.collected))
            && (var written := Do(fetched, WriteSegment(id, fetched.flush.value.collected));
                var expected := if s.generation.Some? then s.generation.value else 0;
                && Enabled(written, ActivateFlush(expected)) && published == Do(written, ActivateFlush(expected))
                && published.lastSeq >= 0 && Enabled(Drained(published, orderKey), Prune)
                && pruned == Do(Drained(published, orderKey), Prune))))
  }

  /** Everything up to the publication can be done from any reachable state without a flush in progress, and collects a
      copy of every selected row. */
  lemma {:induction false} FlushCanPublish(s: State, sel: Selection, id: SegId)
    returns (page: seq<FlushRows.Row>, published: State)
    requires Inv(s) && DistinctSeqs(s.mirror) && s.flush.None? && sel.maxSeq <= s.lastSeq && id !in s.issued
    ensures Enabled(s, BeginFlush(sel))
    ensures var begun := Do(s, BeginFlush(sel));
            && Enabled(begun, FetchPage(|page| + 1, page))
            && (var fetched := Do(begun, FetchPage(|page| + 1, page));
                && Enabled(fetched, WriteSegment(id, fetched.flush.value.collected))
                && (var written := Do(fetched, WriteSegment(id, fetched.flush.value.collected));
                    var expected := if s.generation.Some? then s.generation.value else 0;
                    Enabled(written, ActivateFlush(expected)) && published == Do(written, ActivateFlush(expected))))
    ensures Inv(published) && Published(published) && published.lastSeq >= 0
    ensures published.hot == s.hot && published.mirror == s.mirror && published.wal == s.wal
    ensures published.table == s.table
    ensures forall k | k in s.mirror && sel.Selects(s.mirror[k], Lookup(s.hot, k)) ::
              Collected(published.flush.value, k, s.mirror[k].seqId)
    ensures forall r | r in published.flush.value.collected ::
              && r.key in s.mirror && sel.Selects(s.mirror[r.key], Lookup(s.hot, r.key))
              && r.seqId == s.mirror[r.key].seqId
  {
    hide Inv, Selection.Selects, IsPage, DistinctSeqs, MirrorRow;
    page := WholePage(s, sel);
    var step1 := BeginFlush(sel);
    var begun := Do(s, step1);
    StepKeepsInv(s, step1);
    assert SelectedRows(begun, sel) == SelectedRows(s, sel);
    var step2 := FetchPage(|page| + 1, page);
    var fetched := Do(begun, step2);
    StepKeepsInv(begun, step2);
    var step3 := WriteSegment(id, fetched.flush.value.collected);
    var written := Do(fetched, step3);
    StepKeepsInv(fetched, step3);
    var expected := if s.generation.Some? then s.generation.value else 0;
    var step4 := ActivateFlush(expected);
    WrittenIsReady(fetched, id);
    published := Do(written, step4);
    StepKeepsInv(written, step4);
    LastSeqPositive(published);
    forall k | k in s.mirror && sel.Selects(s.mirror[k], Lookup(s.hot, k))
      ensures Collected(published.flush.value, k, s.mirror[k].seqId)
    {
      assert MirrorRow(k, s.mirror[k]) in SelectedRows(s, sel);
      var image := if s.mirror[k].op.Delete? then None else Lookup(s.hot, k);
      assert ColdRow(k, s.mirror[k].seqId, s.mirror[k].op, image) in PageRows(begun, sel, page);
    }
  }

  /** With all it has fetched in one segment, a pass that is over is ready to publish. */
  lemma {:induction false} WrittenIsReady(s: State, id: SegId)
    requires s.flush.Some? && s.flush.value.done && !s.flush.value.activated
    requires Enabled(s, WriteSegment(id, s.flush.value.collected))
    ensures var written := Do(s, WriteSegment(id, s.flush.value.collected));
            ReadyToActivate(written, written.flush.value)
  {
    var rows := s.flush.value.collected;
    var written := Do(s, WriteSegment(id, rows));
    assert id in written.flush.value.ids && written.segments[id].rows == rows;
  }

  lemma {:induction false} LastSeqPositive(s: State)
    requires Inv(s)
    ensures s.lastSeq >= 0
  {
    hide Coherent, TableTrue, FlushTrue, RowsTrue;
  }

  /** A flush of any selection can be run from any reachable state without one in progress. When it is over, every
      selected row that had no queued change is in cold storage only, with its value, and every other hot row without a
      queued change is where it was. */
  lemma {:induction false} FlushMovesRows(s: State, sel: Selection, id: SegId, orderKey: ByteString, k: KeyTuple)
    returns (page: seq<FlushRows.Row>, published: State, pruned: State)
    requires Inv(s) && DistinctSeqs(s.mirror) && s.flush.None? && sel.maxSeq <= s.lastSeq && id !in s.issued
    ensures FlushRuns(s, sel, id, page, orderKey, published, pruned) && Inv(pruned) && pruned.table == s.table
    ensures pruned.flush.None? && pruned.wal == []
    ensures !Queued(s.wal, k) && k in s.mirror ==>
              if sel.Selects(s.mirror[k], Lookup(s.hot, k))
              then k !in pruned.hot && k !in pruned.mirror
                   && ColdAnswer(ActiveRows(pruned.segments), k) == Lookup(s.table, k)
              else Lookup(pruned.hot, k) == Lookup(s.hot, k) && k in pruned.mirror && pruned.mirror[k] == s.mirror[k]
  {
    hide Inv, Selection.Selects, IsPage, DistinctSeqs, Do, Drained, PrunedKeys;
    page, published := FlushCanPublish(s, sel, id);
    FenceDrains(published, orderKey, k);
    var drained := Drained(published, orderKey);
    assert Enabled(drained, Prune);
    pruned := Do(drained, Prune);
    StepKeepsInv(drained, Prune);
    PruneEffect(drained, k);
    if !Queued(s.wal, k) && k in s.mirror {
      if sel.Selects(s.mirror[k], Lookup(s.hot, k)) {
        assert Collected(published.flush.value, k, s.mirror[k].seqId);
        GoneIsCold(pruned, k);
      }
    }
  }

  /** A key that is neither hot nor in the mirror nor queued is answered by cold storage. */
  lemma {:induction false} GoneIsCold(s: State, k: KeyTuple)
    requires Inv(s) && k !in s.hot && k !in s.mirror && s.wal == []
    ensures ColdAnswer(ActiveRows(s.segments), k) == Lookup(s.table, k)
  {
    hide Coherent, SeqsBelow, FlushTrue, RowsTrue;
    assert KeyTrue(s, k);
    assert !Queued(s.wal, k);
    ColdSaysAnswer(ActiveRows(s.segments), k, Lookup(s.table, k));
  }
}
