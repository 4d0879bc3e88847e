/** What each step of the publication protocol does, seen from the outside. */
module PublicationEffects {
  import opened Bytes
  import opened KeyBounds
  import opened ColdVersions
  import opened Publication
  import opened PublicationSafety
  import opened MirrorPages
  import FlushRows

  // ---- The cleanup statement ----

  /** The cleanup statement removes exactly the mirror entries whose current version the pass has written. */
  lemma {:induction false} PruneRemovesExactlyWritten(s: State, k: KeyTuple)
    requires Inv(s) && Published(s) && !Queued(s.wal, k)
    ensures k in PrunedKeys(s, s.flush.value)
       <==> k in s.mirror && exists r | r in s.flush.value.collected :: r.key == k && r.seqId == s.mirror[k].seqId
  {
    var f := s.flush.value;
    if k in PrunedKeys(s, f) {
      assert Due(s, f, k);
      assert Collected(f, k, s.mirror[k].seqId);
    }
    if r :| k in s.mirror && r in f.collected && r.key == k && r.seqId == s.mirror[k].seqId {
      assert RowTrue(s, r) && Asked(f.sel, r);
      assert f.UpToWritten(s.mirror[k].seqId);
    }
  }

  /** After it a written row is in cold storage only, and everything else is where it was. */
  lemma {:induction false} PruneEffect(s: State, k: KeyTuple)
    requires Inv(s) && Enabled(s, Prune)
    ensures var s' := Do(s, Prune);
            var written := k in s.mirror && exists r | r in s.flush.value.collected ::
                             r.key == k && r.seqId == s.mirror[k].seqId;
            && (written ==> k !in s'.mirror && k !in s'.hot)
            && (!written ==> Lookup(s'.hot, k) == Lookup(s.hot, k) && (k in s'.mirror <==> k in s.mirror))
            && (k in s'.mirror ==> s'.mirror[k] == s.mirror[k])
            && s' == s.(mirror := s'.mirror, hot := s'.hot, flush := None)
  {
    PruneRemovesExactlyWritten(s, k);
  }

  // ---- What single steps do ----

  /** How the page query sees a mirror entry. */
  lemma {:induction false} MirrorRowLayout(k: KeyTuple, e: Entry)
    ensures var code := match e.op case Insert => 1 case Update => 2 case Delete => 3;
            MirrorRow(k, e) == FlushRows.Row(e.seqId, code, FrameTuple(k), [], Some(e.orderKey), None)
  {
    hide FrameTuple;
  }

  /** A commit is what the next read returns, and no other key's read changes. */
  lemma {:induction false} CommitIsRead(s: State, key: KeyTuple, image: Image, other: KeyTuple)
    requires Inv(s)
    ensures Read(Do(s, Put(key, image)), key) == Some(image)
    ensures Enabled(s, Erase(key)) ==> Read(Do(s, Erase(key)), key) == None
    ensures other != key ==> Read(Do(s, Put(key, image)), other) == Read(s, other)
    ensures other != key && Enabled(s, Erase(key)) ==> Read(Do(s, Erase(key)), other) == Read(s, other)
  {
    StepKeepsInv(s, Put(key, image));
    ReadIsTable(s, other);
    ReadIsTable(Do(s, Put(key, image)), key);
    ReadIsTable(Do(s, Put(key, image)), other);
    if Enabled(s, Erase(key)) {
      StepKeepsInv(s, Erase(key));
      ReadIsTable(Do(s, Erase(key)), key);
      ReadIsTable(Do(s, Erase(key)), other);
    }
  }

  /** The fence: applying the queue, oldest change first, empties it without touching the table. */
  ghost function Drained(s: State, orderKey: ByteString): State
    requires s.lastSeq >= 0
    decreases |s.wal|
  {
    if s.wal == [] then s else Drained(Do(s, ApplyWal(s.lastSeq + 1, orderKey)), orderKey)
  }

  /** After the fence the queue is empty and the mirror says of every key what its last change was; until then nothing
      is lost, and a read without the queue is then right. */
  lemma {:induction false} FenceDrains(s: State, orderKey: ByteString, key: KeyTuple)
    requires Inv(s)
    ensures var s' := Drained(s, orderKey);
            && Inv(s') && s'.wal == [] && s'.table == s.table && s'.hot == s.hot && s'.segments == s.segments
            && (Queued(s.wal, key) ==> key in s'.mirror && s'.mirror[key].op == LastOp(s.wal, key))
            && (!Queued(s.wal, key) && key in s.mirror ==> key in s'.mirror && s'.mirror[key] == s.mirror[key])
            && UnfencedRead(s', key) == Lookup(s.table, key) && s'.flush == s.flush
    decreases |s.wal|
  {
    if s.wal == [] {
      FencedReadExact(s, key);
    } else {
      var step := ApplyWal(s.lastSeq + 1, orderKey);
      StepKeepsInv(s, step);
      LastOpApplied(s.wal, key);
      FenceDrains(Do(s, step), orderKey, key);
    }
  }

  /** A pass starts before the first row; a page collects a copy of each entry it returns, moves the cursor to its last
      row, and ends the pass if it is short. */
  lemma {:induction false} PassSteps(s: State, sel: Selection, limit: nat, page: seq<FlushRows.Row>, k: KeyTuple)
    ensures Enabled(s, BeginFlush(sel)) ==>
              var cursor := if sel.ordered then AfterOrderKey(None, [], 0) else AfterSeq(0);
              Do(s, BeginFlush(sel)) == s.(flush := Some(Flush(sel, cursor, false, {}, {}, false)))
    ensures Enabled(s, FetchPage(limit, page)) ==>
              var f := Do(s, FetchPage(limit, page)).flush.value;
              && (f.done <==> |page| < limit)
              && (page == [] ==> f.cursor == s.flush.value.cursor)
              && (page != [] ==> var last := page[|page| - 1];
                                 f.cursor == if f.sel.ordered then AfterOrderKey(last.orderKey, last.pk, last.seqId)
                                             else AfterSeq(last.seqId))
    ensures Enabled(s, FetchPage(limit, page)) && k in s.mirror && MirrorRow(k, s.mirror[k]) in page
            && s.flush.value.sel.Selects(s.mirror[k], Lookup(s.hot, k)) ==>
              var image := if s.mirror[k].op.Delete? then None else Lookup(s.hot, k);
              var copy := ColdRow(k, s.mirror[k].seqId, s.mirror[k].op, image);
              copy in Do(s, FetchPage(limit, page)).flush.value.collected
    ensures Enabled(s, FetchPage(limit, page)) ==>
              forall r | r in Do(s, FetchPage(limit, page)).flush.value.collected && r !in s.flush.value.collected ::
                r.key in s.mirror && MirrorRow(r.key, s.mirror[r.key]) in page
  {
    hide MirrorRow, IsPage;
  }

  /** A won flush publication makes exactly the attempt's segments active; a lost one makes none. */
  lemma {:induction false} FlushPublishes(s: State, expected: nat, id: SegId)
    requires Inv(s) && Enabled(s, ActivateFlush(expected))
    ensures var s' := Do(s, ActivateFlush(expected));
            var won := s.generation.None? || s.generation == Some(expected);
            && s'.segments.Keys == s.segments.Keys
            && (won ==> s'.generation == Some(expected + 1))
            && (won ==> ActiveIds(s'.segments) == ActiveIds(s.segments) + s.flush.value.ids)
            && (won ==> s'.flush == Some(s.flush.value.(activated := true)))
            && (won && id in s.segments && id !in s.flush.value.ids ==> s'.segments[id] == s.segments[id])
            && (!won ==> s' == s.(flush := None))
  {
    hide Coherent, TableTrue, RowsTrue, SeqsBelow, CollectedTrue;
  }

  /** A compaction publication wins exactly when the generation is the expected one and its segments still have the
      statuses it moves them from. */
  ghost predicate Wins(s: State, step: Step)
    requires step.ActivateCompaction?
  {
    && s.generation == Some(step.expected) && step.rewritten !! step.history
    && (forall i | i in step.replaced :: i in s.segments && s.segments[i].status == Active)
    && (forall i | i in step.rewritten + step.history :: i in s.segments && s.segments[i].status == Pending)
  }

  /** Then the replaced segments are retired, the rewritten ones take their place, history goes to history, and no other
      segment changes. Otherwise nothing does. */
  lemma {:induction false} CompactionPublishes(s: State, step: Step, id: SegId)
    requires step.ActivateCompaction? && Enabled(s, step)
    ensures !Wins(s, step) ==> Do(s, step) == s
    ensures Wins(s, step) ==>
              var s' := Do(s, step);
              && s' == s.(generation := Some(step.expected + 1), segments := s'.segments)
              && (id in step.replaced ==> id in s'.segments && s'.segments[id] == s.segments[id].(status := Compacted))
              && (id in step.rewritten ==> id in s'.segments && s'.segments[id] == s.segments[id].(status := Active))
              && (id in step.history ==> id in s'.segments && s'.segments[id] == s.segments[id].(status := History))
              && (id !in step.replaced + step.rewritten + step.history ==>
                    (id in s'.segments <==> id in s.segments) &&
                    (id in s.segments ==> s'.segments[id] == s.segments[id]))
  {
    hide RowsOf, IsRewrite, NoSharedKey, SetStatus;
    var one := SetStatus(s.segments, step.replaced, Active, Compacted);
    var two := SetStatus(one, step.rewritten, Pending, Active);
    StatusSet(s.segments, step.replaced, Active, Compacted, id);
    StatusSet(one, step.rewritten, Pending, Active, id);
    StatusSet(two, step.history, Pending, History, id);
  }

  lemma {:induction false} StatusSet(segments: map<SegId, Segment>, ids: set<SegId>, from: Status, to: Status,
                                     id: SegId)
    ensures var after := SetStatus(segments, ids, from, to);
            && (id in after <==> id in segments)
            && (id in segments ==> after[id] == if id in ids && segments[id].status == from
                                                then segments[id].(status := to) else segments[id])
  {
  }

  /** So the active segments are the old ones with the rewritten in place of the replaced. */
  lemma {:induction false} CompactionReplaces(s: State, step: Step)
    requires step.ActivateCompaction? && Enabled(s, step) && Wins(s, step)
    ensures ActiveIds(Do(s, step).segments) == ActiveIds(s.segments) - step.replaced + step.rewritten
  {
    hide Do, Enabled;
    forall id ensures id in ActiveIds(Do(s, step).segments) <==>
                      id in ActiveIds(s.segments) - step.replaced + step.rewritten
    {
      CompactionPublishes(s, step, id);
    }
  }

  /** Writing adds one pending segment, the reaper removes one that no reader lists, a crash ends the attempt; nothing
      else changes. */
  lemma {:induction false} CatalogSteps(s: State, id: SegId, rows: set<ColdRow>)
    ensures Enabled(s, WriteRewrite(id, rows)) ==>
              var segments := s.segments[id := Segment(Pending, rows)];
              Do(s, WriteRewrite(id, rows)) == s.(segments := segments, issued := s.issued + {id})
    ensures Enabled(s, WriteSegment(id, rows)) ==>
              var s' := Do(s, WriteSegment(id, rows));
              && s'.segments == s.segments[id := Segment(Pending, rows)] && s'.issued == s.issued + {id}
              && s'.flush == Some(s.flush.value.(ids := s.flush.value.ids + {id}))
    ensures Enabled(s, Reap(id)) ==>
              && s.segments[id].status != Active && Do(s, Reap(id)) == s.(segments := s.segments - {id})
    ensures Do(s, Crash) == s.(flush := None)
  {
  }

  /** What a pass has fetched is what it was asked for: up to the watermark, of a listed operation, passing the filter.
      */
  lemma {:induction false} FetchedWasAsked(states: seq<State>, i: nat, r: ColdRow)
    requires Run(states) && i < |states| && states[i].flush.Some? && r in states[i].flush.value.collected
    ensures Asked(states[i].flush.value.sel, r)
  {
    RunKeepsInv(states, i);
  }
}
