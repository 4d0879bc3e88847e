/** A run that takes a row from the table to cold storage, and what goes wrong after it without the fence. */
module PublicationExample {
  import opened Bytes
  import opened KeyBounds
  import opened ColdVersions
  import opened Publication
  import opened PublicationSafety
  import opened MirrorPages

  const EVERYTHING: Selection := Selection(1, None, None, false)

  function Entry1(): Entry {
    Entry(1, Insert, [])
  }

  function Copy(key: KeyTuple, image: Image): ColdRow {
    ColdRow(key, 1, Insert, Some(image))
  }

  // ---- The states of the run ----

  function Empty(): State {
    State(map[], [], map[], 0, map[], {}, None, None, map[])
  }

  function Committed(key: KeyTuple, image: Image): State {
    Empty().(hot := map[key := image], wal := [Change(key, Insert)], table := map[key := image])
  }

  function Applied(key: KeyTuple, image: Image): State {
    Committed(key, image).(wal := [], mirror := map[key := Entry1()], lastSeq := 1)
  }

  function Begun(key: KeyTuple, image: Image): State {
    Applied(key, image).(flush := Some(Flush(EVERYTHING, AfterSeq(0), false, {}, {}, false)))
  }

  function Fetched(key: KeyTuple, image: Image): State {
    Applied(key, image).(flush := Some(Flush(EVERYTHING, AfterSeq(1), true, {Copy(key, image)}, {}, false)))
  }

  function Written(key: KeyTuple, image: Image): State {
    Applied(key, image).(segments := map[1 := Segment(Pending, {Copy(key, image)})], issued := {1},
                         flush := Some(Flush(EVERYTHING, AfterSeq(1), true, {Copy(key, image)}, {1}, false)))
  }

  function Activated(key: KeyTuple, image: Image): State {
    Applied(key, image).(segments := map[1 := Segment(Active, {Copy(key, image)})], issued := {1},
                         generation := Some(1),
                         flush := Some(Flush(EVERYTHING, AfterSeq(1), true, {Copy(key, image)}, {1}, true)))
  }

  function Pruned(key: KeyTuple, image: Image): State {
    Activated(key, image).(hot := map[], mirror := map[], flush := None)
  }

  /** The row is committed, applied, selected, fetched on a page of its own, written, published and pruned. */
  function States(key: KeyTuple, image: Image): seq<State> {
    [Empty(), Committed(key, image), Applied(key, image), Begun(key, image), Fetched(key, image), Written(key, image),
     Activated(key, image), Pruned(key, image)]
  }

  // ---- They are a run ----

  lemma {:induction false} CommitAndApply(key: KeyTuple, image: Image)
    ensures Next(Empty(), Committed(key, image)) && Next(Committed(key, image), Applied(key, image))
  {
    var s, t := Empty(), Committed(key, image);
    assert Enabled(s, Put(key, image)) && Do(s, Put(key, image)) == t;
    assert Enabled(t, ApplyWal(1, [])) && Do(t, ApplyWal(1, [])) == Applied(key, image);
  }

  lemma {:induction false} BeginAndFetch(key: KeyTuple, image: Image)
    ensures Next(Applied(key, image), Begun(key, image)) && Next(Begun(key, image), Fetched(key, image))
  {
    hide FrameTuple;
    var s, t := Applied(key, image), Begun(key, image);
    var page := [MirrorRow(key, Entry1())];
    assert Enabled(s, BeginFlush(EVERYTHING)) && Do(s, BeginFlush(EVERYTHING)) == t;
    assert key in t.mirror && EVERYTHING.Selects(t.mirror[key], Lookup(t.hot, key));
    assert page[0] in SelectedRows(t, EVERYTHING) && page[0] in page;
    assert SelectedRows(t, EVERYTHING) == {page[0]};
    assert Copy(key, image) in PageRows(t, EVERYTHING, page);
    assert t.flush.value.collected + PageRows(t, EVERYTHING, page) == {Copy(key, image)};
    assert Enabled(t, FetchPage(2, page)) && Do(t, FetchPage(2, page)) == Fetched(key, image);
  }

  lemma {:induction false} WriteAndActivate(key: KeyTuple, image: Image)
    ensures Next(Fetched(key, image), Written(key, image)) && Next(Written(key, image), Activated(key, image))
  {
    var s, t, copy := Fetched(key, image), Written(key, image), Copy(key, image);
    assert s.segments[1 := Segment(Pending, {copy})] == t.segments && s.issued + {1} == {1};
    assert s.flush.value.ids + {1} == {1};
    assert Enabled(s, WriteSegment(1, {copy})) && Do(s, WriteSegment(1, {copy})) == t;
    assert 1 in t.segments && copy in t.segments[1].rows;
    assert copy in RowsOf(t.segments, {1});
    assert SetStatus(t.segments, {1}, Pending, Active) == Activated(key, image).segments;
    assert Enabled(t, ActivateFlush(0)) && Do(t, ActivateFlush(0)) == Activated(key, image);
  }

  lemma {:induction false} PrunedNext(key: KeyTuple, image: Image)
    ensures PrunedKeys(Activated(key, image), Activated(key, image).flush.value) == {key}
    ensures Next(Activated(key, image), Pruned(key, image))
  {
    var s := Activated(key, image);
    assert Copy(key, image) in s.flush.value.collected;
    assert s.flush.value.UpToWritten(1);
    assert PrunedKeys(s, s.flush.value) == {key};
    assert Enabled(s, Prune) && Do(s, Prune) == Pruned(key, image);
  }

  lemma {:induction false} ColdHasRow(key: KeyTuple, image: Image)
    ensures ColdAnswer(ActiveRows(Pruned(key, image).segments), key) == Some(image)
    ensures ActiveRows(Activated(key, image).segments) == ActiveRows(Pruned(key, image).segments)
  {
    var copy, segments := Copy(key, image), Pruned(key, image).segments;
    assert ActiveIds(segments) == {1} && copy in segments[1].rows;
    assert copy in ActiveRows(segments);
    assert ActiveRows(segments) == {copy};
    ColdSaysAnswer({copy}, key, Some(image));
  }

  /** The steps are all allowed: there is such a run, and cold storage alone then has the row. */
  lemma {:induction false} RowReachesColdStorage(key: KeyTuple, image: Image)
    ensures Run(States(key, image)) && Run(States(key, image)[..7])
    ensures var s := Pruned(key, image);
            key !in s.hot && key !in s.mirror && s.wal == [] && Read(s, key) == Some(image) == Lookup(s.table, key)
  {
    hide Next, ColdAnswer, ActiveRows;
    CommitAndApply(key, image);
    BeginAndFetch(key, image);
    WriteAndActivate(key, image);
    PrunedNext(key, image);
    ColdHasRow(key, image);
  }

  /** An unfenced read does return a deleted row in some run. */
  lemma {:induction false} StaleReadHappens(key: KeyTuple, image: Image)
    ensures exists states, s :: Run(states + [s]) && key !in s.table && UnfencedRead(s, key).Some?
  {
    var states := States(key, image);
    hide Run, UnfencedRead, ColdAnswer;
    RowReachesColdStorage(key, image);
    ColdHasRow(key, image);
    UnfencedReadCanBeStale(states, key, image);
    var s1, s2 :| Run(states + [s1, s2]) && key !in s2.table && UnfencedRead(s2, key).Some?;
    assert states + [s1, s2] == (states + [s1]) + [s2];
  }

  /** A prune that did not wait would lose an update in some run. */
  lemma {:induction false} LostUpdateHappens(key: KeyTuple, image: Image, update: Image)
    requires image != update
    ensures exists states, s :: Run(states + [s]) && Published(s) && Lookup(s.table, key) == Some(update)
                                && Read(AfterPrune(s), key) != Some(update)
  {
    hide Run, Read, AfterPrune, ColdAnswer, PrunedKeys, Queued;
    var states := States(key, image)[..7];
    RowReachesColdStorage(key, image);
    PrunedNext(key, image);
    ColdHasRow(key, image);
    NothingQueued(key);
    assert states[6] == Activated(key, image);
    UnfencedPruneLosesUpdate(states, key, update);
    var s1 :| Run(states + [s1]) && Published(s1) && s1.table[key := update] == s1.table
              && Read(AfterPrune(s1), key) != Some(update);
    assert key in s1.table[key := update];
  }

  lemma {:induction false} NothingQueued(key: KeyTuple)
    ensures !Queued([], key)
  {
  }
}
