/** One flush pass: mirror pages are fetched by keyset and streamed into segments. */
module FlushStream {
  import opened Bytes
  import opened FlushRows
  import opened MirrorPages
  import opened SegmentEncoding

  // ---- The pass ----

  /** Where pages come from: the page query, or rows already read and grouped by scope. */
  class PageFeed {
    const select: Cursor -> seq<Row>
    var queue: Option<seq<Row>>

    constructor (select: Cursor -> seq<Row>, queue: Option<seq<Row>>)
      ensures this.select == select && this.queue == queue
    {
      this.select, this.queue := select, queue;
    }

    method Fetch(cursor: Cursor, limit: nat) returns (page: seq<Row>)
      modifies this
      ensures Fetched(select, limit, old(queue), queue, cursor, page)
    {
      if queue.None? {
        return select(cursor);
      }
      var take := if |queue.value| < limit then |queue.value| else limit;
      page := queue.value[..take];
      queue := Some(queue.value[take..]);
    }
  }

  ghost predicate Fetched(select: Cursor -> seq<Row>, limit: nat, before: Option<seq<Row>>, after: Option<seq<Row>>,
                          cursor: Cursor, page: seq<Row>) {
    if before.None? then after.None? && page == select(cursor)
    else after.Some? && page + after.value == before.value && |page| <= limit && (|page| < limit ==> after.value == [])
  }

  datatype Outcome = Outcome(maxSeq: int, rowsWritten: nat)

  /** A pass: its settings, the mirror it meets at each fetch, the page query, and the rows read beforehand if there
      are any. Up to the watermark the mirror only loses places while the pass runs, so `places` are those it starts
      with. */
  datatype Pass = Pass(ordered: bool, limit: nat, mirror: Mirror, places: set<Place>, select: Cursor -> seq<Row>,
                       all: Option<seq<Row>>)
  {
    ghost predicate Valid() {
      && limit > 0
      && (all.None? ==> forall c: Cursor :: IsPage(ordered, mirror(c), c, limit, select(c)))
      && forall c: Cursor, r | r in mirror(c) :: PlaceOf(r) in places
    }

    /** The rows taken so far, and where the pass stands. */
    ghost predicate At(queue: Option<seq<Row>>, cursor: Cursor, seen: seq<Row>) {
      && (ordered ==> NoNullKey(seen))
      && (if all.None? then queue.None? && Scanned(ordered, mirror, cursor, seen)
          else queue.Some? && seen + queue.value == all.value)
      && (ordered && all.None? && seen != [] ==> NoNullKey(select(InitialPageCursor(true))))
    }

    /** The rows of a whole pass: everything paging can reach that stayed, in order, and nothing that was not there; or
        the rows read beforehand. */
    ghost predicate Complete(seen: seq<Row>) {
      if all.None? then Lists(ordered, mirror, seen) else seen == all.value
    }

    /** A pass fails exactly when a NULL order key turns up. */
    ghost predicate Refused() {
      ordered && if all.None? then NullKeyOnFirstPage(mirror(InitialPageCursor(true)), limit) else !NoNullKey(all.value)
    }

    ghost function Left(queue: Option<seq<Row>>, seen: seq<Row>): int {
      if queue.Some? then |queue.value| else |places| - |seen|
    }
  }

  lemma {:induction false} PassStarts(p: Pass)
    ensures p.At(p.all, InitialPageCursor(p.ordered), [])
  {
    FreshScan(p.ordered, p.mirror);
    assert p.all.Some? ==> [] + p.all.value == p.all.value;
  }

  lemma {:induction false} PageKept(p: Pass, queue: Option<seq<Row>>, cursor: Cursor, seen: seq<Row>, page: seq<Row>)
    requires p.Valid() && p.all.None? && p.At(queue, cursor, seen) && page == p.select(cursor)
    requires p.ordered ==> NoNullKey(page)
    ensures page != [] ==> p.At(queue, NextPageCursor(p.ordered, page[|page| - 1]), seen + page)
    ensures page != [] ==> p.Left(queue, seen) > p.Left(queue, seen + page) >= 0
    ensures |page| < p.limit ==> p.Complete(seen + page) && !p.Refused()
  {
    hide IsPage, Lists, Taken, Stays, Reachable, NextPageCursor;
    assert IsPage(p.ordered, p.mirror(cursor), cursor, p.limit, page);
    PageScanned(p.ordered, p.mirror, cursor, seen, p.limit, page);
    assert p.ordered && page != [] ==> NoNullKey(seen + page);
    assert p.ordered ==> NoNullKey(p.select(InitialPageCursor(true))) by {
      if seen == [] {
        ScannedCursor(p.ordered, p.mirror, cursor);
      }
    }
    if page != [] {
      TakenSize(p.ordered, p.mirror, seen + page, p.places);
    }
    if p.ordered {
      FreshScan(true, p.mirror);
      assert IsPage(true, p.mirror(InitialPageCursor(true)), InitialPageCursor(true), p.limit,
                    p.select(InitialPageCursor(true)));
      NullOnPage(p.mirror, InitialPageCursor(true), [], p.limit, p.select(InitialPageCursor(true)));
    }
  }

  /** A page without a NULL order key moves the pass on; a short one completes it. */
  lemma {:induction false} PageTaken(p: Pass, queue: Option<seq<Row>>, queue': Option<seq<Row>>, cursor: Cursor,
                                     seen: seq<Row>, page: seq<Row>)
    requires p.Valid() && p.At(queue, cursor, seen) && Fetched(p.select, p.limit, queue, queue', cursor, page)
    requires p.ordered ==> NoNullKey(page)
    ensures page != [] ==> p.At(queue', NextPageCursor(p.ordered, page[|page| - 1]), seen + page)
    ensures page != [] ==> p.Left(queue, seen) > p.Left(queue', seen + page) >= 0
    ensures |page| < p.limit ==> p.Complete(seen + page) && !p.Refused()
  {
    if p.all.None? {
      hide *;
      AtQueue(p, queue, cursor, seen);
      FetchedSelect(p.select, p.limit, queue, queue', cursor, page);
      PageKept(p, queue, cursor, seen, page);
    } else {
      assert (seen + page) + queue'.value == seen + (page + queue'.value);
    }
  }

  lemma {:induction false} AtQueue(p: Pass, queue: Option<seq<Row>>, cursor: Cursor, seen: seq<Row>)
    requires p.At(queue, cursor, seen)
    ensures queue.None? <==> p.all.None?
  {
  }

  lemma {:induction false} FetchedSelect(select: Cursor -> seq<Row>, limit: nat, before: Option<seq<Row>>,
                                         after: Option<seq<Row>>, cursor: Cursor, page: seq<Row>)
    requires Fetched(select, limit, before, after, cursor, page) && before.None?
    ensures after == before && page == select(cursor)
  {
  }

  /** A page with a NULL order key is one of a pass that must be refused. */
  lemma {:induction false} PageRefused(p: Pass, queue: Option<seq<Row>>, queue': Option<seq<Row>>, cursor: Cursor,
                                       seen: seq<Row>, page: seq<Row>)
    requires p.Valid() && p.At(queue, cursor, seen) && Fetched(p.select, p.limit, queue, queue', cursor, page)
    requires p.ordered && !NoNullKey(page)
    ensures p.Refused()
  {
    hide IsPage, Scanned, NullKeyOnFirstPage;
    if p.all.None? {
      assert IsPage(true, p.mirror(cursor), cursor, p.limit, page);
      NullOnPage(p.mirror, cursor, seen, p.limit, page);
    } else {
      var r :| r in page && r.orderKey.None?;
      assert r in page + queue'.value;
      assert r in seen + queue.value;
    }
  }

  method AddPage(encoder: SegmentEncoder, page: seq<Row>)
    requires encoder.Valid()
    modifies encoder
    ensures encoder.Valid() && encoder.Rows() == old(encoder.Rows()) + page
  {
    hide *;
    assert page[..0] == [];
    for i := 0 to |page|
      invariant encoder.Valid() && encoder.Rows() == old(encoder.Rows()) + page[..i]
    {
      encoder.AddRow(page[i]);
      assert page[..i + 1] == page[..i] + [page[i]];
    }
    assert page[..|page|] == page;
  }

  method HasNullKey(page: seq<Row>) returns (found: bool)
    ensures found <==> !NoNullKey(page)
  {
    for i := 0 to |page|
      invariant NoNullKey(page[..i])
    {
      if page[i].orderKey.None? {
        return true;
      }
      assert forall r | r in page[..i + 1] :: r in page[..i] || r == page[i];
    }
    assert page[..|page|] == page;
    found := false;
  }

  /** Streams a pass into segments while the mirror changes. All pages are encoded in order and nothing else is written;
      unless the pass is refused, every row the paging can reach that stayed in the mirror is written, once. */
  method StreamFlushChunks(input: Input, closes: SplitPolicy, feed: PageFeed, ghost p: Pass)
    returns (r: Result<Outcome>, chunks: seq<Chunk>)
    requires ClosesAtCap(input, closes) && p.Valid()
    requires p.ordered == input.sortByOrderKey && p.limit == input.fetchBatchSize
    requires p.select == feed.select && p.all == feed.queue
    modifies feed
    ensures r.Err? <==> p.Refused()
    ensures r.Ok? ==> p.Complete(Written(chunks)) && GoodChunks(input, closes, chunks)
    ensures r.Ok? ==> r.value == Outcome(MaxSeq(Written(chunks)), |Written(chunks)|)
    ensures r.Ok? && p.all.None? ==> forall x | Stays(p.mirror, x) ::
              x in Written(chunks) <==> if p.ordered then x.orderKey.Some? else x.seqId > 0
  {
    hide *;
    var encoder := new SegmentEncoder(input, closes);
    var cursor := InitialPageCursor(input.sortByOrderKey);
    PassStarts(p);
    LimitPositive(p);
    var more := true;
    while more
      invariant encoder.Valid() && encoder.input == input && encoder.closes == closes
      invariant more ==> p.At(feed.queue, cursor, encoder.Rows())
      invariant !more ==> p.Complete(encoder.Rows()) && !p.Refused()
      decreases more, p.Left(feed.queue, encoder.Rows())
    {
      ghost var seen, queue := encoder.Rows(), feed.queue;
      var page := feed.Fetch(cursor, input.fetchBatchSize);
      var refused := false;
      if page != [] && input.sortByOrderKey {
        refused := HasNullKey(page);
      } else {
        EmptyHasNoNull();
      }
      if refused {
        PageRefused(p, queue, feed.queue, cursor, seen, page);
        return Err("configured segment order key is missing from a mirror row"), encoder.chunks;
      }
      PageTaken(p, queue, feed.queue, cursor, seen, page);
      AddPage(encoder, page);
      if page == [] {
        more := false;
      } else {
        cursor := NextPageCursor(input.sortByOrderKey, page[|page| - 1]);
        more := |page| >= input.fetchBatchSize;
      }
    }
    encoder.Finish();
    chunks := encoder.chunks;
    HasWhatStayed(p, Written(chunks));
    r := Ok(Outcome(encoder.maxSeq, encoder.rowsWritten));
  }

  lemma {:induction false} LimitPositive(p: Pass)
    requires p.Valid()
    ensures p.limit > 0
  {
  }

  lemma {:induction false} EmptyHasNoNull()
    ensures NoNullKey([])
  {
  }

  /** Reads a pass in full, as a user-scoped table does before it groups the rows: every reachable row that stayed,
      once, in order. */
  method ReadAllPages(ordered: bool, limit: nat, select: Cursor -> seq<Row>, ghost p: Pass) returns (all: seq<Row>)
    requires p.Valid() && p.all.None? && p.ordered == ordered && p.limit == limit && p.select == select
    requires ordered ==> forall c: Cursor, r | r in p.mirror(c) :: r.orderKey.Some?
    ensures Lists(ordered, p.mirror, all)
  {
    hide *;
    all := [];
    var next := InitialPageCursor(ordered);
    PassStarts(p);
    LimitPositive(p);
    var full := true;
    while full
      invariant full ==> p.At(None, next, all)
      invariant !full ==> p.Complete(all)
      decreases full, p.Left(None, all)
    {
      var page := select(next);
      PageHasKeys(p, next);
      PageKept(p, None, next, all, page);
      full := |page| >= limit;
      if page != [] {
        next := NextPageCursor(ordered, page[|page| - 1]);
      }
      all := all + page;
    }
    CompleteLists(p, all);
  }

  lemma {:induction false} PageHasKeys(p: Pass, cursor: Cursor)
    requires p.Valid() && p.all.None? && (p.ordered ==> forall c: Cursor, r | r in p.mirror(c) :: r.orderKey.Some?)
    ensures p.ordered ==> NoNullKey(p.select(cursor))
  {
    assert IsPage(p.ordered, p.mirror(cursor), cursor, p.limit, p.select(cursor));
  }

  lemma {:induction false} CompleteLists(p: Pass, all: seq<Row>)
    requires p.all.None? && p.Complete(all)
    ensures Lists(p.ordered, p.mirror, all)
  {
  }

  // ---- Which rows a pass has ----

  /** A finished pass has a row that stayed exactly when paging can reach it: an ordered pass, when its order key is
      not NULL; a pass by sequence number, when the number is positive. The mirror's schema and its sequence promise
      both. */
  lemma {:induction false} HasWhatStayed(p: Pass, written: seq<Row>)
    requires p.Complete(written)
    ensures p.all.None? ==> forall r | Stays(p.mirror, r) ::
              r in written <==> if p.ordered then r.orderKey.Some? else r.seqId > 0
  {
  }

  /** Nothing is written twice, and nothing that was not in the mirror when its page was read. */
  lemma {:induction false} PassTakesOnce(p: Pass, written: seq<Row>, i: nat, j: nat)
    requires p.Valid() && p.all.None? && p.Complete(written) && i < j < |written|
    ensures PlaceOf(written[i]) != PlaceOf(written[j]) && Offered(p.mirror, written[i])
  {
    assert written[i] in written;
    BeforeStrict(p.ordered, written[i], written[j]);
  }

  /** The rows of a pass ascend: by sequence number, or by order key, then primary key, then sequence number. */
  lemma {:induction false} PassAscends(p: Pass, written: seq<Row>, i: nat, j: nat)
    requires p.all.None? && p.Complete(written) && i < j < |written|
    ensures var a, b := written[i], written[j];
            if p.ordered then
              && a.orderKey.Some? && b.orderKey.Some? && AtMost(a.orderKey.value, b.orderKey.value)
              && (a.orderKey == b.orderKey ==> AtMost(a.pk, b.pk))
              && (a.orderKey == b.orderKey && a.pk == b.pk ==> a.seqId < b.seqId)
            else a.seqId < b.seqId
  {
    assert written[i] in written && written[j] in written;
    if p.ordered {
      LessIrreflexive(written[i].orderKey.value);
      LessIrreflexive(written[i].pk);
    }
  }

  /** The schema's NOT NULL is needed: a row with a NULL order key after a full first page is skipped without an error.
      */
  lemma {:induction false} NullKeyIsSkipped(select: Cursor -> seq<Row>)
    requires var a := Row(1, 1, [1], [], Some([7]), None); var b := Row(2, 1, [2], [], None, None);
             Pass(true, 1, _ => {a, b}, {PlaceOf(a), PlaceOf(b)}, select, None).Valid()
    ensures var a := Row(1, 1, [1], [], Some([7]), None); var b := Row(2, 1, [2], [], None, None);
            var p := Pass(true, 1, _ => {a, b}, {PlaceOf(a), PlaceOf(b)}, select, None);
            !p.Refused() && Stays(p.mirror, b) && forall written | p.Complete(written) :: b !in written
  {
    var a, b := Row(1, 1, [1], [], Some([7]), None), Row(2, 1, [2], [], None, None);
    assert WithKey({a, b}) == {a};
  }
}
