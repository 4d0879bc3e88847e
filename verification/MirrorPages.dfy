/** Keyset pages over the mirror: the cursor, the page query's order, and what a sequence of pages covers while the
    mirror changes between them. */
module MirrorPages {
  import opened Bytes
  import opened FlushRows

  // ---- Cursors ----

  datatype Cursor =
    | AfterSeq(afterSeq: int)
    | AfterOrderKey(orderKey: Option<ByteString>, pk: ByteString, afterSeq: int)

  function InitialPageCursor(ordered: bool): Cursor {
    if ordered then AfterOrderKey(None, [], 0) else AfterSeq(0)
  }

  function NextPageCursor(ordered: bool, last: Row): Cursor {
    if ordered then AfterOrderKey(last.orderKey, last.pk, last.seqId) else AfterSeq(last.seqId)
  }

  predicate TripleLess(k: ByteString, pk: ByteString, n: int, k': ByteString, pk': ByteString, n': int) {
    Less(k, k') || (k == k' && (Less(pk, pk') || (pk == pk' && n < n')))
  }

  /** The page query's keyset condition. A row comparison with a NULL order key is not true. */
  predicate Reaches(cursor: Cursor, r: Row) {
    match cursor
    case AfterSeq(n) => r.seqId > n
    case AfterOrderKey(k, pk, n) =>
      k.None? || (r.orderKey.Some? && TripleLess(k.value, pk, n, r.orderKey.value, r.pk, r.seqId))
  }

  /** The page query's order: by sequence number, or by order key (NULLs last), primary key and sequence number. */
  predicate Before(ordered: bool, a: Row, b: Row) {
    if !ordered then a.seqId < b.seqId
    else if a.orderKey.None? then b.orderKey.None? && (Less(a.pk, b.pk) || (a.pk == b.pk && a.seqId < b.seqId))
    else b.orderKey.None? || TripleLess(a.orderKey.value, a.pk, a.seqId, b.orderKey.value, b.pk, b.seqId)
  }

  ghost predicate Sorted(ordered: bool, rows: seq<Row>) {
    forall i, j | 0 <= i < j < |rows| :: Before(ordered, rows[i], rows[j])
  }

  /** The rows of one page: the first `limit` eligible rows after the cursor. */
  ghost predicate IsPage(ordered: bool, eligible: set<Row>, cursor: Cursor, limit: nat, page: seq<Row>) {
    && |page| <= limit && Sorted(ordered, page)
    && (forall r | r in page :: r in eligible && Reaches(cursor, r))
    && (forall r | r in eligible && Reaches(cursor, r) && r !in page :: ComesLater(ordered, limit, page, r))
  }

  ghost predicate ComesLater(ordered: bool, limit: nat, page: seq<Row>, r: Row) {
    |page| == limit && forall p | p in page :: Before(ordered, p, r)
  }

  // ---- The order is strict ----

  lemma {:induction false} TripleTransitive(a: Row, b: Row, c: Row)
    requires a.orderKey.Some? && b.orderKey.Some? && c.orderKey.Some? && Before(true, a, b) && Before(true, b, c)
    ensures Before(true, a, c)
  {
    var k, l, m := a.orderKey.value, b.orderKey.value, c.orderKey.value;
    if Less(k, l) && Less(l, m) {
      LessTransitive(k, l, m);
    }
    if Less(a.pk, b.pk) && Less(b.pk, c.pk) {
      LessTransitive(a.pk, b.pk, c.pk);
    }
  }

  lemma {:induction false} BeforeTransitive(ordered: bool, a: Row, b: Row, c: Row)
    requires Before(ordered, a, b) && Before(ordered, b, c)
    ensures Before(ordered, a, c)
  {
    if ordered && c.orderKey.Some? {
      TripleTransitive(a, b, c);
    } else if ordered && a.orderKey.None? && Less(a.pk, b.pk) && Less(b.pk, c.pk) {
      LessTransitive(a.pk, b.pk, c.pk);
    }
  }

  /** The order in full: by sequence number alone, or first the rows with an order key, by order key, primary key and
      sequence number, then those without. Any two rows at different places are in order one way or the other. */
  lemma {:induction false} BeforeExactly(a: Row, b: Row)
    ensures Before(false, a, b) <==> a.seqId < b.seqId
    ensures Before(true, a, b) <==>
            || (a.orderKey.Some? && b.orderKey.None?)
            || (a.orderKey.Some? && b.orderKey.Some? && Less(a.orderKey.value, b.orderKey.value))
            || (a.orderKey == b.orderKey && (Less(a.pk, b.pk) || (a.pk == b.pk && a.seqId < b.seqId)))
    ensures (a.orderKey, a.pk, a.seqId) != (b.orderKey, b.pk, b.seqId) ==> Before(true, a, b) || Before(true, b, a)
  {
    LessTotal(a.pk, b.pk);
    if a.orderKey.Some? && b.orderKey.Some? {
      LessTotal(a.orderKey.value, b.orderKey.value);
    }
  }

  /** Where a row stands in either order. The mirror has one row per key, so the values play no part. */
  type Place = (Option<ByteString>, ByteString, int)

  function PlaceOf(r: Row): Place {
    (r.orderKey, r.pk, r.seqId)
  }

  lemma {:induction false} BeforeStrict(ordered: bool, a: Row, b: Row)
    requires Before(ordered, a, b)
    ensures PlaceOf(a) != PlaceOf(b)
  {
    LessIrreflexive(a.pk);
    if a.orderKey.Some? {
      LessIrreflexive(a.orderKey.value);
    }
  }

  ghost function Places(rows: seq<Row>): set<Place> {
    set r | r in rows :: PlaceOf(r)
  }

  ghost function Members(rows: seq<Row>): set<Row> {
    set r | r in rows
  }

  lemma {:induction false} OneMore(rows: seq<Row>, last: Row)
    ensures Places(rows + [last]) == Places(rows) + {PlaceOf(last)}
    ensures Members(rows + [last]) == Members(rows) + {last}
  {
    hide PlaceOf;
    var all := rows + [last];
    assert forall r | r in rows :: r in all;
    assert last in all && forall r | r in all :: r in rows || r == last;
  }

  lemma {:induction false} LastIsNew(ordered: bool, rows: seq<Row>)
    requires rows != [] && Sorted(ordered, rows)
    ensures Sorted(ordered, rows[..|rows| - 1])
    ensures PlaceOf(rows[|rows| - 1]) !in Places(rows[..|rows| - 1])
    ensures rows[|rows| - 1] !in Members(rows[..|rows| - 1])
  {
    hide Before;
    var n := |rows| - 1;
    forall i | 0 <= i < n ensures PlaceOf(rows[i]) != PlaceOf(rows[n]) {
      BeforeStrict(ordered, rows[i], rows[n]);
    }
    assert forall r | r in rows[..n] :: exists i | 0 <= i < n :: rows[i] == r;
  }

  lemma {:induction false} NoPlaces()
    ensures Places([]) == {} && Members([]) == {}
  {
  }

  lemma {:induction false} SortedSize(ordered: bool, rows: seq<Row>)
    requires Sorted(ordered, rows)
    ensures |Places(rows)| == |Members(rows)| == |rows|
  {
    hide Sorted, PlaceOf, Places, Members;
    if rows == [] {
      NoPlaces();
    } else {
      var init, last := rows[..|rows| - 1], rows[|rows| - 1];
      LastIsNew(ordered, rows);
      SortedSize(ordered, init);
      OneMore(init, last);
      assert rows == init + [last];
    }
  }

  lemma {:induction false} SubsetSize<T>(a: set<T>, b: set<T>)
    requires a <= b
    ensures |a| <= |b|
  {
    if a != b {
      assert b == a + (b - a);
    }
  }

  // ---- What paging covers ----

  /** Paging can reach the row: a NULL order key is never after a cursor, and the sequence scan starts above 0. */
  predicate Reachable(ordered: bool, r: Row) {
    if ordered then r.orderKey.Some? else r.seqId > 0
  }

  /** The rows the page query is evaluated over, cursor by cursor. The cursor only moves forward, so each is used once,
      and the mirror may differ from one to the next. */
  type Mirror = Cursor -> set<Row>

  /** The row is eligible at every fetch. */
  ghost predicate Stays(mirror: Mirror, r: Row) {
    forall c: Cursor :: r in mirror(c)
  }

  ghost predicate Offered(mirror: Mirror, r: Row) {
    exists c: Cursor :: r in mirror(c)
  }

  /** `rows` are rows that were there to be fetched, no place twice, in order. */
  ghost predicate Taken(ordered: bool, mirror: Mirror, rows: seq<Row>) {
    Sorted(ordered, rows) && forall r | r in rows :: Reachable(ordered, r) && Offered(mirror, r)
  }

  /** A whole pass: besides, every reachable row that stayed is among them. */
  ghost predicate Lists(ordered: bool, mirror: Mirror, rows: seq<Row>) {
    Taken(ordered, mirror, rows) && forall r | Reachable(ordered, r) && Stays(mirror, r) :: r in rows
  }

  /** Where a pass stands after the rows `seen`. */
  ghost predicate Scanned(ordered: bool, mirror: Mirror, cursor: Cursor, seen: seq<Row>) {
    && Taken(ordered, mirror, seen)
    && cursor == (if seen == [] then InitialPageCursor(ordered) else NextPageCursor(ordered, seen[|seen| - 1]))
    && (forall r | Reachable(ordered, r) && Stays(mirror, r) && r !in seen :: Reaches(cursor, r))
  }

  ghost predicate NoNullKey(page: seq<Row>) {
    forall r | r in page :: r.orderKey.Some?
  }

  lemma {:induction false} ReachesIsBefore(ordered: bool, last: Row, r: Row)
    requires ordered ==> last.orderKey.Some?
    ensures Reaches(NextPageCursor(ordered, last), r) <==> Before(ordered, last, r) && (ordered ==> r.orderKey.Some?)
  {
  }

  lemma {:induction false} AfterSeen(ordered: bool, mirror: Mirror, cursor: Cursor, seen: seq<Row>, r: Row)
    requires Scanned(ordered, mirror, cursor, seen) && Reaches(cursor, r)
    ensures forall i | 0 <= i < |seen| :: Before(ordered, seen[i], r)
  {
    if seen != [] {
      var last := seen[|seen| - 1];
      assert last in seen;
      ReachesIsBefore(ordered, last, r);
      forall i | 0 <= i < |seen| - 1 ensures Before(ordered, seen[i], r) {
        BeforeTransitive(ordered, seen[i], last, r);
      }
    }
  }

  lemma {:induction false} PageSorted(ordered: bool, mirror: Mirror, cursor: Cursor, seen: seq<Row>, limit: nat,
                                      page: seq<Row>)
    requires Scanned(ordered, mirror, cursor, seen) && IsPage(ordered, mirror(cursor), cursor, limit, page)
    ensures Sorted(ordered, seen + page)
  {
    hide Before, Scanned, Reaches;
    var all := seen + page;
    assert Sorted(ordered, seen) by { ScannedSorted(ordered, mirror, cursor, seen); }
    forall i, j | 0 <= i < j < |all| ensures Before(ordered, all[i], all[j]) {
      if i < |seen| <= j {
        assert all[j] in page;
        AfterSeen(ordered, mirror, cursor, seen, all[j]);
      }
    }
  }

  lemma {:induction false} ScannedSorted(ordered: bool, mirror: Mirror, cursor: Cursor, seen: seq<Row>)
    requires Scanned(ordered, mirror, cursor, seen)
    ensures Sorted(ordered, seen)
  {
  }

  lemma {:induction false} PageReachable(ordered: bool, mirror: Mirror, cursor: Cursor, seen: seq<Row>, limit: nat,
                                         page: seq<Row>)
    requires Scanned(ordered, mirror, cursor, seen) && IsPage(ordered, mirror(cursor), cursor, limit, page)
    requires ordered ==> NoNullKey(page)
    ensures forall r | r in page :: Reachable(ordered, r) && Offered(mirror, r)
  {
    forall r | r in page ensures Reachable(ordered, r) && Offered(mirror, r) {
      assert r in mirror(cursor);
      AfterSeen(ordered, mirror, cursor, seen, r);
      if !ordered && seen != [] {
        assert seen[0] in seen;
      }
    }
  }

  /** A page moves the scan past its last row, and a short page ends it, whatever happened to the mirror meanwhile. */
  lemma {:induction false} PageScanned(ordered: bool, mirror: Mirror, cursor: Cursor, seen: seq<Row>, limit: nat,
                                       page: seq<Row>)
    requires Scanned(ordered, mirror, cursor, seen) && IsPage(ordered, mirror(cursor), cursor, limit, page)
    requires ordered ==> NoNullKey(page)
    ensures page != [] ==> Scanned(ordered, mirror, NextPageCursor(ordered, page[|page| - 1]), seen + page)
    ensures |page| < limit ==> Lists(ordered, mirror, seen + page)
  {
    hide Before, Reaches, NextPageCursor, Reachable, Offered;
    PageSorted(ordered, mirror, cursor, seen, limit, page);
    PageReachable(ordered, mirror, cursor, seen, limit, page);
    var all := seen + page;
    forall r | Reachable(ordered, r) && Stays(mirror, r) && r !in all
      ensures |page| == limit && (page != [] ==> Reaches(NextPageCursor(ordered, page[|page| - 1]), r))
    {
      assert r in mirror(cursor);
      assert ComesLater(ordered, limit, page, r);
      if page != [] {
        PageAhead(ordered, page, r);
      }
    }
    if page != [] {
      assert all[|all| - 1] == page[|page| - 1];
    }
  }

  /** A reachable row behind every row of a page is ahead of the cursor the page leaves. */
  lemma {:induction false} PageAhead(ordered: bool, page: seq<Row>, r: Row)
    requires page != [] && (ordered ==> NoNullKey(page)) && Reachable(ordered, r)
    requires forall p | p in page :: Before(ordered, p, r)
    ensures Reaches(NextPageCursor(ordered, page[|page| - 1]), r)
  {
    hide Before, Reaches, NextPageCursor;
    var last := page[|page| - 1];
    assert last in page;
    ReachesIsBefore(ordered, last, r);
  }

  lemma {:induction false} FreshScan(ordered: bool, mirror: Mirror)
    ensures Scanned(ordered, mirror, InitialPageCursor(ordered), [])
  {
  }

  lemma {:induction false} ScannedCursor(ordered: bool, mirror: Mirror, cursor: Cursor)
    requires Scanned(ordered, mirror, cursor, [])
    ensures cursor == InitialPageCursor(ordered)
  {
  }

  /** A scan over a bounded number of places ends. */
  lemma {:induction false} TakenSize(ordered: bool, mirror: Mirror, seen: seq<Row>, places: set<Place>)
    requires Taken(ordered, mirror, seen) && forall c: Cursor, r | r in mirror(c) :: PlaceOf(r) in places
    ensures |places| >= |seen|
  {
    hide Before;
    SortedSize(ordered, seen);
    forall p | p in Places(seen) ensures p in places {
      var r :| r in seen && PlaceOf(r) == p;
      var c: Cursor :| r in mirror(c);
    }
    SubsetSize(Places(seen), places);
  }

  // ---- NULL order keys ----

  ghost function WithKey(eligible: set<Row>): set<Row> {
    set r | r in eligible && r.orderKey.Some?
  }

  /** A NULL order key is seen, and refused, exactly when the other rows leave room for it on the first page. */
  ghost predicate NullKeyOnFirstPage(eligible: set<Row>, limit: nat) {
    (exists r | r in eligible :: r.orderKey.None?) && |WithKey(eligible)| < limit
  }

  lemma {:induction false} NullOnPage(mirror: Mirror, cursor: Cursor, seen: seq<Row>, limit: nat, page: seq<Row>)
    requires Scanned(true, mirror, cursor, seen) && IsPage(true, mirror(cursor), cursor, limit, page)
    ensures !NoNullKey(page) ==> seen == [] && NullKeyOnFirstPage(mirror(InitialPageCursor(true)), limit)
    ensures seen == [] && NullKeyOnFirstPage(mirror(InitialPageCursor(true)), limit) ==> !NoNullKey(page)
  {
    assert seen != [] ==> seen[|seen| - 1] in seen;
    if !NoNullKey(page) {
      var n :| n in page && n.orderKey.None?;
      assert Reaches(cursor, n);
      NullAfterAll(mirror(cursor), cursor, limit, page, n);
    }
    if seen == [] && NullKeyOnFirstPage(mirror(cursor), limit) && NoNullKey(page) {
      var n :| n in mirror(cursor) && n.orderKey.None?;
      assert Reaches(cursor, n) && ComesLater(true, limit, page, n);
      SortedSize(true, page);
      SubsetSize(Members(page), WithKey(mirror(cursor)));
      assert false;
    }
  }

  lemma {:induction false} NullAfterAll(eligible: set<Row>, cursor: Cursor, limit: nat, page: seq<Row>, n: Row)
    requires IsPage(true, eligible, cursor, limit, page) && cursor == InitialPageCursor(true)
    requires n in page && n.orderKey.None?
    ensures |WithKey(eligible)| < limit
  {
    forall r | r in WithKey(eligible) ensures r in page {
      assert r in page || ComesLater(true, limit, page, r);
      assert !Before(true, n, r);
    }
    SortedSize(true, page);
    SubsetSize(WithKey(eligible) + {n}, Members(page));
  }
}
