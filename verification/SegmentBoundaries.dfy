/** The rows of a pass determine its segments: their boundaries, row groups and scopes. */
module SegmentBoundaries {
  import opened Bytes
  import opened FlushRows
  import opened SegmentEncoding

  // ---- Row groups of one segment ----

  lemma {:induction false} FlatAt(groups: seq<seq<Row>>, k: nat)
    requires k < |groups|
    ensures |Flat(groups[..k])| + |groups[k]| <= |Flat(groups)|
    ensures Flat(groups)[|Flat(groups[..k])|..|Flat(groups[..k])| + |groups[k]|] == groups[k]
    decreases |groups|
  {
    var n := |groups| - 1;
    if k < n {
      FlatAt(groups[..n], k);
      assert groups[..n][..k] == groups[..k];
    }
  }

  /** The row groups of a segment: none empty or too large, all but the last filled up, and none the policy closed at.
      */
  ghost predicate GoodRun(input: Input, closes: SplitPolicy, groups: seq<seq<Row>>) {
    GoodGroups(input, groups) && |Flat(groups)| <= input.Cap() && Filled(input, closes, groups, |groups| - 1)
  }

  lemma {:induction false} GroupWithinRoom(input: Input, closes: SplitPolicy, groups: seq<seq<Row>>, k: nat)
    requires GoodRun(input, closes, groups) && k < |groups|
    ensures 0 < |groups[k]| <= GroupRoom(input, |Flat(groups[..k])|)
    ensures k < |groups| - 1 ==> |groups[k]| == GroupRoom(input, |Flat(groups[..k])|)
    ensures k == |groups| - 1 ==> |Flat(groups[..k])| + |groups[k]| == |Flat(groups)|
    ensures k < |groups| - 1 ==> |Flat(groups[..k])| + |groups[k]| < |Flat(groups)|
    ensures k < |groups| - 1 ==> !closes(groups[..k + 1])
  {
    FlatFront(groups, k);
    if k < |groups| - 1 {
      assert FilledAt(input, closes, groups, k);
    }
  }

  /** Two groups of one size that start at the same row are the same. */
  lemma {:induction false} SameGroup(g: seq<seq<Row>>, h: seq<seq<Row>>, rows: seq<Row>, k: nat)
    requires k < |g| && k < |h| && g[..k] == h[..k] && |g[k]| == |h[k]| && Flat(g) <= rows && Flat(h) <= rows
    ensures g[..k + 1] == h[..k + 1]
  {
    var before, n := |Flat(g[..k])|, |g[k]|;
    FlatAt(g, k);
    FlatAt(h, k);
    assert rows[before..before + n] == Flat(g)[before..before + n] == Flat(h)[before..before + n];
    assert g[..k + 1] == g[..k] + [g[k]] && h[..k + 1] == h[..k] + [h[k]];
  }

  /** The same rows are grouped in one way. */
  lemma {:induction false} GroupsUnique(input: Input, closes: SplitPolicy, g: seq<seq<Row>>, h: seq<seq<Row>>, k: nat)
    requires GoodRun(input, closes, g) && GoodRun(input, closes, h) && Flat(g) == Flat(h)
    requires k <= |g| && k <= |h| && g[..k] == h[..k]
    ensures g == h
    decreases |g| - k
  {
    hide GoodRun, GroupRoom, Flat;
    if k < |g| && k < |h| {
      GroupWithinRoom(input, closes, g, k);
      GroupWithinRoom(input, closes, h, k);
      SameGroup(g, h, Flat(g), k);
      GroupsUnique(input, closes, g, h, k + 1);
    } else {
      AllOrMore(g, h, k);
      AllOrMore(h, g, k);
      if k < |g| {
        GroupWithinRoom(input, closes, g, k);
      }
      if k < |h| {
        GroupWithinRoom(input, closes, h, k);
      }
    }
  }

  lemma {:induction false} AllOrMore(g: seq<seq<Row>>, h: seq<seq<Row>>, k: nat)
    requires k <= |g| && k <= |h| && g[..k] == h[..k] && Flat(g) == Flat(h)
    ensures k == |g| && k < |h| ==> |h[k]| == 0
    ensures k == |g| == |h| ==> g == h
  {
    assert k == |g| ==> g[..k] == g;
    assert k == |h| ==> h[..k] == h;
    if k == |g| && k < |h| {
      FlatAt(h, k);
    }
  }

  // ---- Segments ----

  lemma {:induction false} WrittenFront(c: Chunk, chunks: seq<Chunk>)
    ensures Written([c] + chunks) == Flat(c.groups) + Written(chunks)
  {
    hide Flat;
    if chunks == [] {
      assert [c] + chunks == [c] && [c][..0] == [];
    } else {
      var n := |chunks| - 1;
      WrittenFront(c, chunks[..n]);
      WrittenMore([c] + chunks[..n], chunks[n]);
      WrittenMore(chunks[..n], chunks[n]);
      assert [c] + chunks == ([c] + chunks[..n]) + [chunks[n]] && chunks == chunks[..n] + [chunks[n]];
    }
  }

  /** The scope a segment carries is that of its first row. */
  lemma {:induction false} ScopeOfFirst(input: Input, closes: SplitPolicy, c: Chunk, r: Row)
    requires GoodChunk(input, closes, c) && r in Flat(c.groups)
    ensures c.scope == if input.scopeColumn.Some? then RowScope(r, input.scopeColumn.value) else None
  {
    hide RowScope, Flat, GoodGroups, Filled;
  }

  /** A segment that ends while the next row is of its own scope was closed by the policy after a full group. */
  lemma {:induction false} EndsFull(input: Input, closes: SplitPolicy, c: Chunk, cs: seq<Chunk>, d: Chunk)
    requires GoodChunks(input, closes, [c] + cs) && GoodChunk(input, closes, d)
    requires |Flat(c.groups)| < |Flat(d.groups)| && Flat(d.groups) <= Flat(c.groups) + Written(cs)
    ensures ClosedFull(input, closes, c.groups)
  {
    hide GoodChunk, ClosedFull, Flat, RowScope;
    var all := [c] + cs;
    assert all[0] == c && GoodChunk(input, closes, all[0]);
    var n := |Flat(c.groups)|;
    var next := Flat(d.groups)[n];
    assert cs != [] by { NothingWritten(cs); }
    assert all[1] == cs[0] && GoodChunk(input, closes, all[1]);
    assert cs == [cs[0]] + cs[1..];
    WrittenFront(cs[0], cs[1..]);
    NotEmpty(input, closes, c);
    NotEmpty(input, closes, cs[0]);
    assert next == (Flat(c.groups) + Written(cs))[n] == Flat(cs[0].groups)[0];
    var first := Flat(c.groups)[0];
    assert first == (Flat(c.groups) + Written(cs))[0] == Flat(d.groups)[0];
    ScopeOfFirst(input, closes, c, first);
    ScopeOfFirst(input, closes, d, first);
    ScopeOfFirst(input, closes, d, next);
    ScopeOfFirst(input, closes, cs[0], next);
    assert all[0].scope == all[0 + 1].scope;
  }

  lemma {:induction false} NothingWritten(chunks: seq<Chunk>)
    ensures chunks == [] ==> Written(chunks) == []
  {
  }

  lemma {:induction false} NotEmpty(input: Input, closes: SplitPolicy, c: Chunk)
    requires GoodChunk(input, closes, c)
    ensures Flat(c.groups) != [] && GoodRun(input, closes, c.groups)
  {
  }

  lemma {:induction false} FrontIsAll(groups: seq<seq<Row>>, k: nat)
    requires k <= |groups|
    ensures k == |groups| ==> groups[..k] == groups
  {
  }

  /** A run that was closed full is not the beginning of a longer one. */
  lemma {:induction false} ClosedIsNotFront(input: Input, closes: SplitPolicy, g: seq<seq<Row>>, h: seq<seq<Row>>,
                                            k: nat)
    requires GoodRun(input, closes, g) && GoodRun(input, closes, h) && ClosedFull(input, closes, g)
    requires Flat(g) <= Flat(h) && k <= |g| && k <= |h| && g[..k] == h[..k]
    ensures Flat(g) == Flat(h)
    decreases |g| - k
  {
    hide GoodRun, GroupRoom, Flat, Filled;
    FrontIsAll(g, k);
    FrontIsAll(h, k);
    if k < |g| && k < |h| {
      GroupWithinRoom(input, closes, g, k);
      GroupWithinRoom(input, closes, h, k);
      assert |g[k]| == GroupRoom(input, |Flat(g[..k])|);
      SameGroup(g, h, Flat(h), k);
      ClosedIsNotFront(input, closes, g, h, k + 1);
    } else if k < |h| {
      assert h[..k - 1 + 1] == h[..k];
      GroupWithinRoom(input, closes, h, k - 1);
    } else if k < |g| {
      GroupWithinRoom(input, closes, g, k);
    }
  }

  lemma {:induction false} FirstSegmentUnique(input: Input, closes: SplitPolicy, c: Chunk, cs: seq<Chunk>, d: Chunk,
                                              ds: seq<Chunk>)
    requires GoodChunks(input, closes, [c] + cs) && GoodChunks(input, closes, [d] + ds)
    requires Flat(c.groups) + Written(cs) == Flat(d.groups) + Written(ds)
    ensures c == d
  {
    hide GoodRun, ClosedFull, Flat, RowScope, GoodChunk, Written;
    assert ([c] + cs)[0] == c && ([d] + ds)[0] == d;
    NotEmpty(input, closes, c);
    NotEmpty(input, closes, d);
    var rows := Flat(c.groups) + Written(cs);
    assert Flat(c.groups) <= rows && Flat(d.groups) <= rows;
    if |Flat(c.groups)| < |Flat(d.groups)| {
      EndsFull(input, closes, c, cs, d);
      assert Flat(c.groups) == rows[..|Flat(c.groups)|] <= Flat(d.groups);
      ClosedIsNotFront(input, closes, c.groups, d.groups, 0);
    } else if |Flat(d.groups)| < |Flat(c.groups)| {
      EndsFull(input, closes, d, ds, c);
      assert Flat(d.groups) == rows[..|Flat(d.groups)|] <= Flat(c.groups);
      ClosedIsNotFront(input, closes, d.groups, c.groups, 0);
    }
    GroupsUnique(input, closes, c.groups, d.groups, 0);
    ScopeOfFirst(input, closes, c, Flat(c.groups)[0]);
    ScopeOfFirst(input, closes, d, Flat(d.groups)[0]);
  }

  lemma {:induction false} GoodTail(input: Input, closes: SplitPolicy, c: Chunk, cs: seq<Chunk>)
    requires GoodChunks(input, closes, [c] + cs)
    ensures GoodChunks(input, closes, cs)
  {
    hide GoodChunk, ClosedFull;
    var all := [c] + cs;
    forall i | 0 <= i < |cs| ensures GoodChunk(input, closes, cs[i]) {
      assert all[i + 1] == cs[i];
    }
    forall i | 0 <= i < |cs| - 1
      ensures ClosedFull(input, closes, cs[i].groups) || cs[i].scope != cs[i + 1].scope
    {
      assert all[i + 1] == cs[i] && all[i + 1 + 1] == cs[i + 1];
    }
  }

  /** What the encoder guarantees leaves no choice: the same rows, under the same limits and policy, give the same
      segments. */
  lemma {:induction false} SegmentsUnique(input: Input, closes: SplitPolicy, a: seq<Chunk>, b: seq<Chunk>)
    requires GoodChunks(input, closes, a) && GoodChunks(input, closes, b) && Written(a) == Written(b)
    ensures a == b
  {
    hide GoodChunks, GoodChunk, Flat;
    SomethingWritten(input, closes, a);
    SomethingWritten(input, closes, b);
    if a != [] && b != [] {
      var c, d := a[0], b[0];
      assert a == [c] + a[1..] && b == [d] + b[1..];
      WrittenFront(c, a[1..]);
      WrittenFront(d, b[1..]);
      FirstSegmentUnique(input, closes, c, a[1..], d, b[1..]);
      GoodTail(input, closes, c, a[1..]);
      GoodTail(input, closes, d, b[1..]);
      assert Written(a[1..]) == Written(a)[|Flat(c.groups)|..] == Written(b)[|Flat(c.groups)|..] == Written(b[1..]);
      SegmentsUnique(input, closes, a[1..], b[1..]);
    }
  }

  lemma {:induction false} SomethingWritten(input: Input, closes: SplitPolicy, chunks: seq<Chunk>)
    requires GoodChunks(input, closes, chunks)
    ensures chunks == [] <==> Written(chunks) == []
  {
    hide Flat;
    if chunks != [] {
      NotEmpty(input, closes, chunks[|chunks| - 1]);
    }
  }
}
