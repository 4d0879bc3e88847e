/** Which active segments are rewritten together: the `may share a key` test, its connected
    components found by a sweep with union-find, and the disjointness test with a pair budget. */
module Compaction {
  import opened Bytes
  import opened KeyBounds

  type Interval = (ByteString, ByteString)

  /** One active segment's size, key box and (for composite keys) tuple interval. */
  datatype SegmentRange = SegmentRange(rowCount: int, bounds: seq<Interval>, tuple: Option<Interval>)

  predicate Meets(a: Interval, b: Interval) {
    AtMost(a.0, b.1) && AtMost(b.0, a.1)
  }

  /** One key may be in both segments: the boxes meet on every key column and, if both segments have
      tuple intervals, those meet too. */
  predicate MayShareKeys(a: SegmentRange, b: SegmentRange) {
    && |a.bounds| == |b.bounds|
    && (forall c | 0 <= c < |a.bounds| :: Meets(a.bounds[c], b.bounds[c]))
    && (a.tuple.Some? && b.tuple.Some? ==> Meets(a.tuple.value, b.tuple.value))
  }

  predicate Within(bytes: ByteString, interval: Interval) {
    AtMost(interval.0, bytes) && AtMost(bytes, interval.1)
  }

  /** The segment's bounds are true of `key`. */
  predicate CoversKey(s: SegmentRange, key: KeyTuple) {
    && |s.bounds| == |key|
    && (forall c | 0 <= c < |key| :: Within(key[c], s.bounds[c]))
    && (s.tuple.Some? ==> Within(FrameTuple(key), s.tuple.value))
  }

  lemma {:induction false} WithinBothMeets(bytes: ByteString, a: Interval, b: Interval)
    requires Within(bytes, a) && Within(bytes, b)
    ensures Meets(a, b)
  {
    AtMostTransitive(a.0, bytes, b.1);
    AtMostTransitive(b.0, bytes, a.1);
  }

  /** A key held by two segments whose bounds cover it is never missed by the test. */
  lemma {:induction false} SharedKeyMayShare(a: SegmentRange, b: SegmentRange, key: KeyTuple)
    requires CoversKey(a, key) && CoversKey(b, key)
    ensures MayShareKeys(a, b)
  {
    forall c | 0 <= c < |a.bounds| ensures Meets(a.bounds[c], b.bounds[c]) {
      WithinBothMeets(key[c], a.bounds[c], b.bounds[c]);
    }
    if a.tuple.Some? && b.tuple.Some? {
      WithinBothMeets(FrameTuple(key), a.tuple.value, b.tuple.value);
    }
  }

  // ---- When the test answers no ----

  /** Both ends of the column's interval are values of the keys, and every key lies within it. */
  ghost predicate ColumnExact(interval: Interval, keys: seq<KeyTuple>, c: nat)
    requires forall k | k in keys :: c < |k|
  {
    && (forall k | k in keys :: Within(k[c], interval))
    && (exists k | k in keys :: k[c] == interval.0) && (exists k | k in keys :: k[c] == interval.1)
  }

  /** The range is that of a segment with these keys: the extremes of each column and, if it has one, of the tuples. */
  ghost predicate ExactFor(s: SegmentRange, keys: seq<KeyTuple>) {
    && (forall k | k in keys :: |k| == |s.bounds|)
    && (forall c | 0 <= c < |s.bounds| :: ColumnExact(s.bounds[c], keys, c))
    && (s.tuple.Some? ==> Extremes(keys, s.tuple.value.0, s.tuple.value.1))
  }

  ghost predicate ColumnBefore(ks: seq<KeyTuple>, ls: seq<KeyTuple>, c: nat)
    requires (forall k | k in ks :: c < |k|) && (forall l | l in ls :: c < |l|)
  {
    forall k, l | k in ks && l in ls :: Less(k[c], l[c])
  }

  ghost predicate TuplesBefore(ks: seq<KeyTuple>, ls: seq<KeyTuple>) {
    forall k, l | k in ks && l in ls :: TupleLess(k, l)
  }

  lemma {:induction false} ApartIffColumnBefore(a: Interval, ks: seq<KeyTuple>, b: Interval, ls: seq<KeyTuple>, c: nat)
    requires (forall k | k in ks :: c < |k|) && (forall l | l in ls :: c < |l|)
    requires ColumnExact(a, ks, c) && ColumnExact(b, ls, c)
    ensures Less(a.1, b.0) <==> ColumnBefore(ks, ls, c)
  {
    if Less(a.1, b.0) {
      forall k, l | k in ks && l in ls ensures Less(k[c], l[c]) {
        AtMostTransitive(k[c], a.1, b.0);
        AtMostTransitive(k[c], b.0, l[c]);
      }
    }
  }

  lemma {:induction false} ApartIffTuplesBefore(a: Interval, ks: seq<KeyTuple>, b: Interval, ls: seq<KeyTuple>, n: nat)
    requires (forall k | k in ks :: |k| == n) && (forall l | l in ls :: |l| == n)
    requires Extremes(ks, a.0, a.1) && Extremes(ls, b.0, b.1)
    ensures Less(a.1, b.0) <==> TuplesBefore(ks, ls)
  {
    if Less(a.1, b.0) {
      forall k, l | k in ks && l in ls ensures TupleLess(k, l) {
        AtMostTransitive(FrameTuple(k), a.1, b.0);
        AtMostTransitive(FrameTuple(k), b.0, FrameTuple(l));
        FramedTupleOrder(k, l);
      }
    }
    if TuplesBefore(ks, ls) {
      var k :| k in ks && FrameTuple(k) == a.1;
      var l :| l in ls && FrameTuple(l) == b.0;
      FramedTupleOrder(k, l);
    }
  }

  /** One column, or the tuples if both segments have tuple bounds, separate the two segments' keys. */
  ghost predicate Separated(ks: seq<KeyTuple>, ls: seq<KeyTuple>, n: nat, tuples: bool)
    requires (forall k | k in ks :: |k| == n) && (forall l | l in ls :: |l| == n)
  {
    || (exists c | 0 <= c < n :: ColumnBefore(ks, ls, c) || ColumnBefore(ls, ks, c))
    || (tuples && (TuplesBefore(ks, ls) || TuplesBefore(ls, ks)))
  }

  /** The test says no exactly for segments whose keys are separated on a column or as tuples. */
  lemma {:induction false} MayShareExactly(a: SegmentRange, ks: seq<KeyTuple>, b: SegmentRange, ls: seq<KeyTuple>)
    requires ExactFor(a, ks) && ExactFor(b, ls) && |a.bounds| == |b.bounds|
    ensures MayShareKeys(a, b) <==> !Separated(ks, ls, |a.bounds|, a.tuple.Some? && b.tuple.Some?)
  {
    hide ColumnExact, Extremes, ColumnBefore, TuplesBefore;
    forall c | 0 <= c < |a.bounds|
      ensures Meets(a.bounds[c], b.bounds[c]) <==> !ColumnBefore(ks, ls, c) && !ColumnBefore(ls, ks, c)
    {
      ApartIffColumnBefore(a.bounds[c], ks, b.bounds[c], ls, c);
      ApartIffColumnBefore(b.bounds[c], ls, a.bounds[c], ks, c);
      AtMostTotal(a.bounds[c].0, b.bounds[c].1);
      AtMostTotal(b.bounds[c].0, a.bounds[c].1);
    }
    if a.tuple.Some? && b.tuple.Some? {
      ApartIffTuplesBefore(a.tuple.value, ks, b.tuple.value, ls, |a.bounds|);
      ApartIffTuplesBefore(b.tuple.value, ls, a.tuple.value, ks, |a.bounds|);
      AtMostTotal(a.tuple.value.0, b.tuple.value.1);
      AtMostTotal(b.tuple.value.0, a.tuple.value.1);
    }
  }

  /** Segments whose keys have different numbers of columns do not share keys. */
  lemma {:induction false} OtherWidthNeverShares(a: SegmentRange, b: SegmentRange)
    requires |a.bounds| != |b.bounds|
    ensures !MayShareKeys(a, b) && forall key :: !(CoversKey(a, key) && CoversKey(b, key))
  {
  }

  // ---- The graph of segments that may share keys ----

  predicate Bounded(segs: seq<SegmentRange>, i: nat) {
    i < |segs| && segs[i].bounds != []
  }

  /** The order the planner's input must have: by the first key column's minimum. */
  predicate SortedByLead(segs: seq<SegmentRange>) {
    forall i, j | 0 <= i < j < |segs| && Bounded(segs, i) && Bounded(segs, j) ::
      AtMost(segs[i].bounds[0].0, segs[j].bounds[0].0)
  }

  predicate Edge(segs: seq<SegmentRange>, i: nat, j: nat) {
    Bounded(segs, i) && Bounded(segs, j) && MayShareKeys(segs[i], segs[j])
  }

  ghost predicate IsPath(segs: seq<SegmentRange>, p: seq<nat>) {
    && p != []
    && (forall t | 0 <= t < |p| :: p[t] < |segs|)
    && (forall t | 0 <= t < |p| - 1 :: Edge(segs, p[t], p[t + 1]))
  }

  ghost predicate Joins(segs: seq<SegmentRange>, p: seq<nat>, i: nat, j: nat) {
    IsPath(segs, p) && p[0] == i && p[|p| - 1] == j
  }

  /** `i` and `j` are linked by a chain of segments, each of which may share a key with the next. */
  ghost predicate Connected(segs: seq<SegmentRange>, i: nat, j: nat) {
    exists p :: Joins(segs, p, i, j)
  }

  lemma {:induction false} ConnectedReflexive(segs: seq<SegmentRange>, i: nat)
    requires i < |segs|
    ensures Connected(segs, i, i)
  {
    assert Joins(segs, [i], i, i);
  }

  lemma {:induction false} ConnectedEdge(segs: seq<SegmentRange>, i: nat, j: nat)
    requires Edge(segs, i, j)
    ensures Connected(segs, i, j)
  {
    assert Joins(segs, [i, j], i, j);
  }

  lemma {:induction false} ConnectedSymmetric(segs: seq<SegmentRange>, i: nat, j: nat)
    requires Connected(segs, i, j)
    ensures Connected(segs, j, i)
  {
    var p :| Joins(segs, p, i, j);
    var back := seq(|p|, t requires 0 <= t < |p| => p[|p| - 1 - t]);
    forall t | 0 <= t < |back| - 1 ensures Edge(segs, back[t], back[t + 1]) {
      assert Edge(segs, p[|p| - 2 - t], p[|p| - 2 - t + 1]);
    }
    assert Joins(segs, back, j, i);
  }

  lemma {:induction false} ConnectedTransitive(segs: seq<SegmentRange>, i: nat, j: nat, k: nat)
    requires Connected(segs, i, j) && Connected(segs, j, k)
    ensures Connected(segs, i, k)
  {
    var p :| Joins(segs, p, i, j);
    var q :| Joins(segs, q, j, k);
    var pq := p + q[1..];
    forall t | 0 <= t < |pq| - 1 ensures Edge(segs, pq[t], pq[t + 1]) {
      if t < |p| - 1 {
        assert Edge(segs, p[t], p[t + 1]);
      } else {
        var u := t - (|p| - 1);
        assert pq[t] == q[u] && pq[t + 1] == q[u + 1];
        assert Edge(segs, q[u], q[u + 1]);
      }
    }
    assert Joins(segs, pq, i, k);
  }

  // ---- Union-find over a parent array whose links never point upwards ----

  predicate Forest(parent: seq<nat>) {
    forall i | 0 <= i < |parent| :: parent[i] <= i
  }

  /** The representative of `i`. It terminates because a parent never exceeds its child. */
  function Root(parent: seq<nat>, i: nat): (r: nat)
    requires Forest(parent) && i < |parent|
    ensures r <= i && parent[r] == r
    decreases i
  {
    if parent[i] == i then i else Root(parent, parent[i])
  }

  ghost predicate SameRoots(p: seq<nat>, q: seq<nat>) {
    && |p| == |q| && Forest(p) && Forest(q)
    && (forall k | 0 <= k < |p| :: Root(p, k) == Root(q, k))
  }

  lemma {:induction false} RootHalved(p: seq<nat>, i: nat, k: nat)
    requires Forest(p) && i < |p| && k < |p|
    ensures Forest(p[i := p[p[i]]]) && Root(p[i := p[p[i]]], k) == Root(p, k)
    decreases k
  {
    var q := p[i := p[p[i]]];
    assert Forest(q);
    if k == i {
      if q[k] != k {
        RootHalved(p, i, q[k]);
      }
    } else if p[k] != k {
      RootHalved(p, i, p[k]);
    }
  }

  lemma {:induction false} RootLinked(p: seq<nat>, lo: nat, hi: nat, k: nat)
    requires Forest(p) && lo < hi < |p| && k < |p| && p[lo] == lo && p[hi] == hi
    ensures Forest(p[hi := lo])
    ensures Root(p[hi := lo], k) == if Root(p, k) == hi then lo else Root(p, k)
    decreases k
  {
    var q := p[hi := lo];
    assert Forest(q);
    if k != hi && p[k] != k {
      RootLinked(p, lo, hi, p[k]);
    } else if k == hi {
      assert Root(q, lo) == lo;
    }
  }

  /** Finds a representative, halving the path on the way. No representative changes. */
  method Find(parent: array<nat>, start: nat) returns (root: nat)
    requires start < parent.Length && Forest(parent[..])
    modifies parent
    ensures SameRoots(old(parent[..]), parent[..])
    ensures root == Root(old(parent[..]), start)
  {
    root := start;
    while parent[root] != root
      invariant root < parent.Length
      invariant SameRoots(old(parent[..]), parent[..])
      invariant Root(parent[..], root) == Root(old(parent[..]), start)
      decreases root
    {
      ghost var before := parent[..];
      forall k | 0 <= k < |before|
        ensures Forest(before[root := before[before[root]]])
        ensures Root(before[root := before[before[root]]], k) == Root(before, k)
      {
        RootHalved(before, root, k);
      }
      parent[root] := parent[parent[root]];
      assert parent[..] == before[root := before[before[root]]];
      root := parent[root];
    }
  }

  /** The representative of `k` after the classes with representatives `x` and `y` are merged. */
  function Merged(r: nat, x: nat, y: nat): nat {
    if x < y then (if r == y then x else r) else (if r == x then y else r)
  }

  /** Merges the classes of `a` and `b` under the smaller representative. */
  method Unite(parent: array<nat>, a: nat, b: nat)
    requires a < parent.Length && b < parent.Length && Forest(parent[..])
    modifies parent
    ensures Forest(parent[..])
    ensures forall k | 0 <= k < parent.Length ::
              Root(parent[..], k) ==
              Merged(Root(old(parent[..]), k), Root(old(parent[..]), a), Root(old(parent[..]), b))
  {
    var x := Find(parent, a);
    var y := Find(parent, b);
    if x != y {
      ghost var before := parent[..];
      var lo, hi := if x < y then x else y, if x < y then y else x;
      assert before[x] == x by {
        assert Root(before, a) == x;
      }
      assert before[y] == y by {
        assert Root(before, b) == y;
      }
      forall k | 0 <= k < |before|
        ensures Forest(before[hi := lo])
        ensures Root(before[hi := lo], k) == if Root(before, k) == hi then lo else Root(before, k)
      {
        RootLinked(before, lo, hi, k);
      }
      parent[hi] := lo;
      assert parent[..] == before[hi := lo];
    }
  }

  // ---- The sweep ----

  /** Every class holds only segments that are chained together. */
  ghost predicate RootsSound(segs: seq<SegmentRange>, p: seq<nat>) {
    && |p| == |segs| && Forest(p)
    && (forall k | 0 <= k < |p| :: Connected(segs, k, Root(p, k)))
  }

  /** Every edge among the first `n` segments is inside one class. */
  ghost predicate EdgesJoined(segs: seq<SegmentRange>, p: seq<nat>, n: nat) {
    && |p| == |segs| && Forest(p) && n <= |p|
    && (forall i, j | 0 <= i < j < n && Edge(segs, j, i) :: Root(p, i) == Root(p, j))
  }

  /** Classes are only ever merged. */
  ghost predicate Coarser(p: seq<nat>, q: seq<nat>) {
    && |p| == |q| && Forest(p) && Forest(q)
    && (forall i, j | 0 <= i < |p| && 0 <= j < |p| && Root(p, i) == Root(p, j) :: Root(q, i) == Root(q, j))
  }

  ghost predicate Ascending(s: seq<nat>) {
    forall i, j | 0 <= i < j < |s| :: s[i] < s[j]
  }

  /** What the sweep's active list holds when it reaches segment `n`: bounded segments before `n`, and
      all of them except ones that no segment from `n` on can share a key with. */
  ghost predicate ActiveFor(segs: seq<SegmentRange>, active: seq<nat>, n: nat) {
    && Ascending(active)
    && (forall j | j in active :: j < n && Bounded(segs, j))
    && (forall j, m | 0 <= j < n <= m < |segs| && Bounded(segs, j) && Bounded(segs, m) && j !in active ::
          Less(segs[j].bounds[0].1, segs[m].bounds[0].0))
  }

  /** The earlier segments whose first-column interval reaches segment `i`. */
  ghost function LeadSet(segs: seq<SegmentRange>, i: nat): set<nat>
    requires Bounded(segs, i)
  {
    set j | 0 <= j < i && Bounded(segs, j) && AtMost(segs[i].bounds[0].0, segs[j].bounds[0].1)
  }

  /** Drops active segments that end before the current segment starts. */
  method Retain(segs: seq<SegmentRange>, active: seq<nat>, index: nat) returns (kept: seq<nat>)
    requires SortedByLead(segs) && Bounded(segs, index) && ActiveFor(segs, active, index)
    ensures ActiveFor(segs, kept + [index], index + 1)
    ensures Ascending(kept) && forall j: nat :: j in kept <==> j in LeadSet(segs, index)
  {
    kept := [];
    var leadMin := segs[index].bounds[0].0;
    for t := 0 to |active|
      invariant Ascending(kept)
      invariant forall j | j in kept :: j in active[..t]
      invariant forall j | j in active[..t] && Bounded(segs, j) ::
                  j in kept <==> AtMost(leadMin, segs[j].bounds[0].1)
    {
      var other := active[t];
      assert other in active && Bounded(segs, other);
      assert active[..t + 1] == active[..t] + [other];
      assert forall j | j in active[..t] :: j < other;
      assert forall i | 0 <= i < |kept| :: kept[i] in kept;
      if AtMost(leadMin, segs[other].bounds[0].1) {
        kept := kept + [other];
      }
    }
    assert active[..|active|] == active;
    RetainedAreActive(segs, active, kept, index);
  }

  lemma {:induction false} RetainedAreActive(segs: seq<SegmentRange>, active: seq<nat>, kept: seq<nat>, index: nat)
    requires SortedByLead(segs) && Bounded(segs, index) && ActiveFor(segs, active, index) && Ascending(kept)
    requires forall j | j in kept :: j in active
    requires forall j | j in active && Bounded(segs, j) ::
               j in kept <==> AtMost(segs[index].bounds[0].0, segs[j].bounds[0].1)
    ensures ActiveFor(segs, kept + [index], index + 1)
    ensures forall j: nat :: j in kept <==> j in LeadSet(segs, index)
  {
    var leadMin := segs[index].bounds[0].0;
    assert forall i | 0 <= i < |kept| :: kept[i] in kept;
    forall j, m | 0 <= j < index + 1 <= m < |segs| && Bounded(segs, j) && Bounded(segs, m) && j !in kept + [index]
      ensures Less(segs[j].bounds[0].1, segs[m].bounds[0].0)
    {
      if j in active {
        AtMostTotal(leadMin, segs[j].bounds[0].1);
        AtMostTransitive(segs[j].bounds[0].1, leadMin, segs[m].bounds[0].0);
      }
    }
    forall j: nat ensures j in kept <==> j in LeadSet(segs, index) {
      if j in LeadSet(segs, index) && j !in active {
        LessAsymmetric(segs[j].bounds[0].1, leadMin);
      }
    }
  }

  /** Discarding early is safe: what `Retain` drops shares no key with the current segment. */
  lemma {:induction false} OnlyLeadSetShares(segs: seq<SegmentRange>, i: nat, j: nat)
    requires j < i && Edge(segs, i, j)
    ensures j in LeadSet(segs, i)
  {
    assert Meets(segs[i].bounds[0], segs[j].bounds[0]);
  }

  /** Unites `index` with every listed segment it may share a key with. */
  method UniteWith(segs: seq<SegmentRange>, parent: array<nat>, index: nat, others: seq<nat>)
    requires RootsSound(segs, parent[..]) && index < |segs| && forall j | j in others :: j < |segs|
    modifies parent
    ensures RootsSound(segs, parent[..]) && Coarser(old(parent[..]), parent[..])
    ensures forall j | j in others && Edge(segs, index, j) :: Root(parent[..], index) == Root(parent[..], j)
  {
    for t := 0 to |others|
      invariant RootsSound(segs, parent[..]) && Coarser(old(parent[..]), parent[..])
      invariant forall j | j in others[..t] && Edge(segs, index, j) ::
                  Root(parent[..], index) == Root(parent[..], j)
    {
      assert others[t] in others && others[..t + 1] == others[..t] + [others[t]];
      if segs[index].bounds != [] && segs[others[t]].bounds != [] && MayShareKeys(segs[index], segs[others[t]]) {
        ghost var before := parent[..];
        Unite(parent, index, others[t]);
        UnitedStillSound(segs, before, parent[..], index, others[t]);
      }
    }
    assert others[..|others|] == others;
  }

  lemma {:induction false} UnitedStillSound(segs: seq<SegmentRange>, p: seq<nat>, q: seq<nat>, a: nat, b: nat)
    requires RootsSound(segs, p) && |q| == |p| && Forest(q) && Edge(segs, a, b)
    requires forall k | 0 <= k < |q| :: Root(q, k) == Merged(Root(p, k), Root(p, a), Root(p, b))
    ensures RootsSound(segs, q) && Coarser(p, q) && Root(q, a) == Root(q, b)
  {
    var x, y := Root(p, a), Root(p, b);
    ConnectedEdge(segs, a, b);
    ConnectedSymmetric(segs, a, x);
    ConnectedTransitive(segs, x, a, b);
    ConnectedTransitive(segs, x, b, y);
    ConnectedSymmetric(segs, x, y);
    forall k | 0 <= k < |q| ensures Connected(segs, k, Root(q, k)) {
      if Root(p, k) == x {
        ConnectedTransitive(segs, k, x, y);
      }
      if Root(p, k) == y {
        ConnectedTransitive(segs, k, y, x);
      }
    }
  }

  lemma {:induction false} EdgesJoinedStep(segs: seq<SegmentRange>, p: seq<nat>, q: seq<nat>, n: nat, active: seq<nat>)
    requires EdgesJoined(segs, p, n) && Coarser(p, q) && Bounded(segs, n)
    requires forall j: nat :: j in active <==> j in LeadSet(segs, n)
    requires forall j | j in active && Edge(segs, n, j) :: Root(q, n) == Root(q, j)
    ensures EdgesJoined(segs, q, n + 1)
  {
    forall i, j | 0 <= i < j < n + 1 && Edge(segs, j, i) ensures Root(q, i) == Root(q, j) {
      if j == n {
        OnlyLeadSetShares(segs, n, i);
      } else {
        assert Root(p, i) == Root(p, j);
      }
    }
  }

  lemma {:induction false} SkipUnbounded(segs: seq<SegmentRange>, p: seq<nat>, active: seq<nat>, n: nat)
    requires EdgesJoined(segs, p, n) && ActiveFor(segs, active, n) && n < |segs| && !Bounded(segs, n)
    ensures EdgesJoined(segs, p, n + 1) && ActiveFor(segs, active, n + 1)
  {
  }

  method Sweep(segs: seq<SegmentRange>) returns (parent: array<nat>)
    requires SortedByLead(segs)
    ensures fresh(parent)
    ensures RootsSound(segs, parent[..]) && EdgesJoined(segs, parent[..], |segs|)
  {
    parent := new nat[|segs|](i => i);
    forall k | 0 <= k < |segs| ensures Connected(segs, k, Root(parent[..], k)) {
      ConnectedReflexive(segs, k);
    }
    var active: seq<nat> := [];
    assert ActiveFor(segs, active, 0) && EdgesJoined(segs, parent[..], 0) && RootsSound(segs, parent[..]);
    hide ActiveFor, EdgesJoined, SortedByLead;
    for index := 0 to |segs|
      invariant RootsSound(segs, parent[..]) && EdgesJoined(segs, parent[..], index)
      invariant ActiveFor(segs, active, index)
    {
      if segs[index].bounds == [] {
        SkipUnbounded(segs, parent[..], active, index);
      }
      if segs[index].bounds != [] {
        active := Retain(segs, active, index);
        ghost var before := parent[..];
        UniteWith(segs, parent, index, active);
        EdgesJoinedStep(segs, before, parent[..], index, active);
        active := active + [index];
      }
    }
  }

  // ---- Reading the components off the forest ----

  /** The members before `n` of the class represented by `r`, in input order. */
  ghost function Members(p: seq<nat>, r: nat, n: nat): seq<nat>
    requires Forest(p) && n <= |p|
  {
    if n == 0 then []
    else Members(p, r, n - 1) + (if Root(p, n - 1) == r then [n - 1] else [])
  }

  lemma {:induction false} MembersExact(p: seq<nat>, r: nat, n: nat)
    requires Forest(p) && n <= |p|
    ensures Ascending(Members(p, r, n))
    ensures forall x: nat :: x in Members(p, r, n) <==> x < n && Root(p, x) == r
  {
    if n > 0 {
      MembersExact(p, r, n - 1);
      var before := Members(p, r, n - 1);
      if Root(p, n - 1) == r {
        assert Members(p, r, n) == before + [n - 1];
        assert forall i | 0 <= i < |before| :: before[i] in before;
      }
    }
  }

  /** A class starts with its representative, its least member. */
  lemma {:induction false} MembersFirst(p: seq<nat>, r: nat, n: nat)
    requires Forest(p) && r < n <= |p| && p[r] == r
    ensures Members(p, r, n) != [] && Members(p, r, n)[0] == r
    ensures Members(p, r, r) == []
  {
    MembersExact(p, r, n);
    MembersExact(p, r, r);
    assert r in Members(p, r, n);
    var m := Members(p, r, n);
    assert m[0] in m;
    var i :| 0 <= i < |m| && m[i] == r;
    assert forall x: nat :: x < r ==> Root(p, x) != r;
    assert Members(p, r, r) != [] ==> Members(p, r, r)[0] in Members(p, r, r);
  }

  predicate IsRoot(p: seq<nat>, r: nat) {
    r < |p| && p[r] == r
  }

  /** The representatives met in the first `n` indexes, and the classes collected for them. */
  ghost predicate RootsBefore(p: seq<nat>, order: seq<nat>, n: nat) {
    && Forest(p) && n <= |p| && Ascending(order)
    && (forall r: nat :: r in order <==> r < n && IsRoot(p, r))
  }

  ghost predicate GroupsBefore(p: seq<nat>, groups: map<nat, seq<nat>>, n: nat) {
    && Forest(p) && n <= |p| && groups.Keys == RootSet(p, n)
    && (forall r: nat | r in groups :: groups[r] == Members(p, r, n))
  }

  ghost function RootSet(p: seq<nat>, n: nat): set<nat> {
    set r: nat | r < n && IsRoot(p, r)
  }

  lemma {:induction false} RootSetStep(p: seq<nat>, n: nat)
    requires Forest(p) && n < |p|
    ensures RootSet(p, n + 1) == RootSet(p, n) + {Root(p, n)}
  {
    assert IsRoot(p, Root(p, n));
  }

  lemma {:induction false} NothingGrouped(p: seq<nat>)
    requires Forest(p)
    ensures RootsBefore(p, [], 0) && GroupsBefore(p, map[], 0)
  {
  }

  lemma {:induction false} RootsBeforeStep(p: seq<nat>, order: seq<nat>, n: nat)
    requires RootsBefore(p, order, n) && n < |p|
    ensures RootsBefore(p, if IsRoot(p, n) then order + [n] else order, n + 1)
  {
    assert forall i | 0 <= i < |order| :: order[i] in order;
  }

  lemma {:induction false} GroupsBeforeStep(p: seq<nat>, groups: map<nat, seq<nat>>, n: nat)
    requires GroupsBefore(p, groups, n) && n < |p|
    ensures var r := Root(p, n);
            var group := if r in groups then groups[r] else [];
            && (group == [] <==> r == n) && (r == n <==> IsRoot(p, n))
            && GroupsBefore(p, groups[r := group + [n]], n + 1)
  {
    var r := Root(p, n);
    assert IsRoot(p, r);
    var group := if r in groups then groups[r] else [];
    assert group == Members(p, r, n) && (group == [] <==> r == n) by {
      if r < n {
        MembersFirst(p, r, n);
      } else {
        MembersFirst(p, r, n + 1);
      }
    }
    var groups' := groups[r := group + [n]];
    assert groups'.Keys == groups.Keys + {r};
    RootSetStep(p, n);
    forall x: nat | x in groups' ensures groups'[x] == Members(p, x, n + 1) {
      MembersStep(p, x, n);
    }
  }

  lemma {:induction false} MembersStep(p: seq<nat>, r: nat, n: nat)
    requires Forest(p) && n < |p|
    ensures Members(p, r, n + 1) == if Root(p, n) == r then Members(p, r, n) + [n] else Members(p, r, n)
  {
  }

  /** `comps` lists the classes of the forest by ascending representative. */
  ghost predicate ByRoot(p: seq<nat>, comps: seq<seq<nat>>) {
    && Forest(p)
    && (forall c | 0 <= c < |comps| ::
          comps[c] != [] && comps[c][0] < |p| && comps[c] == Members(p, comps[c][0], |p|))
    && (forall c, d | 0 <= c < d < |comps| :: comps[c][0] < comps[d][0])
    && (forall r: nat | IsRoot(p, r) :: exists c | 0 <= c < |comps| :: comps[c][0] == r)
  }

  lemma {:induction false} CollectedByRoot(p: seq<nat>, order: seq<nat>, groups: map<nat, seq<nat>>,
                                           comps: seq<seq<nat>>)
    requires RootsBefore(p, order, |p|) && GroupsBefore(p, groups, |p|) && |comps| == |order|
    requires forall c | 0 <= c < |comps| :: order[c] in groups && comps[c] == groups[order[c]]
    ensures ByRoot(p, comps)
  {
    forall c | 0 <= c < |comps|
      ensures comps[c] != [] && comps[c][0] == order[c] < |p| && comps[c] == Members(p, order[c], |p|)
    {
      assert order[c] in order;
      MembersFirst(p, order[c], |p|);
    }
    forall r: nat | IsRoot(p, r) ensures exists c | 0 <= c < |comps| :: comps[c][0] == r {
      assert r in order;
      var c :| 0 <= c < |order| && order[c] == r;
      assert comps[c][0] == r;
    }
  }

  lemma {:induction false} CollectedKeys(p: seq<nat>, order: seq<nat>, groups: map<nat, seq<nat>>)
    requires RootsBefore(p, order, |p|) && GroupsBefore(p, groups, |p|)
    ensures forall r | r in order :: r in groups
  {
    forall r | r in order ensures r in groups {
      assert IsRoot(p, r);
    }
  }

  method Collect(order: seq<nat>, groups: map<nat, seq<nat>>) returns (comps: seq<seq<nat>>)
    requires forall r | r in order :: r in groups
    ensures |comps| == |order| && forall c | 0 <= c < |comps| :: comps[c] == groups[order[c]]
  {
    comps := [];
    for t := 0 to |order|
      invariant |comps| == t && forall c | 0 <= c < t :: comps[c] == groups[order[c]]
    {
      comps := comps + [groups[order[t]]];
    }
  }

  method GroupByRoot(parent: array<nat>) returns (comps: seq<seq<nat>>)
    requires Forest(parent[..])
    modifies parent
    ensures ByRoot(old(parent[..]), comps)
  {
    hide RootsBefore, GroupsBefore, ByRoot;
    ghost var p := parent[..];
    assert RootsBefore(p, [], 0) && GroupsBefore(p, map[], 0) by {
      NothingGrouped(p);
    }
    var order: seq<nat>, groups: map<nat, seq<nat>> := [], map[];
    for index := 0 to parent.Length
      invariant SameRoots(p, parent[..])
      invariant RootsBefore(p, order, index) && GroupsBefore(p, groups, index)
    {
      RootsBeforeStep(p, order, index);
      GroupsBeforeStep(p, groups, index);
      var root := Find(parent, index);
      var group := if root in groups then groups[root] else [];
      if group == [] {
        order := order + [root];
      }
      groups := groups[root := group + [index]];
    }
    assert forall r | r in order :: r in groups by {
      CollectedKeys(p, order, groups);
    }
    comps := Collect(order, groups);
    CollectedByRoot(p, order, groups, comps);
  }

  ghost predicate Listed(comps: seq<seq<nat>>, x: nat) {
    exists c | 0 <= c < |comps| :: x in comps[c]
  }

  /** `comps` lists the connected components of the graph, each in input order, ordered by their first
      members. */
  ghost predicate IsComponents(segs: seq<SegmentRange>, comps: seq<seq<nat>>) {
    && (forall c | 0 <= c < |comps| :: comps[c] != [] && Ascending(comps[c]))
    && (forall c, x | 0 <= c < |comps| && x in comps[c] :: x < |segs|)
    && (forall x | 0 <= x < |segs| :: Listed(comps, x))
    && (forall c, d, x, y | 0 <= c < |comps| && 0 <= d < |comps| && x in comps[c] && y in comps[d] ::
          c == d <==> Connected(segs, x, y))
    && (forall c, d | 0 <= c < d < |comps| :: comps[c][0] < comps[d][0])
  }

  lemma {:induction false} PathStaysInClass(segs: seq<SegmentRange>, p: seq<nat>, path: seq<nat>)
    requires EdgesJoined(segs, p, |segs|) && IsPath(segs, path)
    ensures Root(p, path[0]) == Root(p, path[|path| - 1])
  {
    if |path| > 1 {
      assert Edge(segs, path[0], path[1]);
      EdgeSymmetric(segs, path[0], path[1]);
      var rest := path[1..];
      forall t | 0 <= t < |rest| - 1 ensures Edge(segs, rest[t], rest[t + 1]) {
        assert Edge(segs, path[t + 1], path[t + 1 + 1]);
      }
      PathStaysInClass(segs, p, rest);
    }
  }

  lemma {:induction false} EdgeSymmetric(segs: seq<SegmentRange>, i: nat, j: nat)
    requires Edge(segs, i, j)
    ensures Edge(segs, j, i)
  {
  }

  /** Two segments are in one class exactly when they are chained together. */
  lemma {:induction false} RootsAreComponents(segs: seq<SegmentRange>, p: seq<nat>, x: nat, y: nat)
    requires RootsSound(segs, p) && EdgesJoined(segs, p, |segs|) && x < |segs| && y < |segs|
    ensures Root(p, x) == Root(p, y) <==> Connected(segs, x, y)
  {
    if Root(p, x) == Root(p, y) {
      ConnectedSymmetric(segs, y, Root(p, y));
      ConnectedTransitive(segs, x, Root(p, x), y);
    }
    if Connected(segs, x, y) {
      var path :| Joins(segs, path, x, y);
      PathStaysInClass(segs, p, path);
    }
  }

  lemma {:induction false} ClassesAreComponents(segs: seq<SegmentRange>, p: seq<nat>, comps: seq<seq<nat>>)
    requires RootsSound(segs, p) && EdgesJoined(segs, p, |segs|) && ByRoot(p, comps)
    ensures IsComponents(segs, comps)
  {
    forall c | 0 <= c < |comps|
      ensures Ascending(comps[c])
      ensures forall x: nat :: x in comps[c] <==> x < |segs| && Root(p, x) == comps[c][0]
    {
      MembersExact(p, comps[c][0], |p|);
    }
    forall x | 0 <= x < |segs| ensures Listed(comps, x) {
      assert IsRoot(p, Root(p, x));
      var c :| 0 <= c < |comps| && comps[c][0] == Root(p, x);
      assert x in comps[c];
    }
    forall c, d, x, y | 0 <= c < |comps| && 0 <= d < |comps| && x in comps[c] && y in comps[d]
      ensures c == d <==> Connected(segs, x, y)
    {
      RootsAreComponents(segs, p, x, y);
    }
  }

  /** Indexes of `segs` grouped into overlap components. */
  method OverlapComponents(segs: seq<SegmentRange>) returns (comps: seq<seq<nat>>)
    requires SortedByLead(segs)
    ensures IsComponents(segs, comps)
  {
    var parent := Sweep(segs);
    ghost var p := parent[..];
    comps := GroupByRoot(parent);
    ClassesAreComponents(segs, p, comps);
  }
}
