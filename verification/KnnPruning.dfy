/** The segments a nearest-neighbour query skips, and why no skipped row is among the nearest. */
module KnnPruning {
  import opened Bytes
  import opened VectorMath
  import opened VectorSketch
  import opened Knn
  import opened KnnPrecision
  import opened SketchCodec

  ghost predicate ValidSketches(sketches: seq<Option<Sketch>>) {
    forall i | 0 <= i < |sketches| && sketches[i].Some? ::
      |sketches[i].value.centrePlain| == |sketches[i].value.centreUnit| == sketches[i].value.dim
  }

  ghost function BoundAt(root: real -> real, sketches: seq<Option<Sketch>>, query: Vector, metric: Metric,
                         i: nat): Option<Bound>
    requires ValidSketches(sketches) && i < |sketches|
  {
    if sketches[i].Some? then Bounds(root, sketches[i].value, query, metric) else None
  }

  ghost function AllBounds(root: real -> real, sketches: seq<Option<Sketch>>, query: Vector,
                           metric: Metric): seq<Option<Bound>>
    requires ValidSketches(sketches)
  {
    seq(|sketches|, i requires 0 <= i < |sketches| => BoundAt(root, sketches, query, metric, i))
  }

  /** The list of upper bounds carries the same rows as the segments' bounds. */
  ghost predicate Carries(bounds: seq<Option<Bound>>, list: seq<Upper>) {
    && Total(bounds) == UpperTotal(list)
    && forall t: Extended, strict: bool :: Tally(bounds, t, strict) == UpperTally(list, t, strict)
  }

  method UppersOf(bounds: seq<Option<Bound>>) returns (list: seq<Upper>)
    ensures Carries(bounds, list)
  {
    list := [];
    assert bounds[..0] == [];
    for i := 0 to |bounds|
      invariant Carries(bounds[..i], list)
    {
      ghost var before := list;
      if bounds[i].Some? && bounds[i].value.count > 0 {
        list := list + [Upper(bounds[i].value.upper, bounds[i].value.count)];
      }
      CarriesMore(bounds, i, before, list);
    }
    assert bounds[..|bounds|] == bounds;
  }

  lemma {:induction false} CarriesMore(bounds: seq<Option<Bound>>, i: nat, list: seq<Upper>, list': seq<Upper>)
    requires i < |bounds| && Carries(bounds[..i], list)
    requires list' == if bounds[i].Some? && bounds[i].value.count > 0
                      then list + [Upper(bounds[i].value.upper, bounds[i].value.count)] else list
    ensures Carries(bounds[..i + 1], list')
  {
    assert bounds[..i + 1][..i] == bounds[..i];
    if bounds[i].Some? && bounds[i].value.count > 0 {
      assert list'[..|list|] == list;
    }
    forall t: Extended, strict: bool ensures Tally(bounds[..i + 1], t, strict) == UpperTally(list', t, strict) {
      assert Tally(bounds[..i], t, strict) == UpperTally(list, t, strict);
    }
  }

  method ComputeBounds(root: real -> real, sketches: seq<Option<Sketch>>, query: Vector, metric: Metric)
    returns (bounds: seq<Option<Bound>>)
    requires ValidSketches(sketches)
    ensures bounds == AllBounds(root, sketches, query, metric)
  {
    hide Bounds;
    bounds := [];
    for i := 0 to |sketches|
      invariant |bounds| == i && forall j | 0 <= j < i :: bounds[j] == BoundAt(root, sketches, query, metric, j)
    {
      bounds := bounds + [if sketches[i].Some? then Bounds(root, sketches[i].value, query, metric) else None];
    }
  }

  method AboveThreshold(bounds: seq<Option<Bound>>, t: Extended) returns (out: seq<nat>)
    ensures Excludes(bounds, t, out)
  {
    out := [];
    for i := 0 to |bounds|
      invariant forall k | 0 <= k < |out| :: out[k] < i
      invariant forall k, j | 0 <= k < j < |out| :: out[k] < out[j]
      invariant forall k: nat | k < i :: k in out <==> bounds[k].Some? && Below(t, Finite(bounds[k].value.lower))
    {
      if bounds[i].Some? && Below(t, Finite(bounds[i].value.lower)) {
        out := out + [i];
      }
    }
  }

  /** The result is what the bounds make of it: nothing without a threshold, else the segments beyond the threshold. */
  ghost predicate IsExcluded(bounds: seq<Option<Bound>>, needed: nat, out: seq<nat>) {
    if needed == 0 || Total(bounds) < needed then out == []
    else exists t: Extended :: IsThreshold(bounds, needed, t) && Excludes(bounds, t, out)
  }

  /** Indexes of the segments that cannot hold one of the `needed` nearest rows: those whose lower bound is above the
      `needed`-th smallest upper bound. None when fewer rows than that are covered. */
  method KnnExcluded(root: real -> real, sketches: seq<Option<Sketch>>, query: Vector, metric: Metric, needed: nat)
    returns (out: seq<nat>)
    requires ValidSketches(sketches)
    ensures IsExcluded(AllBounds(root, sketches, query, metric), needed, out)
  {
    hide AllBounds, Excludes, Total, Tally, UpperTotal, UpperTally;
    if needed == 0 {
      return [];
    }
    var bounds := ComputeBounds(root, sketches, query, metric);
    var list := UppersOf(bounds);
    var sorted := SortUppers(list);
    var t := FindThreshold(sorted, needed);
    if t.None? {
      return [];
    }
    assert UpperTally(sorted, t.value, true) == UpperTally(list, t.value, true);
    assert UpperTally(sorted, t.value, false) == UpperTally(list, t.value, false);
    assert IsThreshold(bounds, needed, t.value);
    out := AboveThreshold(bounds, t.value);
  }

  // ---- No skipped row is among the nearest ----

  type RowId = (nat, nat)

  /** The segments' rows, each described by its sketch if there is one. */
  ghost predicate Sketched(root: real -> real, sketches: seq<Option<Sketch>>, segments: seq<Rows>) {
    && |sketches| == |segments|
    && forall i | 0 <= i < |sketches| && sketches[i].Some? :: Describes(root, sketches[i].value, segments[i])
  }

  ghost function DistanceAt(root: real -> real, metric: Metric, query: Vector, segments: seq<Rows>,
                            id: RowId): Option<real>
    requires id.0 < |segments| && id.1 < |segments[id.0]|
  {
    RowDistance(root, metric, query, segments[id.0][id.1])
  }

  /** Rows of the first `n` segments within distance `t`. */
  ghost function Near(root: real -> real, metric: Metric, query: Vector, segments: seq<Rows>, t: real,
                      n: nat): set<RowId>
    requires n <= |segments|
  {
    set i: nat, j: nat | i < n && j < |segments[i]| && Within(RowDistance(root, metric, query, segments[i][j]), t) ::
      (i, j)
  }

  predicate Within(d: Option<real>, t: real) {
    d.Some? && d.value <= t
  }

  ghost function Column(i: nat, rows: set<nat>): set<RowId> {
    set j | j in rows :: (i, j)
  }

  lemma {:induction false} ColumnSize(i: nat, rows: set<nat>)
    ensures |Column(i, rows)| == |rows|
  {
    if rows == {} {
      assert Column(i, rows) == {};
    } else {
      var j :| j in rows;
      ColumnSize(i, rows - {j});
      assert Column(i, rows) == Column(i, rows - {j}) + {(i, j)};
    }
  }

  /** A segment whose upper bound is within `t` has all its rows with a distance there. */
  lemma {:induction false} SegmentNear(root: real -> real, sketches: seq<Option<Sketch>>, segments: seq<Rows>,
                                       query: Vector, metric: Metric, t: real, i: nat)
    requires IsRoot(root) && Sketched(root, sketches, segments) && ValidSketches(sketches) && i < |segments|
    requires BoundAt(root, sketches, query, metric, i).Some?
             && NotAbove(BoundAt(root, sketches, query, metric, i).value.upper, Finite(t))
    ensures Column(i, WithDistance(root, metric, query, segments[i])) <= Near(root, metric, query, segments, t, i + 1)
    ensures BoundAt(root, sketches, query, metric, i).value.count == |WithDistance(root, metric, query, segments[i])|
  {
    hide RowDistance, Bounds, Describes;
    var s, rows := sketches[i].value, segments[i];
    assert Describes(root, s, rows);
    CountHolds(root, s, rows, query, metric);
    forall j | j in WithDistance(root, metric, query, rows)
      ensures Within(RowDistance(root, metric, query, rows[j]), t)
    {
      BoundsHold(root, s, rows, query, metric, j);
    }
  }

  lemma {:induction false} NearCount(root: real -> real, sketches: seq<Option<Sketch>>, segments: seq<Rows>,
                                     query: Vector, metric: Metric, t: real, n: nat)
    requires IsRoot(root) && Sketched(root, sketches, segments) && ValidSketches(sketches) && n <= |segments|
    ensures |Near(root, metric, query, segments, t, n)|
         >= Tally(AllBounds(root, sketches, query, metric)[..n], Finite(t), false)
  {
    hide RowDistance, Bounds, Describes, ValidSketches;
    if n > 0 {
      var bounds, i := AllBounds(root, sketches, query, metric), n - 1;
      NearCount(root, sketches, segments, query, metric, t, i);
      assert bounds[..n][..i] == bounds[..i];
      var before, after := Near(root, metric, query, segments, t, i), Near(root, metric, query, segments, t, n);
      assert before <= after;
      SubsetSize(before, after);
      if bounds[i].Some? && NotAbove(bounds[i].value.upper, Finite(t)) {
        var column := Column(i, WithDistance(root, metric, query, segments[i]));
        SegmentNear(root, sketches, segments, query, metric, t, i);
        ColumnSize(i, WithDistance(root, metric, query, segments[i]));
        assert before !! column;
        SubsetSize(before + column, after);
      }
    }
  }

  lemma {:induction false} SubsetSize(a: set<RowId>, b: set<RowId>)
    requires a <= b
    ensures |a| <= |b|
  {
    assert b == a + (b - a);
  }

  lemma {:induction false} DifferenceSize(a: set<RowId>, b: set<RowId>)
    ensures |a - b| >= |a| - |b|
  {
    assert a == (a - b) + (a * b);
    SubsetSize(a * b, b);
  }

  /** The rows that survive the masking and are strictly nearer than `id`. */
  ghost function NearerSurvivors(root: real -> real, metric: Metric, query: Vector, segments: seq<Rows>,
                                 masked: set<RowId>, id: RowId): set<RowId>
    requires id.0 < |segments| && id.1 < |segments[id.0]|
  {
    set i: nat, j: nat | i < |segments| && j < |segments[i]| && (i, j) !in masked &&
      Nearer(RowDistance(root, metric, query, segments[i][j]), DistanceAt(root, metric, query, segments, id)) :: (i, j)
  }

  /** Those rows have a distance, and it is smaller than that of `id`, or `id` has none. */
  lemma {:induction false} SurvivorsAreNearer(root: real -> real, metric: Metric, query: Vector, segments: seq<Rows>,
                                              masked: set<RowId>, id: RowId, other: RowId)
    requires id.0 < |segments| && id.1 < |segments[id.0]|
    requires other in NearerSurvivors(root, metric, query, segments, masked, id)
    ensures other.0 < |segments| && other.1 < |segments[other.0]| && other !in masked
    ensures var d, e := DistanceAt(root, metric, query, segments, other), DistanceAt(root, metric, query, segments, id);
            d.Some? && (e.Some? ==> d.value < e.value)
  {
    hide RowDistance;
  }

  lemma {:induction false} NearIsNearer(root: real -> real, sketches: seq<Option<Sketch>>, segments: seq<Rows>,
                                        query: Vector, metric: Metric, t: real, id: RowId, masked: set<RowId>)
    requires IsRoot(root) && Sketched(root, sketches, segments) && ValidSketches(sketches)
    requires id.0 < |segments| && id.1 < |segments[id.0]|
    requires BoundAt(root, sketches, query, metric, id.0).Some?
             && BoundAt(root, sketches, query, metric, id.0).value.lower > t
    ensures Near(root, metric, query, segments, t, |segments|) - masked
         <= NearerSurvivors(root, metric, query, segments, masked, id)
  {
    hide RowDistance, Bounds, Describes, ValidSketches;
    assert Describes(root, sketches[id.0].value, segments[id.0]);
    if DistanceAt(root, metric, query, segments, id).Some? {
      BoundsHold(root, sketches[id.0].value, segments[id.0], query, metric, id.1);
    }
  }

  /** A row of an excluded segment is never among the `k` nearest survivors, whatever at most `needed - k` rows are
      masked: at least `k` surviving rows are strictly nearer. */
  lemma {:induction false} ExcludedRowNotNearest(root: real -> real, sketches: seq<Option<Sketch>>, segments: seq<Rows>,
                                                 query: Vector, metric: Metric, needed: nat, t: Extended, out: seq<nat>,
                                                 k: nat, masked: set<RowId>, id: RowId)
    requires IsRoot(root) && Sketched(root, sketches, segments) && ValidSketches(sketches)
    requires IsThreshold(AllBounds(root, sketches, query, metric), needed, t)
    requires Excludes(AllBounds(root, sketches, query, metric), t, out)
    requires k <= needed && |masked| <= needed - k
    requires id.0 in out && id.1 < |segments[id.0]|
    ensures |NearerSurvivors(root, metric, query, segments, masked, id)| >= k
  {
    hide Near, NearerSurvivors, Sketched, ValidSketches, BoundAt;
    var bounds, n := AllBounds(root, sketches, query, metric), |segments|;
    assert bounds[..n] == bounds by { SameCount(root, sketches, segments); }
    NearCount(root, sketches, segments, query, metric, t.value, n);
    NearIsNearer(root, sketches, segments, query, metric, t.value, id, masked);
    var near := Near(root, metric, query, segments, t.value, n);
    DifferenceSize(near, masked);
    SubsetSize(near - masked, NearerSurvivors(root, metric, query, segments, masked, id));
  }

  lemma {:induction false} SameCount(root: real -> real, sketches: seq<Option<Sketch>>, segments: seq<Rows>)
    requires Sketched(root, sketches, segments)
    ensures |sketches| == |segments|
  {
  }

  // ---- What is far away is skipped ----

  ghost predicate SegmentInReach(root: real -> real, sketches: seq<Option<Sketch>>, segments: seq<Rows>, query: Vector,
                                 metric: Metric, t: real, i: nat)
    requires |sketches| == |segments| && i < |segments|
  {
    sketches[i].Some? && InReach(root, metric, query, sketches[i].value, segments[i], t)
  }

  /** The rows with a distance of those of the first `n` segments that are within reach. */
  ghost function CloseRows(root: real -> real, sketches: seq<Option<Sketch>>, segments: seq<Rows>, query: Vector,
                           metric: Metric, t: real, n: nat): set<RowId>
    requires |sketches| == |segments| && n <= |segments|
  {
    set i: nat, j: nat | i < n && j < |segments[i]| && RowDistance(root, metric, query, segments[i][j]).Some?
      && SegmentInReach(root, sketches, segments, query, metric, t, i) :: (i, j)
  }

  lemma {:induction false} CloseRowsTallied(root: real -> real, sketches: seq<Option<Sketch>>, segments: seq<Rows>,
                                            query: Vector, metric: Metric, t: real, n: nat)
    requires IsRoot(root) && Sketched(root, sketches, segments) && ValidSketches(sketches) && n <= |segments|
    ensures |CloseRows(root, sketches, segments, query, metric, t, n)|
         <= Tally(AllBounds(root, sketches, query, metric)[..n], Finite(Amount(metric, t)), false)
  {
    hide RowDistance, Bounds, Describes, InReach, Amount, CloseRows, WithDistance, Column;
    if n == 0 {
      NoCloseRows(root, sketches, segments, query, metric, t);
    } else {
      var bounds, i := AllBounds(root, sketches, query, metric), n - 1;
      CloseRowsTallied(root, sketches, segments, query, metric, t, i);
      assert bounds[..n][..i] == bounds[..i];
      CloseRowsMore(root, sketches, segments, query, metric, t, i);
      if SegmentInReach(root, sketches, segments, query, metric, t, i) {
        assert Describes(root, sketches[i].value, segments[i]);
        InReachBound(root, sketches[i].value, segments[i], query, metric, t);
        CountHolds(root, sketches[i].value, segments[i], query, metric);
        ColumnSize(i, WithDistance(root, metric, query, segments[i]));
      }
    }
  }

  lemma {:induction false} CloseRowsMore(root: real -> real, sketches: seq<Option<Sketch>>, segments: seq<Rows>,
                                         query: Vector, metric: Metric, t: real, i: nat)
    requires |sketches| == |segments| && i < |segments|
    ensures CloseRows(root, sketches, segments, query, metric, t, i + 1) ==
            CloseRows(root, sketches, segments, query, metric, t, i) +
              if SegmentInReach(root, sketches, segments, query, metric, t, i)
              then Column(i, WithDistance(root, metric, query, segments[i])) else {}
  {
    hide RowDistance, SegmentInReach;
  }

  lemma {:induction false} NoCloseRows(root: real -> real, sketches: seq<Option<Sketch>>, segments: seq<Rows>,
                                       query: Vector, metric: Metric, t: real)
    requires |sketches| == |segments|
    ensures CloseRows(root, sketches, segments, query, metric, t, 0) == {}
  {
    hide SegmentInReach, RowDistance;
  }

  lemma {:induction false} TallyAtMostTotal(bounds: seq<Option<Bound>>, t: Extended)
    ensures Tally(bounds, t, false) <= Total(bounds)
  {
    if bounds != [] {
      TallyAtMostTotal(bounds[..|bounds| - 1], t);
    }
  }

  /** Enough rows are in segments within reach of `t`, and segment `i` is beyond it. */
  ghost predicate FarAway(root: real -> real, sketches: seq<Option<Sketch>>, segments: seq<Rows>, query: Vector,
                          metric: Metric, needed: nat, t: real, i: nat)
    requires |sketches| == |segments|
  {
    && t >= 0.0 && 0 < needed <= |CloseRows(root, sketches, segments, query, metric, t, |segments|)|
    && i < |segments| && sketches[i].Some? && OutOfReach(root, metric, query, sketches[i].value, segments[i], t)
  }

  /** A segment beyond the reach of enough other rows is skipped. */
  lemma {:induction false} FarSegmentExcluded(root: real -> real, sketches: seq<Option<Sketch>>, segments: seq<Rows>,
                                              query: Vector, metric: Metric, needed: nat, out: seq<nat>, t: real,
                                              i: nat)
    requires IsRoot(root) && Sketched(root, sketches, segments) && ValidSketches(sketches)
    requires IsExcluded(AllBounds(root, sketches, query, metric), needed, out)
    requires |sketches| == |segments| && FarAway(root, sketches, segments, query, metric, needed, t, i)
    ensures i in out
  {
    hide Bounds, Describes, InReach, OutOfReach, CloseRows, Tally, Total, Amount;
    var bounds, reach := AllBounds(root, sketches, query, metric), Finite(Amount(metric, t));
    assert bounds[..|segments|] == bounds;
    CloseRowsTallied(root, sketches, segments, query, metric, t, |segments|);
    TallyAtMostTotal(bounds, reach);
    var threshold: Extended :| IsThreshold(bounds, needed, threshold) && Excludes(bounds, threshold, out);
    if Below(reach, threshold) {
      TallyGrows(bounds, reach, threshold);
    }
    assert Describes(root, sketches[i].value, segments[i]);
    OutOfReachBound(root, sketches[i].value, segments[i], query, metric, t);
    assert bounds[i] == Bounds(root, sketches[i].value, query, metric);
  }

  // ---- From stored bytes to the answer ----

  /** Each stored sketch was written for its segment. */
  ghost predicate AllStored(root: real -> real, f: Floats, stored: seq<Option<ByteString>>, segments: seq<Rows>) {
    && |stored| == |segments|
    && forall i | 0 <= i < |stored| && stored[i].Some? :: StoresSketchOf(root, f, stored[i].value, segments[i])
  }

  ghost function Decoded(f: Floats, stored: seq<Option<ByteString>>): seq<Option<Sketch>> {
    seq(|stored|, i requires 0 <= i < |stored| => if stored[i].Some? then Decode(f, stored[i].value) else None)
  }

  method DecodeAll(root: real -> real, f: Floats, stored: seq<Option<ByteString>>, ghost segments: seq<Rows>)
    returns (sketches: seq<Option<Sketch>>)
    requires AllStored(root, f, stored, segments)
    ensures Sketched(root, sketches, segments) && ValidSketches(sketches)
    ensures sketches == Decoded(f, stored)
  {
    hide Decode, Encloses, Vectors, Units;
    sketches := [];
    for i := 0 to |stored|
      invariant |sketches| == i
      invariant forall j | 0 <= j < i :: sketches[j] == if stored[j].Some? then Decode(f, stored[j].value) else None
      invariant forall j | 0 <= j < i && sketches[j].Some? :: Describes(root, sketches[j].value, segments[j])
    {
      sketches := sketches + [if stored[i].Some? then Decode(f, stored[i].value) else None];
    }
  }

  /** Whatever rows are masked, as many survivors as are still needed are strictly nearer than any row of a skipped
      segment. */
  ghost predicate SkipsNoNearest(root: real -> real, metric: Metric, query: Vector, segments: seq<Rows>, needed: nat,
                                 out: seq<nat>) {
    forall id: RowId, masked: set<RowId> |
      id.0 in out && id.0 < |segments| && id.1 < |segments[id.0]| && |masked| <= needed ::
        |NearerSurvivors(root, metric, query, segments, masked, id)| >= needed - |masked|
  }

  /** Every segment beyond the reach of enough other rows is skipped. */
  ghost predicate SkipsFar(root: real -> real, sketches: seq<Option<Sketch>>, segments: seq<Rows>, query: Vector,
                           metric: Metric, needed: nat, out: seq<nat>)
    requires |sketches| == |segments|
  {
    forall t: real, i: nat | FarAway(root, sketches, segments, query, metric, needed, t, i) :: i in out
  }

  /** The segments a query skips, by the sketches stored for them. */
  method SkippedSegments(root: real -> real, f: Floats, stored: seq<Option<ByteString>>, query: Vector, metric: Metric,
                         needed: nat, ghost segments: seq<Rows>) returns (out: seq<nat>)
    requires IsRoot(root) && AllStored(root, f, stored, segments)
    ensures (forall i | i in out :: i < |segments|) && SkipsNoNearest(root, metric, query, segments, needed, out)
    ensures SkipsFar(root, Decoded(f, stored), segments, query, metric, needed, out)
  {
    hide *;
    var sketches := DecodeAll(root, f, stored, segments);
    out := KnnExcluded(root, sketches, query, metric, needed);
    SameCount(root, sketches, segments);
    FarSegmentsExcluded(root, sketches, segments, query, metric, needed, out);
    ExcludedSkipsNoNearest(root, sketches, segments, query, metric, needed, out);
  }

  lemma {:induction false} FarSegmentsExcluded(root: real -> real, sketches: seq<Option<Sketch>>, segments: seq<Rows>,
                                               query: Vector, metric: Metric, needed: nat, out: seq<nat>)
    requires IsRoot(root) && Sketched(root, sketches, segments) && ValidSketches(sketches)
    requires IsExcluded(AllBounds(root, sketches, query, metric), needed, out)
    ensures |sketches| == |segments| && SkipsFar(root, sketches, segments, query, metric, needed, out)
  {
    hide FarAway, Describes, IsExcluded, AllBounds, ValidSketches;
    forall t: real, i: nat | FarAway(root, sketches, segments, query, metric, needed, t, i) ensures i in out {
      FarSegmentExcluded(root, sketches, segments, query, metric, needed, out, t, i);
    }
  }

  lemma {:induction false} ExcludedSkipsNoNearest(root: real -> real, sketches: seq<Option<Sketch>>,
                                                  segments: seq<Rows>, query: Vector, metric: Metric, needed: nat,
                                                  out: seq<nat>)
    requires IsRoot(root) && Sketched(root, sketches, segments) && ValidSketches(sketches)
    requires IsExcluded(AllBounds(root, sketches, query, metric), needed, out)
    ensures (forall i | i in out :: i < |segments|) && SkipsNoNearest(root, metric, query, segments, needed, out)
  {
    hide NearerSurvivors, Sketched, ValidSketches, BoundAt, IsThreshold;
    SameCount(root, sketches, segments);
    var bounds := AllBounds(root, sketches, query, metric);
    forall id: RowId, masked: set<RowId> |
      id.0 in out && id.0 < |segments| && id.1 < |segments[id.0]| && |masked| <= needed
      ensures |NearerSurvivors(root, metric, query, segments, masked, id)| >= needed - |masked|
    {
      var t: Extended :| IsThreshold(bounds, needed, t) && Excludes(bounds, t, out);
      ExcludedRowNotNearest(root, sketches, segments, query, metric, needed, t, out, needed - |masked|, masked, id);
    }
  }
}
