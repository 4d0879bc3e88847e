/** Skipping segments of a nearest-neighbour query, and why no skipped row is among the nearest. */
module Knn {
  import opened Bytes
  import opened VectorMath
  import opened VectorSketch

  datatype Metric = L2 | Cosine

  // ---- Distance of a row ----

  /** The query's distance to a row; `None` sorts last: a NULL vector, or a cosine distance that is not a number. */
  ghost function RowDistance(root: real -> real, metric: Metric, query: Vector, row: Option<Vector>): Option<real> {
    if row.None? || |row.value| != |query| then None
    else if metric.L2? then Some(Distance(root, query, row.value))
    else if Norm(root, query) > 0.0 && Norm(root, row.value) > 0.0 then Some(CosineDistance(root, query, row.value))
    else None
  }

  /** Strictly nearer, with `None` last. */
  predicate Nearer(a: Option<real>, b: Option<real>) {
    a.Some? && (b.None? || a.value < b.value)
  }

  // ---- Bounds of a segment ----

  /** The upper bound is infinite when the radius is. */
  datatype Bound = Bound(lower: real, upper: Extended, count: nat)

  predicate Below(a: Extended, b: Extended) {
    a.Finite? && (b.Infinite? || a.value < b.value)
  }

  predicate NotAbove(a: Extended, b: Extended) {
    a == b || Below(a, b)
  }

  const BOUND_SLACK: real := 0.0001
  const SLACK_FLOOR: real := 0.000001

  function Slack(d: real, r: real): real {
    BOUND_SLACK * (d + r) + SLACK_FLOOR
  }

  function Nearest(d: real, r: Extended): real {
    if r.Finite? then Greater(d - r.value - Slack(d, r.value), 0.0) else 0.0
  }

  function Furthest(d: real, r: Extended): Extended {
    if r.Finite? then Finite(d + r.value + Slack(d, r.value)) else Infinite
  }

  function HalfSquare(x: Extended): Extended {
    if x.Finite? then Finite(x.value * x.value / 2.0) else Infinite
  }

  /** Bounds on the distance from `query` to any vector of the segment, widened by the slack. */
  function Bounds(root: real -> real, s: Sketch, query: Vector, metric: Metric): Option<Bound>
    requires |s.centrePlain| == |s.centreUnit| == s.dim
  {
    if |query| != s.dim then None
    else if metric.L2? then
      var d, r := Distance(root, query, s.centrePlain), s.radiusPlain;
      Some(Bound(Nearest(d, r), Furthest(d, r), s.countPlain))
    else if s.countUnit == 0 || Norm(root, query) <= 0.0 then None
    else
      var d, r := Distance(root, Unit(root, query), s.centreUnit), s.radiusUnit;
      var low := Nearest(d, r);
      Some(Bound(low * low / 2.0, HalfSquare(Furthest(d, r)), s.countUnit))
  }

  lemma {:induction false} HalfSquareOrder(low: real, e: real)
    requires 0.0 <= low <= e
    ensures low * low / 2.0 <= e * e / 2.0
  {
    assert low * low <= e * low <= e * e;
  }

  lemma {:induction false} VectorsHas(rows: Rows, j: nat)
    requires j < |rows| && rows[j].Some?
    ensures rows[j].value in Vectors(rows)
  {
    if j < |rows| - 1 {
      VectorsHas(rows[..|rows| - 1], j);
    }
  }

  lemma {:induction false} UnitsHas(root: real -> real, rows: Rows, j: nat)
    requires j < |rows| && rows[j].Some? && Norm(root, rows[j].value) > 0.0
    ensures Unit(root, rows[j].value) in Units(root, rows)
  {
    hide Unit, Norm;
    if j < |rows| - 1 {
      UnitsHas(root, rows[..|rows| - 1], j);
    }
  }

  lemma {:induction false} SlackPositive(d: real, r: real)
    requires d >= 0.0 && r >= 0.0
    ensures Slack(d, r) > 0.0
  {
  }

  lemma {:induction false} DistanceNonNegative(root: real -> real, a: Vector, b: Vector)
    requires IsRoot(root) && |a| == |b|
    ensures Distance(root, a, b) >= 0.0
  {
    NormSquared(root, Minus(a, b));
  }

  /** A point within the ball is between the two bounds, whatever the radius. */
  lemma {:induction false} BetweenBounds(root: real -> real, query: Vector, centre: Vector, v: Vector, r: Extended)
    requires IsRoot(root) && |query| == |centre| == |v|
    requires r.Finite? ==> Distance(root, centre, v) <= r.value
    ensures var d := Distance(root, query, centre);
            && 0.0 <= Nearest(d, r) <= Distance(root, query, v)
            && NotAbove(Finite(Distance(root, query, v)), Furthest(d, r))
  {
    hide Distance;
    DistanceNonNegative(root, query, centre);
    DistanceNonNegative(root, query, v);
    DistanceNonNegative(root, centre, v);
    if r.Finite? {
      BallBounds(root, query, centre, v, r.value);
      SlackPositive(Distance(root, query, centre), r.value);
    }
  }

  lemma {:induction false} PlainBoundsHold(root: real -> real, s: Sketch, rows: Rows, query: Vector, j: nat)
    requires IsRoot(root) && Describes(root, s, rows) && j < |rows| && rows[j].Some? && |query| == s.dim
    ensures |rows[j].value| == |query|
    ensures var b, d := Bounds(root, s, query, L2).value, Distance(root, query, rows[j].value);
            b.lower <= d && NotAbove(Finite(d), b.upper)
  {
    hide Distance, Units, Vectors, Nearest, Furthest, NotAbove;
    VectorsHas(rows, j);
    BetweenBounds(root, query, s.centrePlain, rows[j].value, s.radiusPlain);
  }

  lemma {:induction false} UnitBoundsHold(root: real -> real, s: Sketch, rows: Rows, query: Vector, j: nat)
    requires IsRoot(root) && Describes(root, s, rows) && j < |rows| && rows[j].Some? && |query| == s.dim
    requires Norm(root, query) > 0.0 && Norm(root, rows[j].value) > 0.0 && s.countUnit > 0
    ensures |rows[j].value| == |query|
    ensures var b, d := Bounds(root, s, query, Cosine).value, CosineDistance(root, query, rows[j].value);
            b.lower <= d && NotAbove(Finite(d), b.upper)
  {
    hide Distance, Units, Vectors, Unit, Norm, CosineDistance, Nearest, Furthest;
    var v := rows[j].value;
    VectorsHas(rows, j);
    UnitsHas(root, rows, j);
    UnitLength(root, query);
    UnitLength(root, v);
    var u, w := Unit(root, query), Unit(root, v);
    CosineIsHalfSquare(root, query, v);
    BetweenBounds(root, u, s.centreUnit, w, s.radiusUnit);
    var d, e := Distance(root, u, s.centreUnit), Distance(root, u, w);
    HalfSquareOrder(Nearest(d, s.radiusUnit), e);
    if Furthest(d, s.radiusUnit).Finite? {
      HalfSquareOrder(e, Furthest(d, s.radiusUnit).value);
    }
  }

  /** Every row with a distance lies within its segment's bounds. */
  lemma {:induction false} BoundsHold(root: real -> real, s: Sketch, rows: Rows, query: Vector, metric: Metric, j: nat)
    requires IsRoot(root) && Describes(root, s, rows) && j < |rows|
    requires Bounds(root, s, query, metric).Some? && RowDistance(root, metric, query, rows[j]).Some?
    ensures var b, d := Bounds(root, s, query, metric).value, RowDistance(root, metric, query, rows[j]).value;
            b.lower <= d && NotAbove(Finite(d), b.upper)
  {
    hide Distance, Units, Vectors, Unit, Norm, CosineDistance, Describes, NotAbove;
    if metric.L2? {
      PlainBoundsHold(root, s, rows, query, j);
    } else {
      UnitBoundsHold(root, s, rows, query, j);
    }
  }

  // ---- Counting rows ----

  ghost function WithDistance(root: real -> real, metric: Metric, query: Vector, rows: Rows): set<nat> {
    set j: nat | j < |rows| && RowDistance(root, metric, query, rows[j]).Some?
  }

  ghost predicate Length(rows: Rows, dim: nat) {
    forall r | r in rows && r.Some? :: |r.value| == dim
  }

  lemma {:induction false} WithDistanceMore(root: real -> real, metric: Metric, query: Vector, rows: Rows)
    requires rows != []
    ensures var init, n := rows[..|rows| - 1], |rows| - 1;
            WithDistance(root, metric, query, rows) == WithDistance(root, metric, query, init) +
              if RowDistance(root, metric, query, rows[n]).Some? then {n} else {}
  {
    hide RowDistance;
  }

  lemma {:induction false} HasDistanceIff(root: real -> real, metric: Metric, query: Vector, row: Option<Vector>)
    requires row.Some? ==> |row.value| == |query|
    requires metric.Cosine? ==> Norm(root, query) > 0.0
    ensures RowDistance(root, metric, query, row).Some? <==>
            (if metric.L2? then Present(row) else Direction(root, row)) != []
  {
    hide Norm, Distance, Unit;
  }

  lemma {:induction false} CountWithDistance(root: real -> real, metric: Metric, query: Vector, rows: Rows)
    requires Length(rows, |query|) && (metric.Cosine? ==> Norm(root, query) > 0.0)
    ensures |WithDistance(root, metric, query, rows)| == if metric.L2? then |Vectors(rows)| else |Units(root, rows)|
  {
    hide RowDistance, Norm, Unit;
    if rows == [] {
      assert WithDistance(root, metric, query, rows) == {};
    } else {
      var init, n := rows[..|rows| - 1], |rows| - 1;
      assert rows[n] in rows && forall r | r in init :: r in rows;
      CountWithDistance(root, metric, query, init);
      WithDistanceMore(root, metric, query, rows);
      HasDistanceIff(root, metric, query, rows[n]);
    }
  }

  lemma {:induction false} DescribedLength(root: real -> real, s: Sketch, rows: Rows)
    requires Describes(root, s, rows)
    ensures Length(rows, s.dim)
  {
    hide Distance, Units;
    forall r | r in rows && r.Some? ensures |r.value| == s.dim {
      var j :| 0 <= j < |rows| && rows[j] == r;
      VectorsHas(rows, j);
    }
  }

  /** A segment's count is the number of its rows that have a distance. */
  lemma {:induction false} CountHolds(root: real -> real, s: Sketch, rows: Rows, query: Vector, metric: Metric)
    requires IsRoot(root) && Describes(root, s, rows) && Bounds(root, s, query, metric).Some?
    ensures Bounds(root, s, query, metric).value.count == |WithDistance(root, metric, query, rows)|
  {
    hide Distance, Norm, Unit;
    DescribedLength(root, s, rows);
    CountWithDistance(root, metric, query, rows);
  }

  // ---- The threshold ----

  /** Rows of the segments whose upper bound is at most (or, strictly, below) `t`. */
  ghost function Tally(bounds: seq<Option<Bound>>, t: Extended, strict: bool): nat {
    if bounds == [] then 0
    else Tally(bounds[..|bounds| - 1], t, strict) + Share(bounds[|bounds| - 1], t, strict)
  }

  ghost function Share(b: Option<Bound>, t: Extended, strict: bool): nat {
    if b.Some? && (Below(b.value.upper, t) || (!strict && b.value.upper == t)) then b.value.count else 0
  }

  ghost function Total(bounds: seq<Option<Bound>>): nat {
    if bounds == [] then 0
    else Total(bounds[..|bounds| - 1]) + if bounds[|bounds| - 1].Some? then bounds[|bounds| - 1].value.count else 0
  }

  /** `t` is the `needed`-th smallest upper bound, counting a segment once for each of its rows. */
  ghost predicate IsThreshold(bounds: seq<Option<Bound>>, needed: nat, t: Extended) {
    Tally(bounds, t, true) < needed <= Tally(bounds, t, false)
  }

  lemma {:induction false} TallyGrows(bounds: seq<Option<Bound>>, t: Extended, t': Extended)
    requires Below(t, t')
    ensures Tally(bounds, t, false) <= Tally(bounds, t', true)
  {
    if bounds != [] {
      TallyGrows(bounds[..|bounds| - 1], t, t');
    }
  }

  /** There is only one threshold. */
  lemma {:induction false} ThresholdUnique(bounds: seq<Option<Bound>>, needed: nat, t: Extended, t': Extended)
    requires IsThreshold(bounds, needed, t) && IsThreshold(bounds, needed, t')
    ensures t == t'
  {
    if Below(t, t') {
      TallyGrows(bounds, t, t');
    } else if Below(t', t) {
      TallyGrows(bounds, t', t);
    }
  }

  /** The indexes of the segments whose lower bound is above `t`. */
  ghost predicate Excludes(bounds: seq<Option<Bound>>, t: Extended, out: seq<nat>) {
    && (forall i, j | 0 <= i < j < |out| :: out[i] < out[j])
    && forall i: nat :: i in out <==> i < |bounds| && bounds[i].Some? && Below(t, Finite(bounds[i].value.lower))
  }

  // ---- Finding it by sorting ----

  datatype Upper = Upper(upper: Extended, count: nat)

  ghost predicate SortedUppers(list: seq<Upper>) {
    forall i, j | 0 <= i < j < |list| :: NotAbove(list[i].upper, list[j].upper)
  }

  ghost function UpperTally(list: seq<Upper>, t: Extended, strict: bool): nat {
    if list == [] then 0 else UpperTally(list[..|list| - 1], t, strict) + UpperShare(list[|list| - 1], t, strict)
  }

  ghost function UpperShare(u: Upper, t: Extended, strict: bool): nat {
    if Below(u.upper, t) || (!strict && u.upper == t) then u.count else 0
  }

  ghost function UpperTotal(list: seq<Upper>): nat {
    if list == [] then 0 else UpperTotal(list[..|list| - 1]) + list[|list| - 1].count
  }

  lemma {:induction false} UpperTallyConcat(a: seq<Upper>, b: seq<Upper>, t: Extended, strict: bool)
    ensures UpperTally(a + b, t, strict) == UpperTally(a, t, strict) + UpperTally(b, t, strict)
  {
    hide UpperShare;
    if b == [] {
      assert a + b == a;
    } else {
      UpperTallyConcat(a, b[..|b| - 1], t, strict);
      assert (a + b)[..|a + b| - 1] == a + b[..|b| - 1];
    }
  }

  ghost predicate SameTally(a: seq<Upper>, b: seq<Upper>) {
    && UpperTotal(a) == UpperTotal(b)
    && forall t: Extended, strict: bool :: UpperTally(a, t, strict) == UpperTally(b, t, strict)
  }

  lemma {:induction false} UpperTotalConcat(a: seq<Upper>, b: seq<Upper>)
    ensures UpperTotal(a + b) == UpperTotal(a) + UpperTotal(b)
  {
    if b == [] {
      assert a + b == a;
    } else {
      UpperTotalConcat(a, b[..|b| - 1]);
      assert (a + b)[..|a + b| - 1] == a + b[..|b| - 1];
    }
  }

  method InsertUpper(list: seq<Upper>, u: Upper) returns (out: seq<Upper>)
    requires SortedUppers(list)
    ensures SortedUppers(out) && SameTally(out, list + [u])
  {
    var at := 0;
    while at < |list| && NotAbove(list[at].upper, u.upper)
      invariant at <= |list| && forall i | 0 <= i < at :: NotAbove(list[i].upper, u.upper)
    {
      at := at + 1;
    }
    out := list[..at] + [u] + list[at..];
    InsertTally(list, u, at, Infinite, false);
    forall t: Extended, strict: bool ensures UpperTally(out, t, strict) == UpperTally(list + [u], t, strict) {
      InsertTally(list, u, at, t, strict);
    }
  }

  lemma {:induction false} InsertTally(list: seq<Upper>, u: Upper, at: nat, t: Extended, strict: bool)
    requires at <= |list|
    ensures UpperTally(list[..at] + [u] + list[at..], t, strict) == UpperTally(list + [u], t, strict)
    ensures UpperTotal(list[..at] + [u] + list[at..]) == UpperTotal(list + [u])
  {
    hide UpperTally, UpperTotal;
    UpperTotalConcat(list[..at] + [u], list[at..]);
    UpperTotalConcat(list[..at], [u]);
    UpperTotalConcat(list, [u]);
    UpperTotalConcat(list[..at], list[at..]);
    UpperTallyConcat(list[..at] + [u], list[at..], t, strict);
    UpperTallyConcat(list[..at], [u], t, strict);
    UpperTallyConcat(list, [u], t, strict);
    UpperTallyConcat(list[..at], list[at..], t, strict);
    assert list[..at] + list[at..] == list;
  }

  method SortUppers(list: seq<Upper>) returns (out: seq<Upper>)
    ensures SortedUppers(out) && SameTally(out, list)
  {
    hide UpperTally, UpperTotal;
    out := [];
    assert list[..0] == [];
    for i := 0 to |list|
      invariant SortedUppers(out) && SameTally(out, list[..i])
    {
      ghost var before := out;
      out := InsertUpper(out, list[i]);
      UpperTotalConcat(before, [list[i]]);
      UpperTotalConcat(list[..i], [list[i]]);
      assert list[..i] + [list[i]] == list[..i + 1];
      forall t: Extended, strict: bool ensures UpperTally(out, t, strict) == UpperTally(list[..i + 1], t, strict) {
        assert UpperTally(out, t, strict) == UpperTally(before + [list[i]], t, strict);
        UpperTallyConcat(before, [list[i]], t, strict);
        UpperTallyConcat(list[..i], [list[i]], t, strict);
        assert UpperTally(before, t, strict) == UpperTally(list[..i], t, strict);
        assert list[..i] + [list[i]] == list[..i + 1];
      }
    }
    assert list[..|list|] == list;
  }

  lemma {:induction false} FrontTally(list: seq<Upper>, n: nat, t: Extended)
    requires n <= |list| && forall i | 0 <= i < n :: NotAbove(list[i].upper, t)
    ensures UpperTally(list, t, false) >= UpperTotal(list[..n])
  {
    if list != [] {
      if n == |list| {
        FrontTally(list[..n - 1], n - 1, t);
        assert list[..n] == list && list[..n - 1][..n - 1] == list[..n - 1];
      } else {
        FrontTally(list[..|list| - 1], n, t);
        assert list[..|list| - 1][..n] == list[..n];
      }
    }
  }

  lemma {:induction false} BackTally(list: seq<Upper>, n: nat, t: Extended)
    requires n <= |list| && forall i | n <= i < |list| :: NotAbove(t, list[i].upper)
    ensures UpperTally(list, t, true) <= UpperTotal(list[..n])
  {
    if list != [] {
      if n == |list| {
        BackTally(list[..n - 1], n - 1, t);
        assert list[..n] == list && list[..n - 1][..n - 1] == list[..n - 1];
      } else {
        BackTally(list[..|list| - 1], n, t);
        assert list[..|list| - 1][..n] == list[..n];
      }
    }
  }

  /** The first upper bound, in ascending order, by which enough rows are covered. */
  method FindThreshold(list: seq<Upper>, needed: nat) returns (t: Option<Extended>)
    requires needed > 0 && SortedUppers(list)
    ensures t.None? <==> UpperTotal(list) < needed
    ensures t.Some? ==> UpperTally(list, t.value, true) < needed <= UpperTally(list, t.value, false)
  {
    hide UpperTally;
    var covered := 0;
    for i := 0 to |list|
      invariant covered == UpperTotal(list[..i]) < needed
    {
      covered := covered + list[i].count;
      assert list[..i + 1][..i] == list[..i];
      if covered >= needed {
        FrontTally(list, i + 1, list[i].upper);
        BackTally(list, i, list[i].upper);
        TotalGrows(list, i + 1);
        return Some(list[i].upper);
      }
    }
    assert list[..|list|] == list;
    t := None;
  }

  lemma {:induction false} TotalGrows(list: seq<Upper>, n: nat)
    requires n <= |list|
    ensures UpperTotal(list[..n]) <= UpperTotal(list)
    decreases |list|
  {
    if n < |list| {
      TotalGrows(list[..|list| - 1], n);
      assert list[..|list| - 1][..n] == list[..n];
    } else {
      assert list[..n] == list;
    }
  }
}
