/** How far a segment's bounds can be from the distances of its rows: by its own width and the rounding allowance. */
module KnnPrecision {
  import opened Bytes
  import opened VectorMath
  import opened VectorSketch
  import opened Knn

  /** The width of a ball of radius `r` whose centre is `d` away: its diameter, one part in ten thousand of the
      distances involved, and a millionth. */
  ghost function Width(d: real, r: real): real {
    2.0 * r + (d + r) / 10000.0 + 1.0 / 1000000.0
  }

  lemma {:induction false} BallPrecision(root: real -> real, query: Vector, centre: Vector, v: Vector, r: real)
    requires IsRoot(root) && |query| == |centre| == |v| && Distance(root, centre, v) <= r
    ensures var d, e := Distance(root, query, centre), Distance(root, query, v);
            && Nearest(d, Finite(r)) >= Greater(e - Width(d, r), 0.0)
            && Furthest(d, Finite(r)).Finite? && Furthest(d, Finite(r)).value <= e + Width(d, r)
  {
    hide Distance;
    BallBounds(root, query, centre, v, r);
  }

  /** The bounds leave room for rounding: a distance that is off by one part in ten thousand of the distances involved
      and a millionth is still between them. */
  lemma {:induction false} RoomForRounding(d: real, r: real, e: real)
    requires d >= 0.0 && r >= 0.0 && e >= 0.0
    requires d - r - ((d + r) / 10000.0 + 1.0 / 1000000.0) <= e <= d + r + ((d + r) / 10000.0 + 1.0 / 1000000.0)
    ensures Nearest(d, Finite(r)) <= e && NotAbove(Finite(e), Furthest(d, Finite(r)))
    ensures Nearest(d, Infinite) == 0.0 && Furthest(d, Infinite) == Infinite
  {
  }

  // ---- Both metrics by one distance ----

  /** The distance the balls are about: between the vectors, or between their directions. */
  ghost function Gap(root: real -> real, metric: Metric, query: Vector, v: Vector): real
    requires |v| == |query| && (metric.Cosine? ==> Norm(root, query) > 0.0 && Norm(root, v) > 0.0)
  {
    if metric.L2? then Distance(root, query, v) else Distance(root, Unit(root, query), Unit(root, v))
  }

  /** What a gap amounts to as a distance of the metric: itself, or half its square. */
  function Amount(metric: Metric, gap: real): real {
    if metric.L2? then gap else gap * gap / 2.0
  }

  lemma {:induction false} RowDistanceIsAmount(root: real -> real, metric: Metric, query: Vector, row: Option<Vector>)
    requires IsRoot(root) && RowDistance(root, metric, query, row).Some?
    ensures Gap(root, metric, query, row.value) >= 0.0
    ensures RowDistance(root, metric, query, row) == Some(Amount(metric, Gap(root, metric, query, row.value)))
  {
    hide Distance, Norm, Unit, CosineDistance;
    if metric.L2? {
      DistanceNonNegative(root, query, row.value);
    } else {
      var v := row.value;
      UnitLength(root, query);
      UnitLength(root, v);
      CosineIsHalfSquare(root, query, v);
      var e := Distance(root, Unit(root, query), Unit(root, v));
      assert Gap(root, metric, query, v) == e;
      assert RowDistance(root, metric, query, row) == Some(CosineDistance(root, query, v));
      assert Amount(metric, e) == e * e / 2.0;
    }
  }

  /** The sketch has a finite ball for the metric, and the query a distance to its centre. */
  ghost predicate Measured(root: real -> real, metric: Metric, s: Sketch, query: Vector) {
    && |s.centrePlain| == |s.centreUnit| == s.dim == |query|
    && (if metric.L2? then s.radiusPlain.Finite?
        else s.radiusUnit.Finite? && s.countUnit > 0 && Norm(root, query) > 0.0)
  }

  ghost function Spread(root: real -> real, metric: Metric, s: Sketch, query: Vector): real
    requires Measured(root, metric, s, query)
  {
    if metric.L2? then Width(Distance(root, query, s.centrePlain), s.radiusPlain.value)
    else Width(Distance(root, Unit(root, query), s.centreUnit), s.radiusUnit.value)
  }

  /** The bounds of a segment with a finite ball are as close to the distance of any of its rows as the ball is wide. */
  lemma {:induction false} BoundsPrecise(root: real -> real, s: Sketch, rows: Rows, query: Vector, metric: Metric,
                                         j: nat)
    requires IsRoot(root) && Describes(root, s, rows) && Measured(root, metric, s, query)
    requires j < |rows| && RowDistance(root, metric, query, rows[j]).Some?
    ensures Bounds(root, s, query, metric).Some? && Bounds(root, s, query, metric).value.upper.Finite?
    ensures var b, gap, spread := Bounds(root, s, query, metric).value, Gap(root, metric, query, rows[j].value),
                Spread(root, metric, s, query);
            && b.lower >= Amount(metric, Greater(gap - spread, 0.0))
            && b.upper.value <= Amount(metric, gap + spread)
  {
    hide Distance, Units, Vectors, Unit, Norm, CosineDistance, Nearest, Furthest, Width;
    var v := rows[j].value;
    VectorsHas(rows, j);
    RowDistanceIsAmount(root, metric, query, rows[j]);
    if metric.L2? {
      BallPrecision(root, query, s.centrePlain, v, s.radiusPlain.value);
    } else {
      UnitsHas(root, rows, j);
      UnitLength(root, query);
      UnitLength(root, v);
      UnitBoundsPrecise(root, s, Unit(root, query), Unit(root, v));
    }
  }

  lemma {:induction false} UnitBoundsPrecise(root: real -> real, s: Sketch, u: Vector, w: Vector)
    requires IsRoot(root) && |u| == |w| == |s.centreUnit| && s.radiusUnit.Finite?
    requires Distance(root, s.centreUnit, w) <= s.radiusUnit.value
    ensures var d, e := Distance(root, u, s.centreUnit), Distance(root, u, w);
            var low, high, width := Nearest(d, s.radiusUnit), Furthest(d, s.radiusUnit), Width(d, s.radiusUnit.value);
            && low * low / 2.0 >= Amount(Cosine, Greater(e - width, 0.0))
            && high.Finite? && HalfSquare(high).value <= Amount(Cosine, e + width)
  {
    hide Distance, Nearest, Furthest, Width;
    var d, e, r := Distance(root, u, s.centreUnit), Distance(root, u, w), s.radiusUnit.value;
    BallPrecision(root, u, s.centreUnit, w, r);
    BetweenBounds(root, u, s.centreUnit, w, s.radiusUnit);
    HalfSquareOrder(Greater(e - Width(d, r), 0.0), Nearest(d, s.radiusUnit));
    HalfSquareOrder(Furthest(d, s.radiusUnit).value, e + Width(d, r));
  }

  // ---- Segments near and far ----

  /** Some row of the segment is so near that the whole segment is known to be within the gap `t`. */
  ghost predicate InReach(root: real -> real, metric: Metric, query: Vector, s: Sketch, rows: Rows, t: real) {
    && Measured(root, metric, s, query)
    && exists j | 0 <= j < |rows| && RowDistance(root, metric, query, rows[j]).Some? ::
         Gap(root, metric, query, rows[j].value) + Spread(root, metric, s, query) <= t
  }

  /** Some row of the segment is so far that the whole segment is known to be beyond the gap `t`. */
  ghost predicate OutOfReach(root: real -> real, metric: Metric, query: Vector, s: Sketch, rows: Rows, t: real) {
    && Measured(root, metric, s, query)
    && exists j | 0 <= j < |rows| && RowDistance(root, metric, query, rows[j]).Some? ::
         Gap(root, metric, query, rows[j].value) - Spread(root, metric, s, query) > t
  }

  lemma {:induction false} InReachBound(root: real -> real, s: Sketch, rows: Rows, query: Vector, metric: Metric,
                                        t: real)
    requires IsRoot(root) && Describes(root, s, rows) && InReach(root, metric, query, s, rows, t)
    ensures Bounds(root, s, query, metric).Some?
    ensures NotAbove(Bounds(root, s, query, metric).value.upper, Finite(Amount(metric, t)))
  {
    hide Gap, Spread, Distance, Norm, Describes, Bounds;
    var j :| 0 <= j < |rows| && RowDistance(root, metric, query, rows[j]).Some?
             && Gap(root, metric, query, rows[j].value) + Spread(root, metric, s, query) <= t;
    BoundsPrecise(root, s, rows, query, metric, j);
    RowDistanceIsAmount(root, metric, query, rows[j]);
    SpreadPositive(root, metric, s, query, rows);
    HalfSquareOrder(Gap(root, metric, query, rows[j].value) + Spread(root, metric, s, query), t);
  }

  lemma {:induction false} OutOfReachBound(root: real -> real, s: Sketch, rows: Rows, query: Vector, metric: Metric,
                                           t: real)
    requires IsRoot(root) && Describes(root, s, rows) && OutOfReach(root, metric, query, s, rows, t) && t >= 0.0
    ensures Bounds(root, s, query, metric).Some? && Bounds(root, s, query, metric).value.lower > Amount(metric, t)
  {
    hide Gap, Spread, Distance, Norm, Describes, Bounds;
    var j :| 0 <= j < |rows| && RowDistance(root, metric, query, rows[j]).Some?
             && Gap(root, metric, query, rows[j].value) - Spread(root, metric, s, query) > t;
    BoundsPrecise(root, s, rows, query, metric, j);
    HalfSquareGrows(t, Gap(root, metric, query, rows[j].value) - Spread(root, metric, s, query));
  }

  lemma {:induction false} HalfSquareGrows(a: real, b: real)
    requires 0.0 <= a < b
    ensures a * a / 2.0 < b * b / 2.0
  {
    PositiveProduct(b - a, b + a);
    assert (b - a) * (b + a) == b * b - a * a;
  }

  lemma {:induction false} SpreadPositive(root: real -> real, metric: Metric, s: Sketch, query: Vector, rows: Rows)
    requires IsRoot(root) && Describes(root, s, rows) && Measured(root, metric, s, query)
    ensures Spread(root, metric, s, query) > 0.0
  {
    hide Distance, Norm, Unit, Vectors, Units;
    if metric.L2? {
      DistanceNonNegative(root, query, s.centrePlain);
      var v := Vectors(rows)[0];
      assert v in Vectors(rows);
      DistanceNonNegative(root, s.centrePlain, v);
    } else {
      UnitLength(root, query);
      DistanceNonNegative(root, Unit(root, query), s.centreUnit);
      var v := Units(root, rows)[0];
      assert v in Units(root, rows);
      DistanceNonNegative(root, s.centreUnit, v);
    }
  }
}
