/** Per-segment sketches of vector columns: two balls that cover every vector of the segment. */
module VectorSketch {
  import opened Bytes
  import opened VectorMath

  const CENTRE_SAMPLE := 1024
  const MAX_DIM: nat := 16000

  /** What single precision makes of a radius: a number, or infinity for one beyond the largest. */
  datatype Extended = Finite(value: real) | Infinite

  /** Number handling: the square root, narrowing to single precision (to the nearest, and upward for a radius), the
      numbers that have a single-precision form with the largest of them, and the text parser. Narrowing may move a
      centre anywhere in range; only the upward rounding of a radius matters. */
  datatype Numbers = Numbers(root: real -> real, narrow: real -> real, up: real -> Extended, single: real -> bool,
                             largest: real, parse: string -> Option<Vector>)
  {
    ghost predicate Sound() {
      && IsRoot(root) && largest >= 1.0 && single(0.0)
      && (forall x: real :: -largest <= x <= largest ==> single(narrow(x)))
      && (forall x: real :: x >= 0.0 ==> RoundsUp(x, up(x)))
      && (forall text: string :: parse(text).Some? ==> Parses(parse(text).value))
    }

    predicate RoundsUp(x: real, r: Extended) {
      if r.Finite? then x <= r.value && single(r.value) else x > largest
    }

    ghost predicate Parses(v: Vector) {
      0 < |v| <= MAX_DIM && InRange(v)
    }

    ghost predicate InRange(v: Vector) {
      forall i | 0 <= i < |v| :: -largest <= v[i] <= largest
    }

    ghost predicate AllSingle(v: Vector) {
      forall i | 0 <= i < |v| :: single(v[i])
    }
  }

  ghost predicate SameLength(vectors: seq<Vector>, dim: nat) {
    forall v | v in vectors :: |v| == dim
  }

  /** Every vector is within `radius` of the centre, and no smaller radius would do. */
  ghost predicate Ball(root: real -> real, centre: Vector, radius: real, vectors: seq<Vector>)
    requires SameLength(vectors, |centre|)
  {
    && radius >= 0.0
    && (forall v | v in vectors :: Distance(root, centre, v) <= radius)
    && (radius == 0.0 || exists v | v in vectors :: Distance(root, centre, v) == radius)
  }

  function Greater(a: real, b: real): real {
    if a < b then b else a
  }

  lemma {:induction false} BallGrows(root: real -> real, centre: Vector, radius: real, vectors: seq<Vector>, v: Vector)
    requires SameLength(vectors, |centre|) && |v| == |centre| && Ball(root, centre, radius, vectors)
    ensures Ball(root, centre, Greater(radius, Distance(root, centre, v)), vectors + [v])
  {
    hide Distance;
    var wider := Greater(radius, Distance(root, centre, v));
    if wider == radius && radius != 0.0 {
      var w :| w in vectors && Distance(root, centre, w) == radius;
      assert w in vectors + [v];
    } else {
      assert v in vectors + [v];
    }
  }

  ghost function SumAt(vectors: seq<Vector>, j: nat): real
    requires forall v | v in vectors :: j < |v|
  {
    if vectors == [] then 0.0 else SumAt(vectors[..|vectors| - 1], j) + vectors[|vectors| - 1][j]
  }

  /** The centre of a sample: its mean, narrowed. */
  ghost predicate IsCentre(n: Numbers, sample: seq<Vector>, dim: nat, centre: Vector)
    requires sample != [] && SameLength(sample, dim)
  {
    |centre| == dim && forall j | 0 <= j < dim :: centre[j] == n.narrow(SumAt(sample, j) / |sample| as real)
  }

  /** The vectors the centre is taken from: the first 1024. */
  ghost function Sample(vectors: seq<Vector>): seq<Vector> {
    if |vectors| <= 1024 then vectors else vectors[..1024]
  }

  ghost predicate Central(n: Numbers, vectors: seq<Vector>, dim: nat, centre: Vector) {
    vectors != [] && SameLength(Sample(vectors), dim) && IsCentre(n, Sample(vectors), dim, centre)
  }

  class BallBuilder {
    const n: Numbers
    var sample: seq<Vector>
    var centre: Option<Vector>
    var radius: real
    var count: nat

    constructor (n: Numbers)
      ensures this.n == n && forall dim: nat :: Covers(dim, [])
    {
      this.n := n;
      sample, centre, radius, count := [], None, 0.0, 0;
    }

    /** The builder has taken exactly these vectors; until the sample is full it only keeps them, then it has a ball. */
    ghost predicate Covers(dim: nat, vectors: seq<Vector>)
      reads this
    {
      && Gathered(dim, vectors) && (centre.None? ==> |sample| < CENTRE_SAMPLE)
      && (centre.Some? ==> |vectors| >= CENTRE_SAMPLE && Central(n, vectors, dim, centre.value))
    }

    ghost predicate Gathered(dim: nat, vectors: seq<Vector>)
      reads this
    {
      && count == |vectors| && SameLength(vectors, dim)
      && (centre.None? ==> sample == vectors && radius == 0.0)
      && (centre.Some? ==> sample == [] && vectors != [] && |centre.value| == dim)
      && (centre.Some? ==> Ball(n.root, centre.value, radius, vectors))
      && (centre.Some? && n.Sound() && AllInRange(n, vectors) ==> n.AllSingle(centre.value))
    }

    method Add(vector: Vector, ghost dim: nat, ghost vectors: seq<Vector>)
      requires Covers(dim, vectors) && |vector| == dim
      modifies this
      ensures Covers(dim, vectors + [vector])
    {
      hide Distance, Ball, IsCentre;
      count := count + 1;
      if centre.Some? {
        assert Sample(vectors + [vector]) == Sample(vectors);
        BallGrows(n.root, centre.value, radius, vectors, vector);
        radius := Greater(radius, Distance(n.root, centre.value, vector));
      } else {
        sample := sample + [vector];
        if |sample| >= CENTRE_SAMPLE {
          Settle(dim, vectors + [vector]);
        }
      }
    }

    /** Fixes the centre as the mean of the sample and measures the sample against it. */
    method Settle(ghost dim: nat, ghost vectors: seq<Vector>)
      requires Gathered(dim, vectors) && |sample| <= CENTRE_SAMPLE
      requires centre.Some? ==> Central(n, vectors, dim, centre.value)
      modifies this
      ensures Gathered(dim, vectors) && (centre.Some? <==> vectors != [])
      ensures centre.Some? ==> Central(n, vectors, dim, centre.value)
    {
      hide Distance, Ball, IsCentre;
      if centre.Some? || |sample| == 0 {
        return;
      }
      var c := Mean(n, sample, dim);
      CentreIsSingle(n, sample, dim, c);
      var r := Measure(n, sample, c);
      sample, radius, centre := [], r, Some(c);
    }
  }

  ghost predicate AllInRange(n: Numbers, vectors: seq<Vector>) {
    forall v | v in vectors :: n.InRange(v)
  }

  ghost function Times(x: real, k: nat): real {
    if k == 0 then 0.0 else Times(x, k - 1) + x
  }

  lemma {:induction false} TimesIsProduct(x: real, k: nat)
    ensures Times(x, k) == x * k as real
  {
    if k > 0 {
      TimesIsProduct(x, k - 1);
      OneMore(x, (k - 1) as real);
      assert k as real == (k - 1) as real + 1.0;
    }
  }

  lemma {:induction false} OneMore(x: real, k: real)
    ensures x * (k + 1.0) == x * k + x
  {
  }

  lemma {:induction false} SumInRange(n: Numbers, vectors: seq<Vector>, j: nat)
    requires AllInRange(n, vectors) && forall v | v in vectors :: j < |v|
    ensures -Times(n.largest, |vectors|) <= SumAt(vectors, j) <= Times(n.largest, |vectors|)
  {
    if vectors != [] {
      var init, last := vectors[..|vectors| - 1], vectors[|vectors| - 1];
      assert last in vectors && n.InRange(last) && forall v | v in init :: v in vectors;
      SumInRange(n, init, j);
      assert -n.largest <= last[j] <= n.largest;
    }
  }

  lemma {:induction false} QuotientInRange(x: real, bound: real, count: real)
    requires count > 0.0 && -bound * count <= x <= bound * count
    ensures -bound <= x / count <= bound
  {
    assert x / count * count == x;
  }

  lemma {:induction false} MeanInRange(n: Numbers, sample: seq<Vector>, j: nat)
    requires sample != [] && AllInRange(n, sample) && forall v | v in sample :: j < |v|
    ensures -n.largest <= SumAt(sample, j) / |sample| as real <= n.largest
  {
    hide SumAt, Times, AllInRange;
    SumInRange(n, sample, j);
    TimesIsProduct(n.largest, |sample|);
    QuotientInRange(SumAt(sample, j), n.largest, |sample| as real);
  }

  /** The mean of vectors in range is in range, so the centre is a vector of single-precision numbers. */
  lemma {:induction false} CentreIsSingle(n: Numbers, sample: seq<Vector>, dim: nat, centre: Vector)
    requires sample != [] && SameLength(sample, dim) && IsCentre(n, sample, dim, centre)
    ensures n.Sound() && AllInRange(n, sample) ==> n.AllSingle(centre)
  {
    hide SumAt, AllInRange;
    if n.Sound() && AllInRange(n, sample) {
      forall j | 0 <= j < dim ensures n.single(centre[j]) {
        MeanInRange(n, sample, j);
      }
    }
  }

  /** The mean of the sample, narrowed, coordinate by coordinate. */
  method Mean(n: Numbers, sample: seq<Vector>, ghost dim: nat) returns (centre: Vector)
    requires sample != [] && SameLength(sample, dim)
    ensures IsCentre(n, sample, dim, centre)
  {
    assert sample[0] in sample;
    var size := |sample[0]|;
    var mean: seq<real> := seq(size, _ => 0.0);
    for i := 0 to |sample|
      invariant |mean| == size && SameLength(sample[..i], size)
      invariant forall j | 0 <= j < size :: mean[j] == SumAt(sample[..i], j)
    {
      assert sample[i] in sample;
      assert sample[..i + 1][..i] == sample[..i] && sample[..i + 1] == sample[..i] + [sample[i]];
      mean := AddInto(mean, sample[i]);
    }
    assert sample[..|sample|] == sample;
    var count := |sample| as real;
    centre := seq(size, j requires 0 <= j < size => n.narrow(mean[j] / count));
  }

  method AddInto(mean: seq<real>, v: Vector) returns (out: seq<real>)
    requires |mean| == |v|
    ensures |out| == |mean| && forall j | 0 <= j < |v| :: out[j] == mean[j] + v[j]
  {
    out := mean;
    for j := 0 to |v|
      invariant |out| == |mean|
      invariant forall k | 0 <= k < |v| :: out[k] == if k < j then mean[k] + v[k] else mean[k]
    {
      out := out[j := out[j] + v[j]];
    }
  }

  /** The radius of the sample around the centre. */
  method Measure(n: Numbers, sample: seq<Vector>, centre: Vector) returns (radius: real)
    requires SameLength(sample, |centre|)
    ensures Ball(n.root, centre, radius, sample)
  {
    hide Distance;
    radius := 0.0;
    for i := 0 to |sample|
      invariant Ball(n.root, centre, radius, sample[..i])
    {
      assert sample[i] in sample;
      BallGrows(n.root, centre, radius, sample[..i], sample[i]);
      assert sample[..i + 1] == sample[..i] + [sample[i]];
      radius := Greater(radius, Distance(n.root, centre, sample[i]));
    }
    assert sample[..|sample|] == sample;
  }

  // ---- The sketch of a segment ----

  /** The rows' vectors; `None` is NULL. */
  type Rows = seq<Option<Vector>>

  function Vectors(rows: Rows): seq<Vector> {
    if rows == [] then [] else Vectors(rows[..|rows| - 1]) + Present(rows[|rows| - 1])
  }

  function Present(row: Option<Vector>): seq<Vector> {
    if row.Some? then [row.value] else []
  }

  /** The unit vectors of the rows that have a direction. */
  function Units(root: real -> real, rows: Rows): seq<Vector> {
    if rows == [] then [] else Units(root, rows[..|rows| - 1]) + Direction(root, rows[|rows| - 1])
  }

  function Direction(root: real -> real, row: Option<Vector>): seq<Vector> {
    if row.Some? && Norm(root, row.value) > 0.0 then [Unit(root, row.value)] else []
  }

  datatype Sketch = Sketch(dim: nat, countPlain: nat, countUnit: nat, radiusPlain: Extended, radiusUnit: Extended,
                           centrePlain: Vector, centreUnit: Vector)

  ghost predicate Encloses(root: real -> real, centre: Vector, radius: Extended, vectors: seq<Vector>) {
    forall v | v in vectors :: |v| == |centre| && (radius.Finite? ==> Distance(root, centre, v) <= radius.value)
  }

  /** What a sketch says of its segment: how many vectors and directions there are, and balls around them. */
  ghost predicate Describes(root: real -> real, s: Sketch, rows: Rows) {
    && |s.centrePlain| == |s.centreUnit| == s.dim
    && s.countPlain == |Vectors(rows)| > 0 && s.countUnit == |Units(root, rows)|
    && Encloses(root, s.centrePlain, s.radiusPlain, Vectors(rows))
    && Encloses(root, s.centreUnit, s.radiusUnit, Units(root, rows))
  }

  /** Every number of the sketch has a single-precision form. */
  ghost predicate IsSingle(n: Numbers, s: Sketch) {
    && (s.radiusPlain.Finite? ==> n.single(s.radiusPlain.value))
    && (s.radiusUnit.Finite? ==> n.single(s.radiusUnit.value))
    && n.AllSingle(s.centrePlain) && n.AllSingle(s.centreUnit)
  }

  /** The values as vectors. */
  function RowsOf(n: Numbers, values: seq<Option<string>>): Rows {
    seq(|values|, i requires 0 <= i < |values| => if values[i].Some? then n.parse(values[i].value) else None)
  }

  ghost predicate AllParse(n: Numbers, values: seq<Option<string>>) {
    forall v | v in values && v.Some? :: n.parse(v.value).Some?
  }

  ghost predicate OneLength(vectors: seq<Vector>) {
    forall v, w | v in vectors && w in vectors :: |v| == |w|
  }

  /** A sketch can be built: every value is NULL or a vector, and the vectors have one dimension. */
  ghost predicate Usable(n: Numbers, values: seq<Option<string>>) {
    AllParse(n, values) && OneLength(Vectors(RowsOf(n, values)))
  }

  /** A radius is infinite only for a vector that is further away than any single-precision number. */
  ghost predicate Overflows(n: Numbers, centre: Vector, radius: Extended, vectors: seq<Vector>)
    requires SameLength(vectors, |centre|)
  {
    radius.Infinite? ==> exists v | v in vectors :: Distance(n.root, centre, v) > n.largest
  }

  predicate IsZero(v: Vector) {
    forall i | 0 <= i < |v| :: v[i] == 0.0
  }

  /** The ball is the one described: around the mean of the sample, and as small as single precision allows. */
  ghost predicate Built(n: Numbers, centre: Vector, radius: Extended, vectors: seq<Vector>) {
    && (if vectors == [] then IsZero(centre) else Central(n, vectors, |centre|, centre))
    && SameLength(vectors, |centre|)
    && exists x: real :: Ball(n.root, centre, x, vectors) && radius == n.up(x)
  }

  ghost predicate BuiltSketch(n: Numbers, s: Sketch, rows: Rows) {
    Built(n, s.centrePlain, s.radiusPlain, Vectors(rows)) && Built(n, s.centreUnit, s.radiusUnit, Units(n.root, rows))
  }

  class VectorSketchBuilder {
    const n: Numbers
    const plain: BallBuilder
    const unit: BallBuilder
    var dim: Option<nat>
    var complete: bool

    constructor (n: Numbers)
      ensures this.n == n && Valid() && Covers([]) && complete && fresh(plain) && fresh(unit)
    {
      this.n := n;
      plain := new BallBuilder(n);
      unit := new BallBuilder(n);
      dim, complete := None, true;
    }

    ghost predicate Valid()
      reads this
    {
      plain != unit && plain.n == n && unit.n == n
    }

    ghost function Dim(): nat
      reads this
    {
      if dim.Some? then dim.value else 0
    }

    /** The builder has seen exactly these values, all readable and of one dimension, or has given up. */
    ghost predicate Covers(values: seq<Option<string>>)
      reads this, plain, unit
    {
      complete ==>
        && AllParse(n, values)
        && (dim.None? <==> Vectors(RowsOf(n, values)) == [])
        && (dim.None? ==> Units(n.root, RowsOf(n, values)) == [])
        && plain.Covers(Dim(), Vectors(RowsOf(n, values))) && unit.Covers(Dim(), Units(n.root, RowsOf(n, values)))
    }

    /** It has given up only if it had to. */
    ghost predicate Exact(values: seq<Option<string>>)
      reads this
    {
      complete || !Usable(n, values)
    }

    method AddBatch(batch: Option<seq<Option<string>>>, ghost values: seq<Option<string>>)
      requires Valid() && Covers(values)
      modifies this`dim, this`complete, plain, unit
      ensures Valid() && (batch.Some? ==> Covers(values + batch.value))
      ensures complete ==> old(complete) && batch.Some?
      ensures old(Exact(values)) && batch.Some? ==> Exact(values + batch.value)
    {
      hide BallBuilder.Covers, Usable, Vectors, Units, AllParse;
      if batch.Some? {
        UsableFront(n, values, batch.value);
      }
      if !complete {
        return;
      }
      if batch.None? {
        complete := false;
        return;
      }
      assert values + batch.value[..0] == values;
      for i := 0 to |batch.value|
        invariant Valid() && complete && Covers(values + batch.value[..i])
      {
        assert values + batch.value[..i + 1] == (values + batch.value[..i]) + [batch.value[i]];
        AddValue(batch.value[i], values + batch.value[..i]);
        if !complete {
          UsableFront(n, values + batch.value[..i + 1], batch.value[i + 1..]);
          assert values + batch.value[..i + 1] + batch.value[i + 1..] == values + batch.value;
          return;
        }
      }
      assert batch.value[..|batch.value|] == batch.value;
    }

    method AddValue(value: Option<string>, ghost values: seq<Option<string>>)
      requires Valid() && complete && Covers(values)
      modifies this`dim, this`complete, plain, unit
      ensures Valid() && Covers(values + [value]) && Exact(values + [value])
    {
      hide BallBuilder.Covers, Unit, Norm, Usable, Vectors, Units, AllParse, SameLength;
      SameDim(plain, Dim(), Vectors(RowsOf(n, values)));
      RowsMore(n, values, value);
      ghost var rows := RowsOf(n, values);
      assert Vectors(rows) + [] == Vectors(rows) && Units(n.root, rows) + [] == Units(n.root, rows);
      if value.None? {
        return;
      }
      var vector := n.parse(value.value);
      if vector.None? || (dim.Some? && dim.value != |vector.value|) {
        Misfit(n, values, value, Dim());
        complete := false;
        return;
      }
      if dim.None? {
        NoVectors(plain, Dim(), |vector.value|);
        NoVectors(unit, Dim(), |vector.value|);
        dim := Some(|vector.value|);
      }
      if Norm(n.root, vector.value) > 0.0 {
        UnitLength(n.root, vector.value);
        unit.Add(Unit(n.root, vector.value), Dim(), Units(n.root, rows));
      }
      plain.Add(vector.value, Dim(), Vectors(rows));
    }

    /** The sketch, or none when a value could not be read or there is no vector. */
    method Finish(ghost values: seq<Option<string>>) returns (r: Option<Sketch>)
      requires Valid() && Covers(values) && n.Sound()
      modifies plain, unit
      ensures r.Some? <==> complete && Vectors(RowsOf(n, values)) != []
      ensures r.Some? ==> Describes(n.root, r.value, RowsOf(n, values)) && IsSingle(n, r.value)
      ensures r.Some? ==> BuiltSketch(n, r.value, RowsOf(n, values))
      ensures r.Some? ==> Overflows(n, r.value.centrePlain, r.value.radiusPlain, Vectors(RowsOf(n, values)))
      ensures r.Some? ==> Overflows(n, r.value.centreUnit, r.value.radiusUnit, Units(n.root, RowsOf(n, values)))
    {
      hide Distance, Norm, Unit, Central, Ball, IsCentre, Built, Encloses, Overflows, Vectors, Units;
      if !complete || dim.None? {
        return None;
      }
      ghost var rows := RowsOf(n, values);
      VectorsInRange(n, values);
      plain.Settle(dim.value, Vectors(rows));
      unit.Settle(dim.value, Units(n.root, rows));
      if plain.centre.None? {
        return None;
      }
      var unitCentre := if unit.centre.Some? then unit.centre.value else seq(dim.value, _ => 0.0);
      RoundedUp(n, plain.centre.value, plain.radius, Vectors(rows));
      if unit.centre.None? {
        EmptyBall(n.root, unitCentre);
      }
      RoundedUp(n, unitCentre, unit.radius, Units(n.root, rows));
      r := Some(Sketch(dim.value, plain.count, unit.count, n.up(plain.radius), n.up(unit.radius), plain.centre.value,
                       unitCentre));
    }
  }

  lemma {:induction false} EmptyBall(root: real -> real, centre: Vector)
    ensures Ball(root, centre, 0.0, [])
  {
  }

  lemma {:induction false} NoVectors(ball: BallBuilder, dim: nat, dim': nat)
    requires ball.Covers(dim, [])
    ensures ball.Covers(dim', [])
  {
  }

  lemma {:induction false} RowsMore(n: Numbers, values: seq<Option<string>>, value: Option<string>)
    ensures var row := if value.Some? then n.parse(value.value) else None;
            && Vectors(RowsOf(n, values + [value])) == Vectors(RowsOf(n, values)) + Present(row)
            && Units(n.root, RowsOf(n, values + [value])) == Units(n.root, RowsOf(n, values)) + Direction(n.root, row)
    ensures AllParse(n, values + [value]) <==> AllParse(n, values) && (value.Some? ==> n.parse(value.value).Some?)
  {
    hide Norm, Unit;
    var all := RowsOf(n, values + [value]);
    assert all[..|values|] == RowsOf(n, values);
    assert forall v | v in values :: v in values + [value];
    assert value in values + [value];
  }

  lemma {:induction false} UnitLength(root: real -> real, v: Vector)
    requires Norm(root, v) > 0.0
    ensures |Unit(root, v)| == |v|
  {
  }

  lemma {:induction false} SameDim(ball: BallBuilder, dim: nat, vectors: seq<Vector>)
    requires ball.Covers(dim, vectors)
    ensures SameLength(vectors, dim)
  {
  }

  /** A value that cannot be read, or of another dimension than those before, rules a sketch out. */
  lemma {:induction false} Misfit(n: Numbers, values: seq<Option<string>>, value: Option<string>, dim: nat)
    requires SameLength(Vectors(RowsOf(n, values)), dim) && value.Some?
    requires n.parse(value.value).None? ||
             (Vectors(RowsOf(n, values)) != [] && |n.parse(value.value).value| != dim)
    ensures !Usable(n, values + [value])
  {
    hide Vectors, Units, AllParse;
    RowsMore(n, values, value);
    var before, after := Vectors(RowsOf(n, values)), Vectors(RowsOf(n, values + [value]));
    if n.parse(value.value).Some? {
      assert before[0] in before && before[0] in after && n.parse(value.value).value in after;
    }
  }

  /** More values do not make a column usable. */
  lemma {:induction false} UsableFront(n: Numbers, front: seq<Option<string>>, more: seq<Option<string>>)
    ensures Usable(n, front + more) ==> Usable(n, front)
  {
    hide AllParse, Vectors, Units;
    if more == [] {
      assert front + more == front;
    } else {
      var init, last := more[..|more| - 1], more[|more| - 1];
      assert front + more == (front + init) + [last];
      RowsMore(n, front + init, last);
      UsableFront(n, front, init);
    }
  }

  /** A coordinate is no larger than the vector's length. */
  lemma {:induction false} CoordinateAtMostNorm(root: real -> real, v: Vector, i: nat)
    requires IsRoot(root) && i < |v|
    ensures -Norm(root, v) <= v[i] <= Norm(root, v)
  {
    NormSquared(root, v);
    SquareAtMostDot(v, i);
    SquareOrder(v[i], Norm(root, v));
    SquareOrder(-v[i], Norm(root, v));
  }

  lemma {:induction false} SquareAtMostDot(v: Vector, i: nat)
    requires i < |v|
    ensures v[i] * v[i] <= Dot(v, v)
  {
    var init, last := v[..|v| - 1], v[|v| - 1];
    SquareNonNegative(init);
    if i < |v| - 1 {
      SquareAtMostDot(init, i);
    }
  }

  lemma {:induction false} UnitInRange(n: Numbers, v: Vector)
    requires n.Sound() && Norm(n.root, v) > 0.0
    ensures n.InRange(Unit(n.root, v))
  {
    hide Norm;
    forall i | 0 <= i < |v| ensures -1.0 <= Unit(n.root, v)[i] <= 1.0 {
      CoordinateAtMostNorm(n.root, v, i);
      QuotientInRange(v[i], 1.0, Norm(n.root, v));
    }
  }

  /** Parsed vectors and their directions stay within single precision. */
  lemma {:induction false} VectorsInRange(n: Numbers, values: seq<Option<string>>)
    requires n.Sound()
    ensures AllInRange(n, Vectors(RowsOf(n, values))) && AllInRange(n, Units(n.root, RowsOf(n, values)))
  {
    hide Unit, Norm, Numbers.InRange;
    if values != [] {
      var init, last := values[..|values| - 1], values[|values| - 1];
      assert values == init + [last];
      RowsMore(n, init, last);
      VectorsInRange(n, init);
      if last.Some? && n.parse(last.value).Some? {
        assert n.Parses(n.parse(last.value).value);
        if Norm(n.root, n.parse(last.value).value) > 0.0 {
          UnitInRange(n, n.parse(last.value).value);
        }
      }
    }
  }

  lemma {:induction false} RoundedUp(n: Numbers, centre: Vector, radius: real, vectors: seq<Vector>)
    requires n.Sound() && SameLength(vectors, |centre|) && Ball(n.root, centre, radius, vectors)
    requires if vectors == [] then IsZero(centre) else Central(n, vectors, |centre|, centre)
    ensures Built(n, centre, n.up(radius), vectors)
    ensures Encloses(n.root, centre, n.up(radius), vectors) && Overflows(n, centre, n.up(radius), vectors)
    ensures n.up(radius).Finite? ==> n.single(n.up(radius).value)
  {
    hide Distance;
    assert n.RoundsUp(radius, n.up(radius));
  }
}
