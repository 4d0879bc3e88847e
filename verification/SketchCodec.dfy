/** The persisted bytes of a vector sketch. */
module SketchCodec {
  import opened Bytes
  import opened Terms
  import opened VectorMath
  import opened VectorSketch

  const HEADER: nat := 32
  const MAGIC: ByteString := [0x56, 0x53, 0x4B, 0x31]

  /** Single-precision floats as four bytes, with those of infinity. */
  datatype Floats = Floats(bytes: real -> ByteString, value: ByteString -> real, infinity: ByteString)
  {
    function RadiusBytes(r: Extended): ByteString {
      if r.Finite? then bytes(r.value) else infinity
    }

    function Radius(b: ByteString): Extended {
      if b == infinity then Infinite else Finite(value(b))
    }

    ghost predicate Stores(x: real) {
      |bytes(x)| == 4 && value(bytes(x)) == x && bytes(x) != infinity
    }

    ghost predicate StoresRadius(r: Extended) {
      |infinity| == 4 && (r.Finite? ==> Stores(r.value))
    }
  }

  function LittleEndian(n: nat, width: nat): (b: ByteString)
    ensures |b| == width
  {
    if width == 0 then [] else [n % 256] + LittleEndian(n / 256, width - 1)
  }

  function FromLittleEndian(b: ByteString): nat {
    if b == [] then 0 else b[0] + 256 * FromLittleEndian(b[1..])
  }

  function Pow256(width: nat): nat {
    if width == 0 then 1 else 256 * Pow256(width - 1)
  }

  lemma {:induction false} LittleEndianRead(n: nat, width: nat)
    requires n < Pow256(width)
    ensures FromLittleEndian(LittleEndian(n, width)) == n
  {
    if width > 0 {
      LittleEndianRead(n / 256, width - 1);
      assert LittleEndian(n, width)[1..] == LittleEndian(n / 256, width - 1);
    }
  }

  function EncodeFloats(f: Floats, v: Vector): ByteString {
    if v == [] then [] else EncodeFloats(f, v[..|v| - 1]) + f.bytes(v[|v| - 1])
  }

  function Header(f: Floats, s: Sketch): ByteString {
    MAGIC + LittleEndian(s.dim, 4) + LittleEndian(s.countPlain, 8) + LittleEndian(s.countUnit, 8)
    + f.RadiusBytes(s.radiusPlain) + f.RadiusBytes(s.radiusUnit)
  }

  function Encode(f: Floats, s: Sketch): ByteString {
    Header(f, s) + EncodeFloats(f, s.centrePlain) + EncodeFloats(f, s.centreUnit)
  }

  function DecodeFloats(f: Floats, bytes: ByteString, from: nat, count: nat): (v: Vector)
    requires from + 4 * count <= |bytes|
    ensures |v| == count
  {
    seq(count, i requires 0 <= i < count => f.value(bytes[from + 4 * i..from + 4 * i + 4]))
  }

  /** `None` for a wrong magic, a dimension out of range or a length that does not fit the dimension. */
  function Decode(f: Floats, bytes: ByteString): Option<Sketch> {
    if |bytes| < 8 || bytes[..4] != MAGIC then None
    else
      var dim := FromLittleEndian(bytes[4..8]);
      if dim == 0 || dim > MAX_DIM || |bytes| != HEADER + dim * 8 then None
      else
        Some(Sketch(dim, FromLittleEndian(bytes[8..16]), FromLittleEndian(bytes[16..24]), f.Radius(bytes[24..28]),
                    f.Radius(bytes[28..32]), DecodeFloats(f, bytes, 32, dim),
                    DecodeFloats(f, bytes, 32 + dim * 4, dim)))
  }

  /** Bytes are a sketch exactly when they start with "VSK1", give a dimension from 1 to 16000 in the next four bytes
      and have the header of 32 bytes and two vectors' worth of floats. */
  lemma {:induction false} DecodeExactly(f: Floats, bytes: ByteString)
    ensures Decode(f, bytes).Some? <==>
            && |bytes| >= 8 && bytes[..4] == Utf8("VSK1")
            && (var dim := FromLittleEndian(bytes[4..8]); 1 <= dim <= 16000 && |bytes| == 32 + 8 * dim)
    ensures Decode(f, bytes).Some? ==> Decode(f, bytes).value.dim == FromLittleEndian(bytes[4..8])
  {
    assert Utf8("VSK1") == [0x56, 0x53, 0x4B, 0x31] by {
      AsciiText();
    }
  }

  lemma {:induction false} AsciiText()
    ensures Utf8("VSK1") == [0x56, 0x53, 0x4B, 0x31]
  {
    assert "VSK1"[1..] == "SK1" && "SK1"[1..] == "K1" && "K1"[1..] == "1" && "1"[1..] == "";
  }

  /** What `Finish` produces within the limits of the format. */
  ghost predicate Storable(f: Floats, s: Sketch) {
    && 0 < s.dim <= MAX_DIM && |s.centrePlain| == |s.centreUnit| == s.dim
    && s.countPlain < Pow256(8) && s.countUnit < Pow256(8)
    && f.StoresRadius(s.radiusPlain) && f.StoresRadius(s.radiusUnit)
    && StoresAll(f, s.centrePlain) && StoresAll(f, s.centreUnit)
  }

  ghost predicate StoresAll(f: Floats, v: Vector) {
    forall i | 0 <= i < |v| :: f.Stores(v[i])
  }

  lemma {:induction false} EncodedFloats(f: Floats, v: Vector)
    requires StoresAll(f, v)
    ensures |EncodeFloats(f, v)| == 4 * |v|
    ensures forall i | 0 <= i < |v| :: EncodeFloats(f, v)[4 * i..4 * i + 4] == f.bytes(v[i])
  {
    if v != [] {
      var init, n := v[..|v| - 1], |v| - 1;
      EncodedFloats(f, init);
      assert f.Stores(v[n]);
      var all := EncodeFloats(f, v);
      forall i | 0 <= i < |v| ensures all[4 * i..4 * i + 4] == f.bytes(v[i]) {
        if i < n {
          assert all[4 * i..4 * i + 4] == EncodeFloats(f, init)[4 * i..4 * i + 4];
        }
      }
    }
  }

  lemma {:induction false} FloatsRead(f: Floats, before: ByteString, v: Vector, after: ByteString)
    requires StoresAll(f, v)
    ensures |EncodeFloats(f, v)| == 4 * |v|
    ensures DecodeFloats(f, before + EncodeFloats(f, v) + after, |before|, |v|) == v
  {
    hide EncodeFloats;
    EncodedFloats(f, v);
    var bytes, own := before + EncodeFloats(f, v) + after, EncodeFloats(f, v);
    var read := DecodeFloats(f, bytes, |before|, |v|);
    forall i | 0 <= i < |v| ensures read[i] == v[i] {
      assert f.Stores(v[i]);
      assert bytes[|before| + 4 * i..|before| + 4 * i + 4] == own[4 * i..4 * i + 4];
    }
  }

  lemma {:induction false} HeaderRead(f: Floats, s: Sketch, rest: ByteString)
    requires f.StoresRadius(s.radiusPlain) && f.StoresRadius(s.radiusUnit)
    ensures |Header(f, s)| == HEADER
    ensures var b := Header(f, s) + rest;
            && b[..4] == MAGIC && b[4..8] == LittleEndian(s.dim, 4)
            && b[8..16] == LittleEndian(s.countPlain, 8) && b[16..24] == LittleEndian(s.countUnit, 8)
            && b[24..28] == f.RadiusBytes(s.radiusPlain) && b[28..32] == f.RadiusBytes(s.radiusUnit)
  {
    hide LittleEndian;
  }

  lemma {:induction false} FourBytes()
    ensures Pow256(4) == 0x1_0000_0000
  {
    assert Pow256(4) == 256 * Pow256(3) && Pow256(3) == 256 * Pow256(2) && Pow256(2) == 256 * Pow256(1);
    assert Pow256(1) == 256 * Pow256(0);
  }

  /** Every stored sketch is read back unchanged. */
  lemma {:induction false} SketchRead(f: Floats, s: Sketch)
    requires Storable(f, s)
    ensures Decode(f, Encode(f, s)) == Some(s)
  {
    hide EncodeFloats, LittleEndian, FromLittleEndian, Header, DecodeFloats, Pow256, StoresAll;
    hide Floats.StoresRadius, Floats.Radius, Floats.RadiusBytes;
    var plain, unit := EncodeFloats(f, s.centrePlain), EncodeFloats(f, s.centreUnit);
    HeaderRead(f, s, plain + unit);
    assert Encode(f, s) == Header(f, s) + (plain + unit);
    FourBytes();
    LittleEndianRead(s.dim, 4);
    LittleEndianRead(s.countPlain, 8);
    LittleEndianRead(s.countUnit, 8);
    FloatsRead(f, Header(f, s), s.centrePlain, unit);
    FloatsRead(f, Header(f, s) + plain, s.centreUnit, []);
    assert Header(f, s) + plain + unit + [] == Encode(f, s);
    StoredRadius(f, s);
  }

  lemma {:induction false} StoredRadius(f: Floats, s: Sketch)
    requires Storable(f, s)
    ensures f.Radius(f.RadiusBytes(s.radiusPlain)) == s.radiusPlain
    ensures f.Radius(f.RadiusBytes(s.radiusUnit)) == s.radiusUnit
  {
  }

  method EncodeSketch(f: Floats, s: Sketch) returns (out: ByteString)
    ensures out == Encode(f, s)
  {
    out := MAGIC + LittleEndian(s.dim, 4) + LittleEndian(s.countPlain, 8) + LittleEndian(s.countUnit, 8);
    out := out + f.RadiusBytes(s.radiusPlain) + f.RadiusBytes(s.radiusUnit);
    out := AppendFloats(f, out, s.centrePlain);
    out := AppendFloats(f, out, s.centreUnit);
  }

  method AppendFloats(f: Floats, bytes: ByteString, v: Vector) returns (out: ByteString)
    ensures out == bytes + EncodeFloats(f, v)
  {
    out := bytes;
    for i := 0 to |v|
      invariant out == bytes + EncodeFloats(f, v[..i])
    {
      assert v[..i + 1][..i] == v[..i];
      out := out + f.bytes(v[i]);
    }
    assert v[..|v|] == v;
  }

  // ---- From the values of a segment to the sketch a query reads ----

  /** The format fits the numbers: each of the finitely many single-precision ones is stored exactly, and so is
      infinity. */
  ghost predicate Fits(n: Numbers, f: Floats) {
    n.Sound() && |f.infinity| == 4 && forall x: real :: n.single(x) ==> f.Stores(x)
  }

  lemma {:induction false} VectorsAreParsed(n: Numbers, values: seq<Option<string>>, v: Vector)
    requires v in Vectors(RowsOf(n, values))
    ensures exists text: string :: n.parse(text) == Some(v)
  {
    var rows, k := RowsOf(n, values), |values| - 1;
    assert rows[..k] == RowsOf(n, values[..k]);
    if v in Vectors(rows[..k]) {
      VectorsAreParsed(n, values[..k], v);
    } else {
      assert values[k].Some? && n.parse(values[k].value) == Some(v);
    }
  }

  lemma {:induction false} CountsFit(n: Numbers, rows: Rows)
    ensures |Vectors(rows)| <= |rows| && |Units(n.root, rows)| <= |rows|
  {
    hide Norm, Unit;
    if rows != [] {
      CountsFit(n, rows[..|rows| - 1]);
    }
  }

  /** Every sketch built from a segment's values can be stored. */
  lemma {:induction false} BuiltIsStorable(n: Numbers, f: Floats, s: Sketch, values: seq<Option<string>>)
    requires Fits(n, f) && Describes(n.root, s, RowsOf(n, values)) && IsSingle(n, s) && |values| < Pow256(8)
    ensures Storable(f, s)
  {
    hide Floats.Stores, Distance, Pow256, Units;
    var vectors := Vectors(RowsOf(n, values));
    assert vectors[0] in vectors;
    VectorsAreParsed(n, values, vectors[0]);
    CountsFit(n, RowsOf(n, values));
  }

  /** The bytes hold a sketch that describes the rows. */
  ghost predicate StoresSketchOf(root: real -> real, f: Floats, bytes: ByteString, rows: Rows) {
    Decode(f, bytes).Some? && Describes(root, Decode(f, bytes).value, rows)
  }

  /** The bytes hold the sketch whose balls are around the mean of the sample and as small as they can be. */
  ghost predicate StoresBuilt(n: Numbers, f: Floats, bytes: ByteString, rows: Rows) {
    Decode(f, bytes).Some? && BuiltSketch(n, Decode(f, bytes).value, rows)
  }

  /** Builds and stores the sketch of a segment's column. There is one exactly when every value can be read, the vectors
      have one dimension and there is a vector; what a query decodes from it describes the segment. */
  method StoreSketch(n: Numbers, f: Floats, batches: seq<seq<Option<string>>>) returns (bytes: Option<ByteString>)
    requires Fits(n, f) && |Joined(batches)| < Pow256(8)
    ensures bytes.Some? <==> Usable(n, Joined(batches)) && Vectors(RowsOf(n, Joined(batches))) != []
    ensures bytes.Some? ==> StoresSketchOf(n.root, f, bytes.value, RowsOf(n, Joined(batches)))
    ensures bytes.Some? ==> StoresBuilt(n, f, bytes.value, RowsOf(n, Joined(batches)))
  {
    hide *;
    var builder := new VectorSketchBuilder(n);
    JoinedEmpty();
    NothingGivenUp(builder);
    assert batches[..0] == [];
    for i := 0 to |batches|
      invariant builder.n == n && builder.Valid()
      invariant builder.Covers(Joined(batches[..i])) && builder.Exact(Joined(batches[..i]))
      invariant fresh(builder) && fresh(builder.plain) && fresh(builder.unit)
    {
      builder.AddBatch(Some(batches[i]), Joined(batches[..i]));
      JoinedMore(batches, i);
    }
    assert batches[..|batches|] == batches;
    FitsSound(n, f);
    CompleteIffUsable(builder, Joined(batches));
    var sketch := builder.Finish(Joined(batches));
    if sketch.None? {
      return None;
    }
    BuiltIsStorable(n, f, sketch.value, Joined(batches));
    SketchRead(f, sketch.value);
    StoredDescribes(n, f, sketch.value, RowsOf(n, Joined(batches)));
    var out := EncodeSketch(f, sketch.value);
    bytes := Some(out);
  }

  lemma {:induction false} NothingGivenUp(builder: VectorSketchBuilder)
    requires builder.complete
    ensures forall values: seq<Option<string>> :: builder.Exact(values)
  {
  }

  lemma {:induction false} CompleteIffUsable(builder: VectorSketchBuilder, values: seq<Option<string>>)
    requires builder.Covers(values) && builder.Exact(values)
    ensures builder.complete <==> Usable(builder.n, values)
  {
    hide Vectors, Units, AllParse;
  }

  lemma {:induction false} StoredDescribes(n: Numbers, f: Floats, s: Sketch, rows: Rows)
    requires Decode(f, Encode(f, s)) == Some(s) && Describes(n.root, s, rows) && BuiltSketch(n, s, rows)
    ensures StoresSketchOf(n.root, f, Encode(f, s), rows) && StoresBuilt(n, f, Encode(f, s), rows)
  {
    hide Decode, Encode, Describes, BuiltSketch;
  }

  ghost function Joined(batches: seq<seq<Option<string>>>): seq<Option<string>> {
    if batches == [] then [] else Joined(batches[..|batches| - 1]) + batches[|batches| - 1]
  }

  lemma {:induction false} JoinedEmpty()
    ensures Joined([]) == []
  {
  }

  lemma {:induction false} JoinedMore(batches: seq<seq<Option<string>>>, i: nat)
    requires i < |batches|
    ensures Joined(batches[..i + 1]) == Joined(batches[..i]) + batches[i]
  {
    assert batches[..i + 1][..i] == batches[..i];
  }

  lemma {:induction false} FitsSound(n: Numbers, f: Floats)
    requires Fits(n, f)
    ensures n.Sound()
  {
  }

  // ---- Numbers that fit ----

  const FIXED_MAX: int := 0x7FFF_FFFF

  /** Whole numbers of 31 bits and a sign, as an instance of a format with finitely many numbers. */
  predicate IsFixed(x: real) {
    x == x.Floor as real && -FIXED_MAX <= x.Floor <= FIXED_MAX
  }

  function FixedDown(x: real): real {
    x.Floor as real
  }

  function FixedUp(x: real): Extended {
    if x <= FIXED_MAX as real then Finite(-((-x).Floor as real)) else Infinite
  }

  function FixedBytes(x: real): ByteString {
    if IsFixed(x) then LittleEndian(x.Floor + FIXED_MAX + 1, 4) else LittleEndian(0, 4)
  }

  function FixedValue(b: ByteString): real {
    (FromLittleEndian(b) - FIXED_MAX - 1) as real
  }

  function FixedParse(text: string): Option<Vector> {
    if 0 < |text| <= MAX_DIM then Some(seq(|text|, i requires 0 <= i < |text| => text[i] as int as real)) else None
  }

  lemma {:induction false} FixedStores(f: Floats, x: real)
    requires f == Floats(FixedBytes, FixedValue, LittleEndian(0, 4)) && IsFixed(x)
    ensures f.Stores(x)
  {
    hide LittleEndian, FromLittleEndian;
    var n := x.Floor + FIXED_MAX + 1;
    FourBytes();
    LittleEndianRead(n, 4);
    LittleEndianRead(0, 4);
  }

  /** There are numbers and a format that fit, so what is said of them is not said of nothing. */
  lemma {:induction false} SomeNumbersFit(root: real -> real)
    requires IsRoot(root)
    ensures exists n: Numbers, f: Floats :: n.root == root && Fits(n, f)
  {
    var n := Numbers(root, FixedDown, FixedUp, IsFixed, FIXED_MAX as real, FixedParse);
    var f := Floats(FixedBytes, FixedValue, LittleEndian(0, 4));
    forall x: real | x >= 0.0 ensures n.RoundsUp(x, n.up(x)) {
      FixedRoundsUp(n, x);
    }
    forall text: string | n.parse(text).Some? ensures n.Parses(n.parse(text).value) {
    }
    assert n.Sound();
    forall x: real | n.single(x) ensures f.Stores(x) {
      FixedStores(f, x);
    }
    assert Fits(n, f);
  }

  lemma {:induction false} FixedRoundsUp(n: Numbers, x: real)
    requires n.single == IsFixed && n.largest == FIXED_MAX as real && x >= 0.0
    ensures n.RoundsUp(x, FixedUp(x))
  {
    var k := (-x).Floor;
    assert k as real <= -x < k as real + 1.0;
    if x <= FIXED_MAX as real {
      assert -k - 1 < FIXED_MAX;
      assert (-(k as real)).Floor == -k;
    }
  }
}
