/** Packed row-group bounds: extracted from a finished segment's footer, and used to select row groups for a range. */
module SegmentIndex {
  import opened Bytes
  import opened KeyBounds

  /** The values of one column in one row group, as sort keys; `None` is NULL. */
  type Values = seq<Option<ByteString>>

  datatype Bounds = Bounds(low: ByteString, high: ByteString)

  /** Footer statistics of one column in one row group. */
  datatype Stats = Stats(bounds: Option<Bounds>, nullCount: Option<int>)

  datatype FooterGroup = FooterGroup(rows: int, stats: Option<Stats>)

  datatype ColumnIndex = ColumnIndex(minValue: Option<ByteString>, maxValue: Option<ByteString>,
                                     mins: seq<Option<ByteString>>, maxs: seq<Option<ByteString>>,
                                     nulls: seq<Option<int>>)

  function Nulls(values: Values): nat {
    if values == [] then 0 else Nulls(values[..|values| - 1]) + if values[|values| - 1].None? then 1 else 0
  }

  /** Statistics that hold of the values they describe, but for the bounds of a numeric column, which are in the order
      of its text. Bounds are only written for a group with a value. */
  ghost predicate Truthful(numeric: bool, g: FooterGroup, values: Values) {
    && g.rows == |values| > 0
    && (g.stats.Some? && g.stats.value.nullCount.Some? ==> g.stats.value.nullCount.value == Nulls(values))
    && (var bounds := GroupBounds(numeric, g);
        bounds.Some? ==> Nulls(values) < |values| && Within(values, bounds.value))
  }

  ghost predicate Within(values: Values, b: Bounds) {
    forall v | v in values && v.Some? :: AtMost(b.low, v.value) && AtMost(v.value, b.high)
  }

  lemma {:induction false} NullsCount(values: Values)
    ensures Nulls(values) <= |values|
    ensures Nulls(values) == |values| <==> forall v | v in values :: v.None?
  {
    if values != [] {
      var init, last := values[..|values| - 1], values[|values| - 1];
      NullsCount(init);
      assert values == init + [last];
      assert last in values && forall v | v in init :: v in values;
      assert forall v | v in values :: v in init || v == last;
    }
  }

  /** Truthful bounds are in order. */
  lemma {:induction false} TruthfulOrder(numeric: bool, g: FooterGroup, values: Values)
    requires Truthful(numeric, g, values) && GroupBounds(numeric, g).Some?
    ensures AtMost(GroupBounds(numeric, g).value.low, GroupBounds(numeric, g).value.high)
  {
    NullsCount(values);
    var v :| v in values && v.Some?;
    AtMostTransitive(GroupBounds(numeric, g).value.low, v.value, GroupBounds(numeric, g).value.high);
  }

  // ---- Extraction ----

  function GroupBounds(numeric: bool, g: FooterGroup): Option<Bounds> {
    if numeric || g.stats.None? then None else g.stats.value.bounds
  }

  function GroupNulls(g: FooterGroup): Option<int> {
    if g.stats.None? then None else g.stats.value.nullCount
  }

  predicate AllNull(g: FooterGroup) {
    GroupNulls(g) == Some(g.rows)
  }

  /** A group extraction accepts; a required column must have bounds wherever it has a value. */
  predicate Acceptable(numeric: bool, required: bool, g: FooterGroup) {
    && (GroupNulls(g).Some? ==> 0 <= GroupNulls(g).value <= g.rows)
    && !(AllNull(g) && GroupBounds(numeric, g).Some?)
    && (required ==> AllNull(g) || GroupBounds(numeric, g).Some?)
  }

  predicate Bounded(numeric: bool, g: FooterGroup) {
    AllNull(g) || GroupBounds(numeric, g).Some?
  }

  function MinOf(values: seq<Option<ByteString>>): Option<ByteString> {
    if values == [] then None
    else
      var rest, last := MinOf(values[..|values| - 1]), values[|values| - 1];
      if rest.None? || (last.Some? && Less(last.value, rest.value)) then last else rest
  }

  function MaxOf(values: seq<Option<ByteString>>): Option<ByteString> {
    if values == [] then None
    else
      var rest, last := MaxOf(values[..|values| - 1]), values[|values| - 1];
      if rest.None? || (last.Some? && AtMost(rest.value, last.value)) then last else rest
  }

  lemma {:induction false} MinOfIsLeast(values: seq<Option<ByteString>>)
    ensures MinOf(values).None? <==> forall v | v in values :: v.None?
    ensures MinOf(values).Some? ==> MinOf(values) in values
    ensures MinOf(values).Some? ==> forall v | v in values && v.Some? :: AtMost(MinOf(values).value, v.value)
  {
    if values != [] {
      var init, last := values[..|values| - 1], values[|values| - 1];
      MinOfIsLeast(init);
      assert last in values && forall v | v in values :: v in init || v == last;
      assert forall v | v in init :: v in values;
      if MinOf(init).Some? && last.Some? {
        AtMostTotal(MinOf(init).value, last.value);
        forall v | v in init && v.Some? ensures AtMost(MinOf(values).value, v.value) {
          if Less(last.value, MinOf(init).value) {
            AtMostTransitive(last.value, MinOf(init).value, v.value);
          }
        }
      }
    }
  }

  lemma {:induction false} MaxOfIsGreatest(values: seq<Option<ByteString>>)
    ensures MaxOf(values).None? <==> forall v | v in values :: v.None?
    ensures MaxOf(values).Some? ==> MaxOf(values) in values
    ensures MaxOf(values).Some? ==> forall v | v in values && v.Some? :: AtMost(v.value, MaxOf(values).value)
  {
    if values != [] {
      var init, last := values[..|values| - 1], values[|values| - 1];
      MaxOfIsGreatest(init);
      assert last in values && forall v | v in values :: v in init || v == last;
      assert forall v | v in init :: v in values;
      if MaxOf(init).Some? && last.Some? {
        AtMostTotal(MaxOf(init).value, last.value);
        LessTotal(MaxOf(init).value, last.value);
        forall v | v in init && v.Some? ensures AtMost(v.value, MaxOf(values).value) {
          if AtMost(MaxOf(init).value, last.value) {
            AtMostTransitive(v.value, MaxOf(init).value, last.value);
          }
        }
      }
    }
  }

  /** The packed arrays say group by group what the footer says, and the segment's bounds are the extremes of the
      groups' when every group with a value has them. */
  ghost predicate Packs(numeric: bool, groups: seq<FooterGroup>, index: ColumnIndex) {
    && |index.mins| == |index.maxs| == |index.nulls| == |groups|
    && (forall i | 0 <= i < |groups| :: PacksGroup(numeric, groups[i], index.mins[i], index.maxs[i], index.nulls[i]))
    && index.minValue == (if forall g | g in groups :: Bounded(numeric, g) then MinOf(index.mins) else None)
    && index.maxValue == (if forall g | g in groups :: Bounded(numeric, g) then MaxOf(index.maxs) else None)
  }

  predicate PacksGroup(numeric: bool, g: FooterGroup, low: Option<ByteString>, high: Option<ByteString>,
                       nulls: Option<int>) {
    && nulls == GroupNulls(g)
    && (if GroupBounds(numeric, g).None? then low.None? && high.None?
        else low == Some(GroupBounds(numeric, g).value.low) && high == Some(GroupBounds(numeric, g).value.high))
  }

  method ExtractColumnIndex(groups: seq<FooterGroup>, numeric: bool, required: bool) returns (r: Result<ColumnIndex>)
    ensures r.Ok? <==> forall g | g in groups :: Acceptable(numeric, required, g)
    ensures r.Ok? ==> Packs(numeric, groups, r.value)
  {
    var mins: seq<Option<ByteString>>, maxs: seq<Option<ByteString>>, nulls: seq<Option<int>> := [], [], [];
    var complete := true;
    for i := 0 to |groups|
      invariant forall j | 0 <= j < i :: Acceptable(numeric, required, groups[j])
      invariant complete <==> forall j | 0 <= j < i :: Bounded(numeric, groups[j])
      invariant |mins| == |maxs| == |nulls| == i
      invariant forall j | 0 <= j < i :: PacksGroup(numeric, groups[j], mins[j], maxs[j], nulls[j])
    {
      var g := groups[i];
      assert g in groups;
      var nullCount := GroupNulls(g);
      if nullCount.Some? && (nullCount.value < 0 || nullCount.value > g.rows) {
        return Err("invalid null count");
      }
      var bounds := GroupBounds(numeric, g);
      var allNull := nullCount == Some(g.rows);
      if allNull && bounds.Some? {
        return Err("bounds for an all-null column");
      }
      if bounds.None? && !allNull {
        complete := false;
        if required {
          return Err("incomplete required statistics");
        }
      }
      mins := mins + [if bounds.Some? then Some(bounds.value.low) else None];
      maxs := maxs + [if bounds.Some? then Some(bounds.value.high) else None];
      nulls := nulls + [nullCount];
    }
    r := Ok(ColumnIndex(if complete then MinOf(mins) else None, if complete then MaxOf(maxs) else None, mins, maxs,
                        nulls));
  }

  /** Segment bounds are both there or both missing, and so are each group's. */
  lemma {:induction false} ExtractedBoundsPaired(numeric: bool, groups: seq<FooterGroup>, index: ColumnIndex)
    requires Packs(numeric, groups, index)
    ensures index.minValue.Some? <==> index.maxValue.Some?
    ensures forall i | 0 <= i < |groups| :: index.mins[i].Some? <==> index.maxs[i].Some?
  {
    hide MinOf, MaxOf;
    MinOfIsLeast(index.mins);
    MaxOfIsGreatest(index.maxs);
    forall i | 0 <= i < |groups| ensures index.mins[i].Some? <==> index.maxs[i].Some? {
      assert PacksGroup(numeric, groups[i], index.mins[i], index.maxs[i], index.nulls[i]);
    }
    if index.minValue.Some? {
      var i :| 0 <= i < |groups| && index.mins[i].Some?;
      assert index.maxs[i] in index.maxs;
    }
    if index.maxValue.Some? {
      var i :| 0 <= i < |groups| && index.maxs[i].Some?;
      assert index.mins[i] in index.mins;
    }
  }

  ghost predicate AllTruthful(numeric: bool, groups: seq<FooterGroup>, column: seq<Values>) {
    |groups| == |column| && forall i | 0 <= i < |groups| :: Truthful(numeric, groups[i], column[i])
  }

  /** Every value of the segment lies within the segment's bounds, when it has them. */
  lemma {:induction false} ExtractedBoundsCover(numeric: bool, groups: seq<FooterGroup>, index: ColumnIndex,
                                                column: seq<Values>, i: nat, v: ByteString)
    requires Packs(numeric, groups, index) && AllTruthful(numeric, groups, column) && i < |column|
             && Some(v) in column[i]
    ensures index.minValue.Some? ==> AtMost(index.minValue.value, v)
    ensures index.maxValue.Some? ==> AtMost(v, index.maxValue.value)
  {
    hide MinOf, MaxOf;
    var g := groups[i];
    assert Truthful(numeric, g, column[i]) && PacksGroup(numeric, g, index.mins[i], index.maxs[i], index.nulls[i]);
    NullsCount(column[i]);
    MinOfIsLeast(index.mins);
    MaxOfIsGreatest(index.maxs);
    assert g in groups && index.mins[i] in index.mins && index.maxs[i] in index.maxs;
    if index.minValue.Some? {
      assert Bounded(numeric, g);
      AtMostTransitive(index.minValue.value, index.mins[i].value, v);
    }
    if index.maxValue.Some? {
      assert Bounded(numeric, g);
      AtMostTransitive(v, index.maxs[i].value, index.maxValue.value);
    }
  }

  // ---- Numeric columns: bounds computed while writing ----

  /** The sort keys among the cells of a column, in order. */
  function KeysIn(cells: seq<Cell>): seq<ByteString> {
    if cells == [] then []
    else
      var last := cells[|cells| - 1];
      KeysIn(cells[..|cells| - 1]) + if last.Encoded? then [last.bytes] else []
  }

  lemma {:induction false} KeysInHas(cells: seq<Cell>, j: nat)
    requires j < |cells| && cells[j].Encoded?
    ensures cells[j].bytes in KeysIn(cells)
  {
    if j < |cells| - 1 {
      KeysInHas(cells[..|cells| - 1], j);
    }
  }

  class NumericBounds {
    var min: Option<ByteString>
    var max: Option<ByteString>
    var complete: bool

    constructor ()
      ensures Covers([]) && complete
    {
      min, max, complete := None, None, true;
    }

    /** The bounds are those of the keys seen so far, unless a value could not be encoded. */
    ghost predicate Covers(keys: seq<ByteString>)
      reads this
    {
      complete ==>
        && (min.Some? <==> keys != []) && (max.Some? <==> keys != [])
        && (keys != [] ==> min.value in keys && max.value in keys)
        && forall k | k in keys :: AtMost(min.value, k) && AtMost(k, max.value)
    }

    /** One non-NULL value's key; `None` when it cannot be encoded, which disables the bounds. */
    method Add(key: Option<ByteString>, ghost keys: seq<ByteString>)
      requires Covers(keys)
      modifies this
      ensures key.Some? ==> Covers(keys + [key.value])
      ensures complete <==> old(complete) && key.Some?
    {
      if !complete {
        return;
      }
      if key.None? {
        complete := false;
        return;
      }
      var k := key.value;
      if min.None? || Less(k, min.value) {
        min := key;
      }
      if max.None? || Less(max.value, k) {
        max := key;
      }
      Widened(keys, k, old(min), old(max), min, max);
    }

    /** The column of one batch, `None` when the batch does not have it as text. */
    method AddBatch(cells: Option<seq<Cell>>, ghost keys: seq<ByteString>)
      requires Covers(keys)
      modifies this
      ensures cells.Some? ==> Covers(keys + KeysIn(cells.value))
      ensures complete <==> old(complete) && cells.Some? && Unencodable !in cells.value
    {
      hide Covers;
      if !complete {
        GivenUp();
        return;
      }
      if cells.None? {
        complete := false;
        return;
      }
      assert keys + KeysIn(cells.value[..0]) == keys;
      for i := 0 to |cells.value|
        invariant complete && Unencodable !in cells.value[..i] && Covers(keys + KeysIn(cells.value[..i]))
      {
        var cell := cells.value[i];
        assert cells.value[..i + 1] == cells.value[..i] + [cell] && cells.value[..i + 1][..i] == cells.value[..i];
        if cell.NullCell? {
          assert KeysIn(cells.value[..i + 1]) == KeysIn(cells.value[..i]);
          continue;
        }
        if cell.Unencodable? {
          complete := false;
          GivenUp();
          return;
        }
        Add(Some(cell.bytes), keys + KeysIn(cells.value[..i]));
        assert keys + KeysIn(cells.value[..i + 1]) == keys + KeysIn(cells.value[..i]) + [cell.bytes];
      }
      assert cells.value[..|cells.value|] == cells.value;
    }

    lemma {:induction false} GivenUp()
      requires !complete
      ensures forall keys: seq<ByteString> :: Covers(keys)
    {
    }

    /** Takes the bounds of the segment just closed, both or neither, and starts over. */
    method Finish(ghost keys: seq<ByteString>) returns (r: Option<Bounds>)
      requires Covers(keys)
      modifies this
      ensures Covers([]) && complete
      ensures r.Some? <==> old(complete) && keys != []
      ensures r.Some? ==> forall k | k in keys :: AtMost(r.value.low, k) && AtMost(k, r.value.high)
      ensures r.Some? ==> r.value.low in keys && r.value.high in keys
    {
      r := if complete && min.Some? && max.Some? then Some(Bounds(min.value, max.value)) else None;
      min, max, complete := None, None, true;
    }
  }

  lemma {:induction false} Widened(keys: seq<ByteString>, k: ByteString, low: Option<ByteString>,
                                   high: Option<ByteString>, low': Option<ByteString>, high': Option<ByteString>)
    requires (low.Some? <==> keys != []) && (high.Some? <==> keys != [])
    requires forall x | x in keys :: AtMost(low.value, x) && AtMost(x, high.value)
    requires low' == (if low.None? || Less(k, low.value) then Some(k) else low)
    requires high' == (if high.None? || Less(high.value, k) then Some(k) else high)
    ensures forall x | x in keys + [k] :: AtMost(low'.value, x) && AtMost(x, high'.value)
  {
    forall x | x in keys + [k] ensures AtMost(low'.value, x) && AtMost(x, high'.value) {
      if keys != [] {
        AtMostTotal(low.value, k);
        AtMostTotal(k, high.value);
      }
      if x in keys {
        AtMostTransitive(low'.value, low.value, x);
        AtMostTransitive(x, high.value, high'.value);
      }
    }
  }

  // ---- Selecting row groups ----

  predicate InRange(v: ByteString, lower: Option<ByteString>, upper: Option<ByteString>) {
    (lower.Some? ==> AtMost(lower.value, v)) && (upper.Some? ==> AtMost(v, upper.value))
  }

  /** What makes a group's packed metadata malformed. */
  predicate WellFormed(rows: int, low: Option<ByteString>, high: Option<ByteString>, nulls: Option<int>) {
    && rows > 0 && (nulls.Some? ==> 0 <= nulls.value <= rows)
    && (low.Some? <==> high.Some?)
    && (low.Some? && high.Some? ==> nulls != Some(rows) && AtMost(low.value, high.value))
  }

  /** A group may hold a value in the range as far as its metadata tells. */
  predicate MayMatch(rows: int, low: Option<ByteString>, high: Option<ByteString>, nulls: Option<int>,
                     lower: Option<ByteString>, upper: Option<ByteString>) {
    if lower.None? && upper.None? then true
    else if low.Some? && high.Some? then
      (lower.Some? ==> AtMost(lower.value, high.value)) && (upper.Some? ==> AtMost(low.value, upper.value))
    else nulls != Some(rows)
  }

  ghost predicate Selects(count: nat, rows: seq<int>, mins: seq<Option<ByteString>>, maxs: seq<Option<ByteString>>,
                          nulls: seq<Option<int>>, lower: Option<ByteString>, upper: Option<ByteString>,
                          selected: seq<nat>)
    requires |rows| == |mins| == |maxs| == |nulls| == count
  {
    && (forall i, j | 0 <= i < j < |selected| :: selected[i] < selected[j])
    && (forall i: nat :: i in selected <==> i < count && MayMatch(rows[i], mins[i], maxs[i], nulls[i], lower, upper))
  }

  lemma {:induction false} NoRange(rows: seq<int>, mins: seq<Option<ByteString>>, maxs: seq<Option<ByteString>>,
                                   nulls: seq<Option<int>>)
    requires |rows| == |mins| == |maxs| == |nulls|
    ensures forall i | 0 <= i < |rows| :: MayMatch(rows[i], mins[i], maxs[i], nulls[i], None, None)
  {
  }

  /** One group's metadata against a range bounded on at least one side. */
  method KeepsGroup(rows: int, low: Option<ByteString>, high: Option<ByteString>, nulls: Option<int>,
                    lower: Option<ByteString>, upper: Option<ByteString>) returns (r: Result<bool>)
    requires lower.Some? || upper.Some?
    ensures r.Ok? <==> WellFormed(rows, low, high, nulls)
    ensures r.Ok? ==> r.value == MayMatch(rows, low, high, nulls, lower, upper)
  {
    hide AtMost;
    if rows <= 0 || (nulls.Some? && (nulls.value < 0 || nulls.value > rows)) {
      return Err("invalid row/null count");
    }
    var allNull := nulls == Some(rows);
    if low.Some? && high.Some? {
      if allNull {
        return Err("bounds for an all-null column");
      }
      if !AtMost(low.value, high.value) {
        return Err("reversed min/max bounds");
      }
      var overlapsLower := lower.Some? ==> AtMost(lower.value, high.value);
      var overlapsUpper := upper.Some? ==> AtMost(low.value, upper.value);
      return Ok(overlapsLower && overlapsUpper);
    }
    if low.None? && high.None? {
      return Ok(!allNull);
    }
    r := Err("unpaired min/max bounds");
  }

  /** The ids of the groups that may hold a value in the range, ascending. */
  method SelectPackedRowGroups(count: nat, rows: seq<int>, mins: seq<Option<ByteString>>, maxs: seq<Option<ByteString>>,
                               nulls: seq<Option<int>>, lower: Option<ByteString>, upper: Option<ByteString>)
    returns (r: Result<seq<nat>>)
    ensures r.Ok? <==>
              && 0 < count == |rows| == |mins| == |maxs| == |nulls|
              && ((lower.None? && upper.None?) ||
                  forall i | 0 <= i < count :: WellFormed(rows[i], mins[i], maxs[i], nulls[i]))
    ensures r.Ok? ==> Selects(count, rows, mins, maxs, nulls, lower, upper, r.value)
  {
    hide AtMost, MayMatch, WellFormed;
    if count == 0 || |rows| != count || |mins| != count || |maxs| != count || |nulls| != count {
      return Err("packed row-group metadata cardinality mismatch");
    }
    if lower.None? && upper.None? {
      var everything: seq<nat> := seq(count, i requires 0 <= i => i);
      forall i: nat ensures i in everything <==> i < count {
        if i < count {
          assert everything[i] == i;
        }
      }
      NoRange(rows, mins, maxs, nulls);
      return Ok(everything);
    }
    var selected: seq<nat> := [];
    for i := 0 to count
      invariant forall k | 0 <= k < i :: WellFormed(rows[k], mins[k], maxs[k], nulls[k])
      invariant forall k | 0 <= k < |selected| :: selected[k] < i
      invariant forall k, j | 0 <= k < j < |selected| :: selected[k] < selected[j]
      invariant forall k: nat | k < i :: k in selected <==> MayMatch(rows[k], mins[k], maxs[k], nulls[k], lower, upper)
    {
      var keep := KeepsGroup(rows[i], mins[i], maxs[i], nulls[i], lower, upper);
      if keep.Err? {
        return Err(keep.error);
      }
      if keep.value {
        selected := selected + [i];
      }
    }
    r := Ok(selected);
  }

  /** A group's metadata holds of its values, whoever computed it. */
  ghost predicate DescribesGroup(values: Values, low: Option<ByteString>, high: Option<ByteString>,
                                 nulls: Option<int>) {
    && WellFormed(|values|, low, high, nulls)
    && (nulls.Some? ==> nulls.value == Nulls(values))
    && (low.Some? && high.Some? ==> Within(values, Bounds(low.value, high.value)))
  }

  /** Metadata extracted from truthful statistics holds of the group, so the selector never rejects it. */
  lemma {:induction false} ExtractedDescribesGroup(numeric: bool, groups: seq<FooterGroup>, index: ColumnIndex,
                                                   column: seq<Values>, i: nat)
    requires Packs(numeric, groups, index) && AllTruthful(numeric, groups, column) && i < |groups|
    ensures DescribesGroup(column[i], index.mins[i], index.maxs[i], index.nulls[i])
  {
    hide MinOf, MaxOf;
    assert PacksGroup(numeric, groups[i], index.mins[i], index.maxs[i], index.nulls[i]);
    assert Truthful(numeric, groups[i], column[i]);
    NullsCount(column[i]);
    if index.mins[i].Some? {
      TruthfulOrder(numeric, groups[i], column[i]);
    }
  }

  /** A group holding a value in the range is selected. */
  lemma {:induction false} GroupWithValueSelected(values: Values, low: Option<ByteString>, high: Option<ByteString>,
                                                  nulls: Option<int>, v: ByteString, lower: Option<ByteString>,
                                                  upper: Option<ByteString>)
    requires DescribesGroup(values, low, high, nulls) && Some(v) in values && InRange(v, lower, upper)
    ensures MayMatch(|values|, low, high, nulls, lower, upper)
  {
    NullsCount(values);
    if low.Some? && lower.Some? {
      AtMostTransitive(lower.value, v, high.value);
    }
    if low.Some? && upper.Some? {
      AtMostTransitive(low.value, v, upper.value);
    }
  }
}
