/** Page-index pruning for equality probes: which rows of the selected row groups are still read. */
module PagePrune {
  import opened Bytes
  import opened Terms

  datatype Kind = Int64 | Int32 | Bytes | Boolean | Float | Double | Int96

  datatype Value = IntValue(n: int) | BytesValue(bytes: ByteString) | BoolValue(b: bool) | RealValue(x: real)

  /** How probe texts are parsed; floats are taken without NaN. */
  datatype Parsers = Parsers(int64: string -> Option<int>, int32: string -> Option<int>, bool_: string -> Option<bool>,
                             float: string -> Option<real>, double: string -> Option<real>)

  function Parsed(lib: Parsers, kind: Kind, text: string): Option<Value> {
    match kind
    case Int64 => if lib.int64(text).None? then None else Some(IntValue(lib.int64(text).value))
    case Int32 => if lib.int32(text).None? then None else Some(IntValue(lib.int32(text).value))
    case Bytes => Some(BytesValue(Utf8(text)))
    case Boolean => if lib.bool_(text).None? then None else Some(BoolValue(lib.bool_(text).value))
    case Float => if lib.float(text).None? then None else Some(RealValue(lib.float(text).value))
    case Double => if lib.double(text).None? then None else Some(RealValue(lib.double(text).value))
    case Int96 => None
  }

  predicate NotAbove(a: Value, b: Value) {
    match a
    case IntValue(n) => b.IntValue? && n <= b.n
    case BytesValue(bytes) => b.BytesValue? && AtMost(bytes, b.bytes)
    case BoolValue(t) => b.BoolValue? && (t ==> b.b)
    case RealValue(x) => b.RealValue? && x <= b.x
  }

  /** One page's entry in the column index. */
  datatype PageStats = PageStats(nullPage: bool, min: Option<Value>, max: Option<Value>)

  /** The page index of one row group's probe column, with the first row of each page. */
  datatype PageIndex = PageIndex(kind: Kind, pages: seq<PageStats>, starts: seq<int>)
  {
    ghost predicate Valid() {
      |pages| == |starts|
    }

    function End(k: nat, rows: nat): int
      requires k < |starts|
    {
      if k + 1 < |starts| then starts[k + 1] else rows
    }
  }

  /** A selected row group; without a usable index it is read whole. */
  datatype Group = Group(rows: nat, index: Option<PageIndex>)

  predicate MayContain(lib: Parsers, kind: Kind, p: PageStats, texts: seq<string>) {
    if p.nullPage then false
    else if kind.Int96? || p.min.None? || p.max.None? then true
    else exists i | 0 <= i < |texts| ::
        var v := Parsed(lib, kind, texts[i]);
        v.Some? && NotAbove(p.min.value, v.value) && NotAbove(v.value, p.max.value)
  }

  datatype Selector = Select(n: nat) | Skip(n: nat)

  /** Row by row, whether the selectors read it. */
  ghost function Expand(selectors: seq<Selector>): seq<bool> {
    if selectors == [] then [] else Expand(selectors[..|selectors| - 1]) + ExpandOne(selectors[|selectors| - 1])
  }

  ghost function ExpandOne(s: Selector): seq<bool> {
    seq(s.n, _ => s.Select?)
  }

  lemma {:induction false} ExpandMore(selectors: seq<Selector>, s: Selector)
    ensures Expand(selectors + [s]) == Expand(selectors) + ExpandOne(s)
  {
    assert (selectors + [s])[..|selectors|] == selectors;
  }

  lemma {:induction false} ExpandConcat(a: seq<Selector>, b: seq<Selector>)
    ensures Expand(a + b) == Expand(a) + Expand(b)
  {
    hide ExpandOne;
    if b == [] {
      assert a + b == a;
    } else {
      var init, last := b[..|b| - 1], b[|b| - 1];
      ExpandConcat(a, init);
      ExpandMore(a + init, last);
      ExpandMore(init, last);
      assert a + b == (a + init) + [last] && b == init + [last];
    }
  }

  // ---- One row group ----

  /** The page spans are usable: starts ascend within the group. */
  ghost predicate SpansOk(index: PageIndex, rows: nat) {
    forall k | 0 <= k < |index.starts| :: 0 <= index.starts[k] <= index.End(k, rows) <= rows
  }

  predicate Covers(index: PageIndex, rows: nat, k: nat, r: nat)
    requires k < |index.starts|
  {
    index.starts[k] <= r < index.End(k, rows)
  }

  /** Some page before `n` covers the row and may contain a probe value. */
  ghost predicate ChosenBefore(lib: Parsers, index: PageIndex, rows: nat, texts: seq<string>, n: nat, r: nat)
    requires index.Valid() && n <= |index.starts|
  {
    exists k | 0 <= k < n :: Covers(index, rows, k, r) && MayContain(lib, index.kind, index.pages[k], texts)
  }

  /** A row is read unless a usable index rules its page out, or places it before the first page. */
  ghost predicate Chosen(lib: Parsers, g: Group, texts: seq<string>, r: nat)
    requires g.index.Some? ==> g.index.value.Valid()
  {
    g.index.None? || ChosenBefore(lib, g.index.value, g.rows, texts, |g.index.value.starts|, r)
  }

  ghost predicate Masks(lib: Parsers, g: Group, texts: seq<string>, mask: seq<bool>)
    requires g.index.Some? ==> g.index.value.Valid()
  {
    |mask| == g.rows && forall r | 0 <= r < g.rows :: mask[r] <==> Chosen(lib, g, texts, r)
  }

  /** How far the selectors reach before page `n`: everything up to `cursor` is settled, and no earlier page covers
      more. */
  ghost predicate Reached(lib: Parsers, index: PageIndex, rows: nat, texts: seq<string>, n: nat, cursor: nat,
                          mask: seq<bool>)
    requires index.Valid() && n <= |index.starts|
  {
    && |mask| == cursor <= rows && (n == 0 ==> cursor == 0)
    && (n < |index.starts| && 0 < n ==> cursor <= index.starts[n])
    && (forall r: nat | r < cursor :: mask[r] <==> ChosenBefore(lib, index, rows, texts, n, r))
    && (forall k, r: nat | 0 <= k < n && cursor <= r :: !Covers(index, rows, k, r))
  }

  lemma {:induction false} ReachEmptyPage(lib: Parsers, index: PageIndex, rows: nat, texts: seq<string>, n: nat,
                                          cursor: nat, mask: seq<bool>)
    requires index.Valid() && n < |index.starts| && Reached(lib, index, rows, texts, n, cursor, mask)
    requires 0 <= index.starts[n] == index.End(n, rows) <= rows && cursor <= index.starts[n]
    ensures Reached(lib, index, rows, texts, n + 1, cursor, mask)
  {
    hide MayContain;
    forall r: nat | r < cursor ensures mask[r] <==> ChosenBefore(lib, index, rows, texts, n + 1, r) {
      ChosenOneMore(lib, index, rows, texts, n, r);
    }
  }

  lemma {:induction false} ChosenOneMore(lib: Parsers, index: PageIndex, rows: nat, texts: seq<string>, n: nat, r: nat)
    requires index.Valid() && n < |index.starts|
    ensures ChosenBefore(lib, index, rows, texts, n + 1, r)
       <==> ChosenBefore(lib, index, rows, texts, n, r)
            || (Covers(index, rows, n, r) && MayContain(lib, index.kind, index.pages[n], texts))
  {
    hide MayContain, Covers;
  }

  /** A page's rows are settled: skipped up to its start, then read or skipped as a whole. */
  lemma {:induction false} ReachPage(lib: Parsers, index: PageIndex, rows: nat, texts: seq<string>, n: nat, cursor: nat,
                                     mask: seq<bool>, mask': seq<bool>)
    requires index.Valid() && n < |index.starts| && Reached(lib, index, rows, texts, n, cursor, mask)
    requires 0 <= cursor <= index.starts[n] < index.End(n, rows) <= rows
    requires var may := MayContain(lib, index.kind, index.pages[n], texts);
             mask' == mask + seq(index.starts[n] - cursor, _ => false)
                    + seq(index.End(n, rows) - index.starts[n], _ => may)
    ensures Reached(lib, index, rows, texts, n + 1, index.End(n, rows), mask')
  {
    hide MayContain;
    var end := index.End(n, rows);
    forall r: nat | r < end ensures mask'[r] <==> ChosenBefore(lib, index, rows, texts, n + 1, r) {
      ChosenOneMore(lib, index, rows, texts, n, r);
      if r >= cursor {
        assert !ChosenBefore(lib, index, rows, texts, n, r);
      }
    }
  }

  method Contains(lib: Parsers, kind: Kind, p: PageStats, texts: seq<string>) returns (may: bool)
    ensures may == MayContain(lib, kind, p, texts)
  {
    hide Parsed, NotAbove;
    if p.nullPage {
      return false;
    }
    if kind.Int96? || p.min.None? || p.max.None? {
      return true;
    }
    for i := 0 to |texts|
      invariant forall j | 0 <= j < i ::
          var v := Parsed(lib, kind, texts[j]);
          !(v.Some? && NotAbove(p.min.value, v.value) && NotAbove(v.value, p.max.value))
    {
      var v := Parsed(lib, kind, texts[i]);
      if v.Some? && NotAbove(p.min.value, v.value) && NotAbove(v.value, p.max.value) {
        return true;
      }
    }
    may := false;
  }

  datatype Counts = Counts(total: nat, selected: nat, skipped: nat)

  /** Pages with rows among the first `n` that are read, or not read. */
  ghost function PagesWith(lib: Parsers, index: PageIndex, rows: nat, texts: seq<string>, n: nat, read: bool): nat
    requires index.Valid() && n <= |index.starts|
  {
    if n == 0 then 0
    else PagesWith(lib, index, rows, texts, n - 1, read)
         + if index.starts[n - 1] < index.End(n - 1, rows)
              && MayContain(lib, index.kind, index.pages[n - 1], texts) == read then 1 else 0
  }

  ghost function PageCounts(lib: Parsers, index: PageIndex, rows: nat, texts: seq<string>): Counts
    requires index.Valid()
  {
    var n := |index.starts|;
    Counts(n, PagesWith(lib, index, rows, texts, n, true), PagesWith(lib, index, rows, texts, n, false))
  }

  /** Selectors for one row group with a usable index; an error for page spans that do not ascend within the group. */
  method SelectPages(lib: Parsers, index: PageIndex, rows: nat, texts: seq<string>)
    returns (r: Result<seq<Selector>>, counts: Counts)
    requires index.Valid()
    ensures r.Ok? <==> SpansOk(index, rows)
    ensures r.Ok? ==> Masks(lib, Group(rows, Some(index)), texts, Expand(r.value))
    ensures r.Ok? ==> counts == PageCounts(lib, index, rows, texts)
  {
    hide MayContain, Expand, Reached;
    var selectors: seq<Selector> := [];
    var cursor: nat := 0;
    counts := Counts(|index.starts|, 0, 0);
    NothingReached(lib, index, rows, texts);
    for k := 0 to |index.starts|
      invariant Reached(lib, index, rows, texts, k, cursor, Expand(selectors))
      invariant forall j | 0 <= j < k :: 0 <= index.starts[j] <= index.End(j, rows) <= rows
      invariant counts == Counts(|index.starts|, PagesWith(lib, index, rows, texts, k, true),
                                 PagesWith(lib, index, rows, texts, k, false))
    {
      var start, end := index.starts[k], index.End(k, rows);
      if start < 0 || end < 0 || end < start || end > rows {
        return Err("invalid page row span"), counts;
      }
      ReachedBelow(lib, index, rows, texts, k, cursor, Expand(selectors));
      if start == end {
        ReachEmptyPage(lib, index, rows, texts, k, cursor, Expand(selectors));
      } else {
        ghost var before, c := selectors, cursor;
        if cursor < start {
          selectors := selectors + [Skip(start - cursor)];
          ExpandMore(before, Skip(start - cursor));
        }
        assert Expand(selectors) == Expand(before) + seq(start - c, _ => false);
        ghost var skipped := selectors;
        var may := Contains(lib, index.kind, index.pages[k], texts);
        if may {
          selectors := selectors + [Select(end - start)];
          ExpandMore(skipped, Select(end - start));
          counts := counts.(selected := counts.selected + 1);
        } else {
          selectors := selectors + [Skip(end - start)];
          ExpandMore(skipped, Skip(end - start));
          counts := counts.(skipped := counts.skipped + 1);
        }
        assert Expand(selectors) == Expand(before) + seq(start - c, _ => false) + seq(end - start, _ => may);
        ReachPage(lib, index, rows, texts, k, c, Expand(before), Expand(selectors));
        cursor := end;
      }
    }
    ghost var before := selectors;
    ReachedSize(lib, index, rows, texts, cursor, Expand(before));
    if cursor < rows {
      selectors := selectors + [Skip(rows - cursor)];
      ExpandMore(before, Skip(rows - cursor));
    }
    assert Expand(selectors) == Expand(before) + seq(rows - cursor, _ => false);
    ReachEnd(lib, index, rows, texts, cursor, Expand(before), Expand(selectors));
    r := Ok(selectors);
  }

  lemma {:induction false} NothingReached(lib: Parsers, index: PageIndex, rows: nat, texts: seq<string>)
    requires index.Valid()
    ensures Reached(lib, index, rows, texts, 0, 0, Expand([]))
  {
  }

  lemma {:induction false} ReachedBelow(lib: Parsers, index: PageIndex, rows: nat, texts: seq<string>, n: nat,
                                        cursor: nat, mask: seq<bool>)
    requires index.Valid() && n < |index.starts| && Reached(lib, index, rows, texts, n, cursor, mask)
    requires 0 <= index.starts[n]
    ensures |mask| == cursor && (0 < n ==> cursor <= index.starts[n])
    ensures n == 0 ==> cursor == 0
  {
  }

  lemma {:induction false} ReachedSize(lib: Parsers, index: PageIndex, rows: nat, texts: seq<string>, cursor: nat,
                                       mask: seq<bool>)
    requires index.Valid() && Reached(lib, index, rows, texts, |index.starts|, cursor, mask)
    ensures |mask| == cursor <= rows
  {
  }

  lemma {:induction false} ReachEnd(lib: Parsers, index: PageIndex, rows: nat, texts: seq<string>, cursor: nat,
                                    mask: seq<bool>, mask': seq<bool>)
    requires index.Valid() && Reached(lib, index, rows, texts, |index.starts|, cursor, mask)
    requires cursor <= rows && mask' == mask + seq(rows - cursor, _ => false)
    ensures Masks(lib, Group(rows, Some(index)), texts, mask')
  {
    hide MayContain, Covers;
    var n := |index.starts|;
    forall r | 0 <= r < rows ensures mask'[r] <==> ChosenBefore(lib, index, rows, texts, n, r) {
      if r >= cursor {
        assert !ChosenBefore(lib, index, rows, texts, n, r);
      }
    }
  }

  // ---- The selected row groups together ----

  datatype Mode = Absent | Applied

  /** `None` reads every row of the selected groups. */
  datatype Decision = Decision(selection: Option<seq<Selector>>, mode: Mode, counts: Counts)

  ghost predicate ValidGroups(groups: seq<Group>) {
    forall i | 0 <= i < |groups| && groups[i].index.Some? :: groups[i].index.value.Valid()
  }

  ghost function TotalRows(groups: seq<Group>): nat {
    if groups == [] then 0 else TotalRows(groups[..|groups| - 1]) + groups[|groups| - 1].rows
  }

  /** The mask is that of the groups one after another, each row of each exactly once. */
  ghost predicate MasksAll(lib: Parsers, groups: seq<Group>, texts: seq<string>, mask: seq<bool>)
    requires ValidGroups(groups)
  {
    if groups == [] then mask == []
    else
      var init, last := groups[..|groups| - 1], groups[|groups| - 1];
      && |mask| == TotalRows(init) + last.rows
      && MasksAll(lib, init, texts, mask[..TotalRows(init)])
      && Masks(lib, last, texts, mask[TotalRows(init)..])
  }

  lemma {:induction false} MasksMore(lib: Parsers, groups: seq<Group>, i: nat, texts: seq<string>, mask: seq<bool>,
                                     more: seq<bool>)
    requires ValidGroups(groups) && i < |groups|
    requires |mask| == TotalRows(groups[..i]) && MasksAll(lib, groups[..i], texts, mask)
    requires Masks(lib, groups[i], texts, more)
    ensures MasksAll(lib, groups[..i + 1], texts, mask + more)
    ensures |mask + more| == TotalRows(groups[..i + 1])
  {
    hide Masks;
    assert groups[..i + 1][..i] == groups[..i];
    assert (mask + more)[..|mask|] == mask && (mask + more)[|mask|..] == more;
    MasksSize(lib, groups[i], texts, more);
  }

  lemma {:induction false} MasksSize(lib: Parsers, g: Group, texts: seq<string>, mask: seq<bool>)
    requires (g.index.Some? ==> g.index.value.Valid()) && Masks(lib, g, texts, mask)
    ensures |mask| == g.rows
  {
  }

  lemma {:induction false} WholeGroup(lib: Parsers, g: Group, texts: seq<string>)
    requires g.index.None?
    ensures Masks(lib, g, texts, seq(g.rows, _ => true))
  {
  }

  ghost predicate AllSpansOk(groups: seq<Group>) {
    forall i | 0 <= i < |groups| && groups[i].index.Some? :: SpansOk(groups[i].index.value, groups[i].rows)
  }

  ghost predicate SomeIndex(groups: seq<Group>) {
    exists i | 0 <= i < |groups| :: groups[i].index.Some?
  }

  /** What the decision reads: nothing without values or groups, everything without any usable index, and otherwise of
      every row of every selected group, once and in order, what the selectors say. */
  ghost predicate Decides(lib: Parsers, groups: seq<Group>, texts: seq<string>, d: Decision)
    requires ValidGroups(groups)
  {
    if texts == [] || groups == [] then d.selection == Some([])
    else if SomeIndex(groups) then
      d.mode.Applied? && d.selection.Some? && MasksAll(lib, groups, texts, Expand(d.selection.value))
    else d.mode.Absent? && d.selection.None?
  }

  /** The page counts of the first `n` groups together. */
  ghost function AllCounts(lib: Parsers, groups: seq<Group>, texts: seq<string>, n: nat): Counts
    requires ValidGroups(groups) && n <= |groups|
  {
    if n == 0 then Counts(0, 0, 0)
    else
      var c, g := AllCounts(lib, groups, texts, n - 1), groups[n - 1];
      if g.index.None? then c
      else
        var p := PageCounts(lib, g.index.value, g.rows, texts);
        Counts(c.total + p.total, c.selected + p.selected, c.skipped + p.skipped)
  }

  /** The rows to read for an equality probe; an error for a group whose page spans do not ascend within it. */
  method RowSelection(lib: Parsers, groups: seq<Group>, texts: seq<string>) returns (r: Result<Decision>)
    requires ValidGroups(groups)
    ensures r.Ok? <==> texts == [] || AllSpansOk(groups)
    ensures r.Ok? ==> Decides(lib, groups, texts, r.value)
    ensures r.Ok? && texts != [] && SomeIndex(groups) ==> r.value.counts == AllCounts(lib, groups, texts, |groups|)
  {
    hide SpansOk, MasksAll, Masks, Expand, TotalRows;
    if |texts| == 0 || |groups| == 0 {
      return Ok(Decision(Some([]), Applied, Counts(0, 0, 0)));
    }
    var selectors: seq<Selector> := [];
    var counts := Counts(0, 0, 0);
    var usable := false;
    NoGroups(lib, texts);
    assert groups[..0] == [];
    for i := 0 to |groups|
      invariant MasksAll(lib, groups[..i], texts, Expand(selectors)) && |Expand(selectors)| == TotalRows(groups[..i])
      invariant forall j | 0 <= j < i && groups[j].index.Some? :: SpansOk(groups[j].index.value, groups[j].rows)
      invariant usable <==> exists j | 0 <= j < i :: groups[j].index.Some?
      invariant counts == AllCounts(lib, groups, texts, i)
    {
      var g := groups[i];
      ghost var before := selectors;
      if g.index.None? {
        WholeGroup(lib, g, texts);
        if g.rows > 0 {
          selectors := selectors + [Select(g.rows)];
          ExpandMore(before, Select(g.rows));
          assert ExpandOne(Select(g.rows)) == seq(g.rows, _ => true);
        }
        assert Expand(selectors) == Expand(before) + seq(g.rows, _ => true);
        MasksMore(lib, groups, i, texts, Expand(before), seq(g.rows, _ => true));
      } else {
        usable := true;
        var pages, c := SelectPages(lib, g.index.value, g.rows, texts);
        if pages.Err? {
          return Err(pages.error);
        }
        selectors := selectors + pages.value;
        ExpandConcat(before, pages.value);
        MasksMore(lib, groups, i, texts, Expand(before), Expand(pages.value));
        counts := Counts(counts.total + c.total, counts.selected + c.selected, counts.skipped + c.skipped);
      }
    }
    assert groups[..|groups|] == groups;
    r := Ok(if usable then Decision(Some(selectors), Applied, counts) else Decision(None, Absent, Counts(0, 0, 0)));
  }

  lemma {:induction false} NoGroups(lib: Parsers, texts: seq<string>)
    ensures MasksAll(lib, [], texts, Expand([])) && TotalRows([]) == 0 == |Expand([])|
  {
  }

  /** Where the rows of group `i` are in the mask of all groups. */
  lemma {:induction false} MaskAt(lib: Parsers, groups: seq<Group>, texts: seq<string>, mask: seq<bool>, i: nat, r: nat)
    requires ValidGroups(groups) && MasksAll(lib, groups, texts, mask) && i < |groups| && r < groups[i].rows
    ensures TotalRows(groups[..i]) + r < |mask|
    ensures mask[TotalRows(groups[..i]) + r] <==> Chosen(lib, groups[i], texts, r)
  {
    hide Chosen;
    var init, n := groups[..|groups| - 1], |groups| - 1;
    if i < n {
      MaskAt(lib, init, texts, mask[..TotalRows(init)], i, r);
      assert init[..i] == groups[..i];
    }
  }

  // ---- Nothing that matches is skipped ----

  /** A page's statistics hold of its rows. */
  ghost predicate PageHolds(kind: Kind, p: PageStats, rows: seq<Option<Value>>) {
    && (p.nullPage ==> forall v | v in rows :: v.None?)
    && forall v | v in rows && v.Some? ::
         (p.min.Some? ==> NotAbove(p.min.value, v.value)) && (p.max.Some? ==> NotAbove(v.value, p.max.value))
  }

  /** The rows of a group, and an index that holds of them page by page. */
  ghost predicate IndexHolds(index: PageIndex, rows: seq<Option<Value>>) {
    && index.Valid() && SpansOk(index, |rows|)
    && forall k | 0 <= k < |index.starts| ::
         PageHolds(index.kind, index.pages[k], rows[index.starts[k]..index.End(k, |rows|)])
  }

  /** The stored value at `r` is one of the probe values. */
  ghost predicate Matches(lib: Parsers, kind: Kind, v: Option<Value>, texts: seq<string>) {
    v.Some? && exists i | 0 <= i < |texts| :: Parsed(lib, kind, texts[i]) == v
  }

  lemma {:induction false} MatchingPageKept(lib: Parsers, index: PageIndex, rows: seq<Option<Value>>,
                                            texts: seq<string>, k: nat, r: nat)
    requires IndexHolds(index, rows) && k < |index.starts| && r < |rows| && Covers(index, |rows|, k, r)
    requires Matches(lib, index.kind, rows[r], texts)
    ensures MayContain(lib, index.kind, index.pages[k], texts)
  {
    hide Parsed, NotAbove;
    var page := rows[index.starts[k]..index.End(k, |rows|)];
    assert PageHolds(index.kind, index.pages[k], page);
    assert page[r - index.starts[k]] == rows[r];
    assert rows[r] in page;
  }

  lemma {:induction false} PageOf(index: PageIndex, rows: nat, r: nat, n: nat)
    requires SpansOk(index, rows) && n < |index.starts| && r < rows && index.starts[n] <= r
    ensures exists k | 0 <= k < |index.starts| :: Covers(index, rows, k, r)
    decreases |index.starts| - n
  {
    if index.End(n, rows) <= r {
      PageOf(index, rows, r, n + 1);
    } else {
      assert Covers(index, rows, n, r);
    }
  }

  /** A row equal to a probe value is read exactly when its group's pages reach back to it: from the first page's first
      row on, or anywhere in a group without a usable index. */
  lemma {:induction false} MatchingRowReadIff(lib: Parsers, g: Group, rows: seq<Option<Value>>, texts: seq<string>,
                                              kind: Kind, r: nat)
    requires g.rows == |rows| && r < |rows| && Matches(lib, kind, rows[r], texts)
    requires g.index.Some? ==> IndexHolds(g.index.value, rows) && g.index.value.kind == kind
    ensures Chosen(lib, g, texts, r)
       <==> g.index.None? || (g.index.value.starts != [] && g.index.value.starts[0] <= r)
  {
    hide MayContain, Matches;
    if g.index.Some? {
      var index := g.index.value;
      if index.starts != [] && index.starts[0] <= r {
        PageOf(index, g.rows, r, 0);
        var k :| 0 <= k < |index.starts| && Covers(index, g.rows, k, r);
        MatchingPageKept(lib, index, rows, texts, k, r);
      }
      if k :| 0 <= k < |index.starts| && Covers(index, g.rows, k, r) {
        FirstStartsLowest(index, g.rows, k);
      }
    }
  }

  lemma {:induction false} FirstStartsLowest(index: PageIndex, rows: nat, k: nat)
    requires SpansOk(index, rows) && k < |index.starts|
    ensures index.starts[0] <= index.starts[k]
  {
    if k > 0 {
      FirstStartsLowest(index, rows, k - 1);
      assert index.End(k - 1, rows) == index.starts[k];
    }
  }

  /** Pages that start at row 0, as Parquet writes them: every matching row is read. */
  lemma {:induction false} MatchingRowRead(lib: Parsers, g: Group, rows: seq<Option<Value>>, texts: seq<string>,
                                           kind: Kind, r: nat)
    requires g.rows == |rows| && r < |rows| && Matches(lib, kind, rows[r], texts)
    requires g.index.Some? ==> IndexHolds(g.index.value, rows) && g.index.value.kind == kind
    requires g.index.Some? ==> g.index.value.starts != [] && g.index.value.starts[0] == 0
    ensures Chosen(lib, g, texts, r)
  {
    hide Chosen, Matches;
    MatchingRowReadIff(lib, g, rows, texts, kind, r);
  }

  /** The rows of the selected groups, each group with an index that holds of it and starts at row 0, as Parquet
      writes. */
  ghost predicate GroupsHold(kind: Kind, groups: seq<Group>, rows: seq<seq<Option<Value>>>) {
    && |groups| == |rows|
    && forall i | 0 <= i < |groups| ::
         && groups[i].rows == |rows[i]|
         && (groups[i].index.Some? ==>
               var index := groups[i].index.value;
               IndexHolds(index, rows[i]) && index.kind == kind && index.starts != [] && index.starts[0] == 0)
  }

  /** Every row equal to a probe value is among the rows the returned selectors read, at its place in the selected
      groups; or all rows are read. */
  lemma {:induction false} MatchingRowSelected(lib: Parsers, kind: Kind, groups: seq<Group>,
                                               rows: seq<seq<Option<Value>>>, texts: seq<string>, d: Decision, i: nat,
                                               r: nat)
    requires ValidGroups(groups) && GroupsHold(kind, groups, rows) && Decides(lib, groups, texts, d)
    requires i < |groups| && r < |rows[i]| && Matches(lib, kind, rows[i][r], texts)
    ensures d.selection.Some? ==>
              var mask := Expand(d.selection.value);
              TotalRows(groups[..i]) + r < |mask| && mask[TotalRows(groups[..i]) + r]
  {
    hide Chosen, MasksAll, Expand, TotalRows;
    assert texts != [];
    MatchingRowRead(lib, groups[i], rows[i], texts, kind, r);
    if d.selection.Some? {
      MaskAt(lib, groups, texts, Expand(d.selection.value), i, r);
    }
  }

  /** That start is needed. A first page that does not start at row 0: its statistics hold, yet the matching row before
      it is skipped. */
  lemma {:induction false} LateFirstPageSkips(lib: Parsers)
    ensures var index := PageIndex(Bytes, [PageStats(false, None, None)], [1]);
            var rows := [Some(BytesValue(Utf8("k"))), Some(BytesValue(Utf8("k")))];
            && IndexHolds(index, rows) && Matches(lib, Bytes, rows[0], ["k"])
            && !Chosen(lib, Group(2, Some(index)), ["k"], 0) && Chosen(lib, Group(2, Some(index)), ["k"], 1)
  {
    var index := PageIndex(Bytes, [PageStats(false, None, None)], [1]);
    var rows := [Some(BytesValue(Utf8("k"))), Some(BytesValue(Utf8("k")))];
    assert Parsed(lib, Bytes, ["k"][0]) == rows[0] == rows[1];
    MatchingRowReadIff(lib, Group(2, Some(index)), rows, ["k"], Bytes, 0);
    MatchingRowReadIff(lib, Group(2, Some(index)), rows, ["k"], Bytes, 1);
  }

  // ---- What does not match is skipped ----

  /** Strictly before, among values of one kind. */
  ghost predicate Precedes(a: Value, b: Value) {
    match (a, b)
    case (IntValue(m), IntValue(n)) => m < n
    case (BytesValue(x), BytesValue(y)) => Less(x, y)
    case (BoolValue(t), BoolValue(u)) => !t && u
    case (RealValue(x), RealValue(y)) => x < y
    case _ => false
  }

  ghost predicate SameKind(a: Value, b: Value) {
    || (a.IntValue? && b.IntValue?) || (a.BytesValue? && b.BytesValue?)
    || (a.BoolValue? && b.BoolValue?) || (a.RealValue? && b.RealValue?)
  }

  lemma {:induction false} NotAboveExactly(a: Value, b: Value)
    ensures NotAbove(a, b) <==> SameKind(a, b) && !Precedes(b, a)
  {
    if a.BytesValue? && b.BytesValue? {
      AtMostTotal(a.bytes, b.bytes);
      LessTotal(a.bytes, b.bytes);
    }
  }

  /** The page's statistics are exact: its bounds are its smallest and largest value, unless all its rows are NULL. */
  ghost predicate PageExact(kind: Kind, p: PageStats, rows: seq<Option<Value>>) {
    && PageHolds(kind, p, rows) && !kind.Int96? && (p.nullPage <==> forall v | v in rows :: v.None?)
    && (!p.nullPage ==> p.min.Some? && p.max.Some? && p.min in rows && p.max in rows)
  }

  /** Some probe value has a value of the page at or below it and one at or above it. */
  ghost predicate Surrounds(lib: Parsers, kind: Kind, rows: seq<Option<Value>>, texts: seq<string>) {
    exists i, low, high | 0 <= i < |texts| && Some(low) in rows && Some(high) in rows ::
      Between(low, Parsed(lib, kind, texts[i]), high)
  }

  ghost predicate Between(low: Value, v: Option<Value>, high: Value) {
    v.Some? && SameKind(low, v.value) && SameKind(v.value, high) && !Precedes(v.value, low) && !Precedes(high, v.value)
  }

  lemma {:induction false} NotAboveTransitive(a: Value, b: Value, c: Value)
    requires NotAbove(a, b) && NotAbove(b, c)
    ensures NotAbove(a, c)
  {
    if a.BytesValue? {
      AtMostTransitive(a.bytes, b.bytes, c.bytes);
    }
  }

  /** A page with exact statistics is read exactly when a probe value lies between two of its values. */
  lemma {:induction false} PageReadExactly(lib: Parsers, kind: Kind, p: PageStats, rows: seq<Option<Value>>,
                                           texts: seq<string>)
    requires PageExact(kind, p, rows)
    ensures MayContain(lib, kind, p, texts) <==> Surrounds(lib, kind, rows, texts)
  {
    hide Parsed, NotAbove, Precedes, SameKind;
    if MayContain(lib, kind, p, texts) {
      var i :| 0 <= i < |texts| && Parsed(lib, kind, texts[i]).Some?
               && NotAbove(p.min.value, Parsed(lib, kind, texts[i]).value)
               && NotAbove(Parsed(lib, kind, texts[i]).value, p.max.value);
      NotAboveExactly(p.min.value, Parsed(lib, kind, texts[i]).value);
      NotAboveExactly(Parsed(lib, kind, texts[i]).value, p.max.value);
      assert Between(p.min.value, Parsed(lib, kind, texts[i]), p.max.value);
    }
    if Surrounds(lib, kind, rows, texts) {
      var i, low, high :| 0 <= i < |texts| && Some(low) in rows && Some(high) in rows
                          && Between(low, Parsed(lib, kind, texts[i]), high);
      var v := Parsed(lib, kind, texts[i]).value;
      NotAboveExactly(low, v);
      NotAboveExactly(v, high);
      NotAboveTransitive(p.min.value, low, v);
      NotAboveTransitive(v, high, p.max.value);
    }
  }

  lemma {:induction false} OnePage(index: PageIndex, rows: nat, j: nat, k: nat, r: nat)
    requires SpansOk(index, rows) && j < k < |index.starts| && Covers(index, rows, j, r)
    ensures !Covers(index, rows, k, r)
  {
    PagesAscend(index, rows, j, k);
  }

  lemma {:induction false} PagesAscend(index: PageIndex, rows: nat, j: nat, k: nat)
    requires SpansOk(index, rows) && j < k < |index.starts|
    ensures index.End(j, rows) <= index.starts[k]
  {
    if j < k - 1 {
      PagesAscend(index, rows, j, k - 1);
      assert index.End(k - 1, rows) == index.starts[k];
    }
  }

  /** So a row of a page with exact statistics is read exactly when a probe value lies between two values of the page.
      */
  lemma {:induction false} RowReadExactly(lib: Parsers, g: Group, rows: seq<Option<Value>>, texts: seq<string>, k: nat,
                                          r: nat)
    requires g.rows == |rows| && r < |rows| && g.index.Some? && IndexHolds(g.index.value, rows)
    requires k < |g.index.value.starts| && Covers(g.index.value, |rows|, k, r)
    requires PageExact(g.index.value.kind, g.index.value.pages[k],
                       rows[g.index.value.starts[k]..g.index.value.End(k, |rows|)])
    ensures Chosen(lib, g, texts, r) <==>
            Surrounds(lib, g.index.value.kind, rows[g.index.value.starts[k]..g.index.value.End(k, |rows|)], texts)
  {
    hide MayContain, Surrounds, PageExact, PageHolds;
    var index := g.index.value;
    PageReadExactly(lib, index.kind, index.pages[k], rows[index.starts[k]..index.End(k, |rows|)], texts);
    forall j | 0 <= j < |index.starts| && j != k ensures !Covers(index, |rows|, j, r) {
      if j < k && Covers(index, |rows|, j, r) {
        OnePage(index, |rows|, j, k, r);
      } else if k < j {
        OnePage(index, |rows|, k, j, r);
      }
    }
  }
}
