/** The planner: overlap components and runs of small disjoint neighbours, cut to the row limits. */
module CompactionUnits {
  import opened KeyBounds
  import opened Compaction
  import CompactionPlan

  const I64_MAX: int := 0x7FFF_FFFF_FFFF_FFFF
  const I64_MIN: int := -0x8000_0000_0000_0000

  datatype CompactionUnit = CompactionUnit(members: seq<nat>, rows: int, overlapping: bool)

  datatype Plan = Plan(units: seq<CompactionUnit>, skippedOverCap: nat, oversized: seq<CompactionUnit>)

  function SaturatingDouble(rows: int): int {
    if 2 * rows > I64_MAX then I64_MAX else if 2 * rows < I64_MIN then I64_MIN else 2 * rows
  }

  function RowCount(segs: seq<SegmentRange>, i: nat): int {
    if i < |segs| then segs[i].rowCount else 0
  }

  function RowsOf(segs: seq<SegmentRange>, members: seq<nat>): int {
    if members == [] then 0
    else RowsOf(segs, members[..|members| - 1]) + RowCount(segs, members[|members| - 1])
  }

  lemma {:induction false} RowsOfSnoc(segs: seq<SegmentRange>, members: seq<nat>, last: nat)
    ensures RowsOf(segs, members + [last]) == RowsOf(segs, members) + RowCount(segs, last)
  {
    assert (members + [last])[..|members|] == members;
  }

  /** "Small" means at most half the target, except that with the largest target the doubling
      saturates and every segment counts as small. */
  lemma {:induction false} SmallIsHalfTarget(rows: int, target: int)
    requires 1 <= target <= I64_MAX && I64_MIN <= rows <= I64_MAX
    ensures SaturatingDouble(rows) <= target <==> 2 * rows <= target || target == I64_MAX
  {
  }

  // ---- A plan as a cut of the component list into consecutive blocks ----

  datatype Block = Block(lo: nat, hi: nat)

  /** What the planner works on: the segments, their components and the two row limits. */
  datatype Input = Input(segs: seq<SegmentRange>, comps: seq<seq<nat>>, target: int, cap: int) {

    function Limit(): int {
      if target < cap then target else cap
    }

    /** Alone in its component, and small enough to be merged with its neighbours. */
    predicate SmallSingle(c: nat) {
      c < |comps| && |comps[c]| == 1 && SaturatingDouble(RowCount(segs, comps[c][0])) <= target
    }

    /** The members of components `lo` up to `hi`, in order. */
    function Flat(lo: nat, hi: nat): seq<nat> {
      if hi <= lo || hi > |comps| then [] else Flat(lo, hi - 1) + comps[hi - 1]
    }

    function Rows(b: Block): int {
      RowsOf(segs, Flat(b.lo, b.hi))
    }

    predicate IsRun(b: Block) {
      b.lo < b.hi <= |comps| && forall c | b.lo <= c < b.hi :: SmallSingle(c)
    }

    /** A block is a run within the limit, or one component that is not a small single. */
    ghost predicate ValidBlock(b: Block) {
      && b.lo < b.hi <= |comps|
      && (if SmallSingle(b.lo) then IsRun(b) && (b.hi > b.lo + 1 ==> Rows(b) <= Limit()) else b.hi == b.lo + 1)
    }

    /** If `a` is a run, the segment of component `c` does not fit into it. */
    ghost predicate FullFor(a: Block, c: nat) {
      IsRun(a) ==> Rows(a) + Rows(Block(c, c + 1)) > Limit()
    }

    /** Two neighbouring runs were separated only because the next segment did not fit. */
    ghost predicate CutWasNeeded(a: Block, b: Block) {
      IsRun(b) ==> FullFor(a, b.lo)
    }

    /** `blocks` cuts the first `n` components, without gaps, into valid blocks. */
    ghost predicate Cut(blocks: seq<Block>, n: nat) {
      && (if blocks == [] then n == 0 else blocks[0].lo == 0 && blocks[|blocks| - 1].hi == n)
      && (forall i | 0 <= i < |blocks| :: ValidBlock(blocks[i]))
      && (forall i | 0 < i < |blocks| :: blocks[i - 1].hi == blocks[i].lo)
      && (forall i | 0 < i < |blocks| :: CutWasNeeded(blocks[i - 1], blocks[i]))
    }

    /** Whether a block is rewritten: a run of at least two, or a component of at least two segments.
        The ones over the cap are set aside (`over`). */
    ghost predicate Chosen(b: Block, over: bool) {
      b.lo < |comps| && if |comps[b.lo]| > 1 then over == (Rows(b) > cap) else !over && b.hi > b.lo + 1
    }

    ghost function UnitOf(b: Block): CompactionUnit {
      CompactionUnit(Flat(b.lo, b.hi), Rows(b), b.lo < |comps| && |comps[b.lo]| > 1)
    }

    ghost function UnitsOf(blocks: seq<Block>, over: bool): seq<CompactionUnit> {
      if blocks == [] then []
      else
        var last := blocks[|blocks| - 1];
        UnitsOf(blocks[..|blocks| - 1], over) + (if Chosen(last, over) then [UnitOf(last)] else [])
    }

    /** The plan is what the cut says, nothing more and nothing less. */
    ghost predicate Realizes(blocks: seq<Block>, n: nat, plan: Plan) {
      && Cut(blocks, n)
      && plan.units == UnitsOf(blocks, false)
      && plan.oversized == UnitsOf(blocks, true)
      && plan.skippedOverCap == |plan.oversized|
    }

    lemma {:induction false} AppendBlock(blocks: seq<Block>, n: nat, plan: Plan, b: Block)
      requires Realizes(blocks, n, plan) && b.lo == n && ValidBlock(b)
      requires blocks != [] ==> CutWasNeeded(blocks[|blocks| - 1], b)
      ensures Realizes(blocks + [b], b.hi,
                       Plan(plan.units + (if Chosen(b, false) then [UnitOf(b)] else []),
                            plan.skippedOverCap + (if Chosen(b, true) then 1 else 0),
                            plan.oversized + (if Chosen(b, true) then [UnitOf(b)] else [])))
    {
      hide Input.ValidBlock, Input.CutWasNeeded, Input.Chosen, Input.UnitOf;
      assert (blocks + [b])[..|blocks|] == blocks;
    }

    lemma {:induction false} FlatOne(c: nat)
      requires c < |comps|
      ensures Flat(c, c + 1) == comps[c]
    {
      assert Flat(c, c) == [];
    }

    /** The planner between two components: a plan for the blocks up to `start`, and an open run. */
    ghost predicate Between(blocks: seq<Block>, start: nat, n: nat, p: Progress) {
      && Realizes(blocks, start, p.plan)
      && start <= n <= |comps|
      && (start < n ==> IsRun(Block(start, n)))
      && p.run == Flat(start, n) && |p.run| == n - start && p.runRows == RowsOf(segs, p.run)
      && (n > start + 1 ==> p.runRows <= Limit())
      && (blocks != [] ==>
            if start < n then FullFor(blocks[|blocks| - 1], start) else !IsRun(blocks[|blocks| - 1]))
    }
  }

  /** The planner's mutable state. */
  datatype Progress = Progress(plan: Plan, run: seq<nat>, runRows: int)

  /** Ends the current run: two or more members become a unit. */
  method CloseRun(p: Progress, ghost input: Input, ghost blocks: seq<Block>, ghost start: nat, ghost n: nat)
    returns (closed: Progress, ghost grown: seq<Block>)
    requires input.Between(blocks, start, n, p)
    ensures closed.run == [] && closed.runRows == 0
    ensures input.Realizes(grown, n, closed.plan)
    ensures grown == if start == n then blocks else blocks + [Block(start, n)]
  {
    var plan := p.plan;
    if |p.run| >= 2 {
      plan := plan.(units := plan.units + [CompactionUnit(p.run, p.runRows, false)]);
    }
    RunBecomesBlock(p, input, blocks, start, n);
    closed, grown := Progress(plan, [], 0), if start == n then blocks else blocks + [Block(start, n)];
  }

  lemma {:induction false} RunBecomesBlock(p: Progress, input: Input, blocks: seq<Block>, start: nat, n: nat)
    requires input.Between(blocks, start, n, p)
    ensures input.Realizes(if start == n then blocks else blocks + [Block(start, n)], n,
                           if |p.run| >= 2
                           then p.plan.(units := p.plan.units + [CompactionUnit(p.run, p.runRows, false)])
                           else p.plan)
  {
    if start < n {
      var b := Block(start, n);
      assert input.SmallSingle(start);
      input.AppendBlock(blocks, start, p.plan, b);
      assert p.plan.oversized + [] == p.plan.oversized && p.plan.units + [] == p.plan.units;
      assert input.UnitOf(b) == CompactionUnit(p.run, p.runRows, false);
    }
  }

  method SumRows(segs: seq<SegmentRange>, members: seq<nat>) returns (rows: int)
    requires forall i | i in members :: i < |segs|
    ensures rows == RowsOf(segs, members)
  {
    rows := 0;
    for t := 0 to |members|
      invariant rows == RowsOf(segs, members[..t])
    {
      assert members[t] in members && members[..t + 1] == members[..t] + [members[t]];
      RowsOfSnoc(segs, members[..t], members[t]);
      rows := rows + segs[members[t]].rowCount;
    }
    assert members[..|members|] == members;
  }

  /** A component of two or more segments becomes a unit, or is set aside as oversized. */
  method PlanOverlap(segs: seq<SegmentRange>, cap: int, component: seq<nat>, p: Progress,
                     ghost input: Input, ghost blocks: seq<Block>, ghost n: nat)
    returns (planned: Progress)
    requires input.segs == segs && input.cap == cap && n < |input.comps| && input.comps[n] == component
    requires |component| > 1 && (forall i | i in component :: i < |segs|)
    requires input.Realizes(blocks, n, p.plan)
    ensures input.Between(blocks + [Block(n, n + 1)], n + 1, n + 1, planned)
  {
    var rows := SumRows(segs, component);
    var unit := CompactionUnit(component, rows, true);
    var plan := p.plan;
    if rows > cap {
      plan := Plan(plan.units, plan.skippedOverCap + 1, plan.oversized + [unit]);
    } else {
      plan := plan.(units := plan.units + [unit]);
    }
    input.FlatOne(n);
    input.AppendBlock(blocks, n, p.plan, Block(n, n + 1));
    assert p.plan.oversized + [] == p.plan.oversized && p.plan.units + [] == p.plan.units;
    planned := Progress(plan, [], 0);
  }

  /** A segment that is alone in its component and too large to merge stays as it is. */
  lemma {:induction false} LeaveAlone(p: Progress, input: Input, blocks: seq<Block>, n: nat)
    requires n < |input.comps| && |input.comps[n]| == 1 && !input.SmallSingle(n)
    requires input.Realizes(blocks, n, p.plan) && p.run == [] && p.runRows == 0
    ensures input.Between(blocks + [Block(n, n + 1)], n + 1, n + 1, p)
  {
    input.AppendBlock(blocks, n, p.plan, Block(n, n + 1));
    assert p.plan.oversized + [] == p.plan.oversized && p.plan.units + [] == p.plan.units;
  }

  lemma {:induction false} ExtendRun(index: nat, p: Progress, input: Input, blocks: seq<Block>, start: nat, n: nat)
    requires input.SmallSingle(n) && input.comps[n] == [index]
    requires start <= n && (start < n ==> input.IsRun(Block(start, n)))
    requires input.Realizes(blocks, start, p.plan)
    requires p.run == input.Flat(start, n) && |p.run| == n - start && p.runRows == RowsOf(input.segs, p.run)
    requires start < n ==> p.runRows + RowCount(input.segs, index) <= input.Limit()
    requires blocks != [] ==> input.FullFor(blocks[|blocks| - 1], start)
    ensures input.Between(blocks, start, n + 1,
                          Progress(p.plan, p.run + [index], p.runRows + RowCount(input.segs, index)))
  {
    RowsOfSnoc(input.segs, p.run, index);
    assert input.Flat(start, n + 1) == input.Flat(start, n) + [index];
  }

  lemma {:induction false} RowsOfOne(input: Input, c: nat, index: nat)
    requires c < |input.comps| && input.comps[c] == [index]
    ensures input.Rows(Block(c, c + 1)) == RowCount(input.segs, index)
  {
    input.FlatOne(c);
    RowsOfSnoc(input.segs, [], index);
    assert [] + [index] == [index];
  }

  lemma {:induction false} FullOrNoRun(p: Progress, input: Input, blocks: seq<Block>, start: nat, n: nat)
    requires input.Between(blocks, start, n, p)
    requires start == n || p.runRows + input.Rows(Block(n, n + 1)) > input.Limit()
    ensures var grown := if start == n then blocks else blocks + [Block(start, n)];
            grown != [] ==> input.FullFor(grown[|grown| - 1], n)
  {
  }

  /** A small segment joins the run, after ending it if the sum would exceed the limit. */
  method PlanSmall(index: nat, rowCount: int, limit: int, p: Progress,
                   ghost input: Input, ghost blocks: seq<Block>, ghost start: nat, ghost n: nat)
    returns (planned: Progress, ghost grown: seq<Block>, ghost start': nat)
    requires n < |input.comps| && input.SmallSingle(n) && input.comps[n] == [index]
    requires RowCount(input.segs, index) == rowCount
    requires limit == input.Limit() && input.Between(blocks, start, n, p)
    ensures input.Between(grown, start', n + 1, planned)
  {
    hide *;
    planned, grown, start' := p, blocks, start;
    RowsOfOne(input, n, index);
    if p.runRows + rowCount > limit {
      FullOrNoRun(p, input, blocks, start, n);
      planned, grown := CloseRun(p, input, blocks, start, n);
      start' := n;
      StartRun(index, planned, input, grown, n);
    } else {
      JoinRun(index, p, input, blocks, start, n);
    }
    planned := Progress(planned.plan, planned.run + [index], planned.runRows + rowCount);
  }

  lemma {:induction false} StartRun(index: nat, p: Progress, input: Input, blocks: seq<Block>, n: nat)
    requires input.SmallSingle(n) && input.comps[n] == [index]
    requires input.Realizes(blocks, n, p.plan) && p.run == [] && p.runRows == 0
    requires blocks != [] ==> input.FullFor(blocks[|blocks| - 1], n)
    ensures input.Between(blocks, n, n + 1, Progress(p.plan, p.run + [index], p.runRows + RowCount(input.segs, index)))
  {
    ExtendRun(index, p, input, blocks, n, n);
  }

  lemma {:induction false} JoinRun(index: nat, p: Progress, input: Input, blocks: seq<Block>, start: nat, n: nat)
    requires input.SmallSingle(n) && input.comps[n] == [index] && input.Between(blocks, start, n, p)
    requires p.runRows + RowCount(input.segs, index) <= input.Limit()
    ensures input.Between(blocks, start, n + 1,
                          Progress(p.plan, p.run + [index], p.runRows + RowCount(input.segs, index)))
  {
    if start == n {
      FullOrNoRun(p, input, blocks, start, n);
    }
    ExtendRun(index, p, input, blocks, start, n);
  }

  /** One component, whatever its kind. */
  method PlanComponent(segs: seq<SegmentRange>, target: int, cap: int, component: seq<nat>, p: Progress,
                       ghost input: Input, ghost blocks: seq<Block>, ghost start: nat, ghost n: nat)
    returns (planned: Progress, ghost grown: seq<Block>, ghost start': nat)
    requires input.segs == segs && input.target == target && input.cap == cap
    requires n < |input.comps| && input.comps[n] == component && component != []
    requires (forall i | i in component :: i < |segs|) && input.Between(blocks, start, n, p)
    ensures input.Between(grown, start', n + 1, planned)
  {
    hide Input.Between, Input.Realizes;
    assert component[0] in component;
    if |component| == 1 && SaturatingDouble(segs[component[0]].rowCount) <= target {
      var limit := if target < cap then target else cap;
      planned, grown, start' := PlanSmall(component[0], segs[component[0]].rowCount, limit, p, input, blocks, start, n);
      return;
    }
    planned, grown := CloseRun(p, input, blocks, start, n);
    if |component| > 1 {
      planned := PlanOverlap(segs, cap, component, planned, input, grown, n);
    } else {
      LeaveAlone(planned, input, grown, n);
    }
    grown, start' := grown + [Block(n, n + 1)], n + 1;
  }

  ghost predicate WithinSegments(segs: seq<SegmentRange>, component: seq<nat>) {
    component != [] && forall i | i in component :: i < |segs|
  }

  lemma {:induction false} NothingPlanned(input: Input)
    ensures input.Between([], 0, 0, Progress(Plan([], 0, []), [], 0))
  {
  }

  /** Cuts the components greedily from the left. */
  method PlanComponents(segs: seq<SegmentRange>, components: seq<seq<nat>>, target: int, cap: int)
    returns (plan: Plan, ghost blocks: seq<Block>)
    requires forall c | 0 <= c < |components| :: WithinSegments(segs, components[c])
    ensures Input(segs, components, target, cap).Realizes(blocks, |components|, plan)
  {
    hide Input.Between, Input.Realizes;
    ghost var input := Input(segs, components, target, cap);
    var p := Progress(Plan([], 0, []), [], 0);
    ghost var start: nat := 0;
    blocks := [];
    NothingPlanned(input);
    for n := 0 to |components|
      invariant input.Between(blocks, start, n, p)
    {
      assert WithinSegments(segs, components[n]);
      p, blocks, start := PlanComponent(segs, target, cap, components[n], p, input, blocks, start, n);
    }
    p, blocks := CloseRun(p, input, blocks, start, |components|);
    plan := p.plan;
  }

  /** `plan` realizes a cut of the components of `segs` under the two limits. */
  ghost predicate IsPlan(segs: seq<SegmentRange>, target: int, cap: int, plan: Plan) {
    exists comps, blocks :: Planned(Input(segs, comps, target, cap), blocks, plan)
  }

  ghost predicate Planned(input: Input, blocks: seq<Block>, plan: Plan) {
    IsComponents(input.segs, input.comps) && input.Realizes(blocks, |input.comps|, plan)
  }

  /** Plans units over `segs`; limits below one row count as one row. */
  method PlanCompactionUnits(segs: seq<SegmentRange>, maxRowsPerFile: int, maxUnitRows: int)
    returns (plan: Plan)
    requires SortedByLead(segs)
    ensures IsPlan(segs, if maxRowsPerFile > 1 then maxRowsPerFile else 1,
                   if maxUnitRows > 1 then maxUnitRows else 1, plan)
  {
    var components := OverlapComponents(segs);
    var target := if maxRowsPerFile > 1 then maxRowsPerFile else 1;
    var cap := if maxUnitRows > 1 then maxUnitRows else 1;
    ghost var blocks;
    plan, blocks := PlanComponents(segs, components, target, cap);
    assert Planned(Input(segs, components, target, cap), blocks, plan);
  }

  // ---- What a plan that realizes a cut guarantees ----

  ghost predicate Apart(u: CompactionUnit, v: CompactionUnit) {
    forall x | x in u.members :: x !in v.members
  }

  lemma {:induction false} FlatMembers(input: Input, lo: nat, hi: nat, x: nat)
    requires hi <= |input.comps|
    ensures x in input.Flat(lo, hi) <==> exists c | lo <= c < hi :: x in input.comps[c]
  {
    if lo < hi {
      FlatMembers(input, lo, hi - 1, x);
      assert x in input.comps[hi - 1] ==> exists c | lo <= c < hi :: x in input.comps[c];
    }
  }

  /** Every unit, fitting or oversized, comes from a block of the cut. */
  lemma {:induction false} UnitsComeFromBlocks(input: Input, blocks: seq<Block>, over: bool, u: CompactionUnit)
    requires u in input.UnitsOf(blocks, over)
    ensures exists b | b in blocks :: input.Chosen(b, over) && u == input.UnitOf(b)
  {
    var last := blocks[|blocks| - 1];
    if u in input.UnitsOf(blocks[..|blocks| - 1], over) {
      UnitsComeFromBlocks(input, blocks[..|blocks| - 1], over, u);
    } else {
      assert last in blocks;
    }
  }

  /** Every chosen block becomes a unit. */
  lemma {:induction false} ChosenBlocksBecomeUnits(input: Input, blocks: seq<Block>, over: bool, b: Block)
    requires b in blocks && input.Chosen(b, over)
    ensures input.UnitOf(b) in input.UnitsOf(blocks, over)
  {
    var init := blocks[..|blocks| - 1];
    if b in init {
      ChosenBlocksBecomeUnits(input, init, over, b);
    } else {
      assert blocks == init + [blocks[|blocks| - 1]];
    }
  }

  lemma {:induction false} CutCovers(input: Input, blocks: seq<Block>, n: nat, c: nat)
    requires input.Cut(blocks, n) && c < n
    ensures exists b | b in blocks :: b.lo <= c < b.hi
  {
    var k := |blocks| - 1;
    if blocks[k].lo <= c {
      assert blocks[k] in blocks;
    } else {
      assert k > 0 && blocks[k - 1].hi == blocks[k].lo;
      CutPrefix(input, blocks, n);
      CutCovers(input, blocks[..k], blocks[k].lo, c);
      var b :| b in blocks[..k] && b.lo <= c < b.hi;
      assert b in blocks;
    }
  }

  lemma {:induction false} CutPrefix(input: Input, blocks: seq<Block>, n: nat)
    requires input.Cut(blocks, n) && |blocks| > 1
    ensures input.Cut(blocks[..|blocks| - 1], blocks[|blocks| - 1].lo)
  {
    var init := blocks[..|blocks| - 1];
    assert forall i | 0 <= i < |init| :: init[i] == blocks[i];
  }

  /** Every component of two or more segments is planned: as a unit when its rows fit the cap, as an
      oversized one otherwise, and never as both. */
  lemma {:induction false} EveryOverlapIsPlanned(input: Input, blocks: seq<Block>, plan: Plan, c: nat)
    requires Planned(input, blocks, plan) && c < |input.comps| && |input.comps[c]| > 1
    ensures var rows := RowsOf(input.segs, input.comps[c]);
            var unit := CompactionUnit(input.comps[c], rows, true);
            && (unit in plan.units <==> rows <= input.cap)
            && (unit in plan.oversized <==> rows > input.cap)
  {
    OverlapBlock(input, blocks, c);
    var unit := input.UnitOf(Block(c, c + 1));
    ChosenBlocksBecomeUnits(input, blocks, unit.rows > input.cap, Block(c, c + 1));
    if unit in plan.units {
      UnitWithinCap(input, blocks, false, unit);
    }
    if unit in plan.oversized {
      UnitWithinCap(input, blocks, true, unit);
    }
  }

  /** A component of two or more segments is a block of its own. */
  lemma {:induction false} OverlapBlock(input: Input, blocks: seq<Block>, c: nat)
    requires input.Cut(blocks, |input.comps|) && c < |input.comps| && |input.comps[c]| > 1
    ensures Block(c, c + 1) in blocks
    ensures input.UnitOf(Block(c, c + 1)) == CompactionUnit(input.comps[c], RowsOf(input.segs, input.comps[c]), true)
  {
    CutCovers(input, blocks, |input.comps|, c);
    var b :| b in blocks && b.lo <= c < b.hi;
    assert input.ValidBlock(b);
    assert !input.SmallSingle(c);
    assert b == Block(c, c + 1);
    input.FlatOne(c);
  }

  lemma {:induction false} UnitWithinCap(input: Input, blocks: seq<Block>, over: bool, u: CompactionUnit)
    requires u in input.UnitsOf(blocks, over) && u.overlapping
    ensures over == (u.rows > input.cap)
  {
    UnitsComeFromBlocks(input, blocks, over, u);
  }

  /** Row counts and the row target are 64-bit integers. */
  ghost predicate Fits64(input: Input) {
    1 <= input.target <= I64_MAX && forall i: nat :: I64_MIN <= RowCount(input.segs, i) <= I64_MAX
  }

  ghost predicate Largest(input: Input) {
    input.target == 0x7FFF_FFFF_FFFF_FFFF
  }

  lemma {:induction false} RunOfUnit(input: Input, blocks: seq<Block>, plan: Plan, u: CompactionUnit)
    returns (b: Block)
    requires Planned(input, blocks, plan) && u in plan.units && !u.overlapping
    ensures input.IsRun(b) && b.lo + 1 < b.hi <= |input.comps| && u == input.UnitOf(b)
    ensures input.Rows(b) <= input.target && input.Rows(b) <= input.cap
    ensures forall c | b.lo <= c < b.hi :: input.SmallSingle(c)
  {
    hide IsComponents;
    UnitsComeFromBlocks(input, blocks, false, u);
    b :| b in blocks && input.Chosen(b, false) && u == input.UnitOf(b);
    assert input.ValidBlock(b);
  }

  /** A small run merges at least two small segments, no two of which may share a key, within both
      limits. */
  lemma {:induction false} SmallRunsAreSafe(input: Input, blocks: seq<Block>, plan: Plan, u: CompactionUnit)
    requires Planned(input, blocks, plan) && u in plan.units && !u.overlapping
    ensures |u.members| >= 2 && u.rows == RowsOf(input.segs, u.members) <= input.target && u.rows <= input.cap
    ensures Fits64(input) ==> forall x | x in u.members :: 2 * RowCount(input.segs, x) <= input.target || Largest(input)
    ensures forall x, y | x in u.members && y in u.members && x != y :: !Edge(input.segs, x, y)
  {
    hide Input.Realizes, Input.Flat, Input.IsRun, Input.ValidBlock, IsComponents, RowsOf, RowCount, Edge;
    var b := RunOfUnit(input, blocks, plan, u);
    FlatSingles(input, b.lo, b.hi);
    forall x | x in u.members
      ensures Fits64(input) ==> 2 * RowCount(input.segs, x) <= input.target || Largest(input)
    {
      RunMember(input, b, x);
      if Fits64(input) {
        SmallIsHalfTarget(RowCount(input.segs, x), input.target);
      }
    }
    forall x, y | x in u.members && y in u.members && x != y ensures !Edge(input.segs, x, y) {
      RunMembersApart(input, b, x, y);
    }
  }

  lemma {:induction false} RunMember(input: Input, b: Block, x: nat)
    requires input.IsRun(b) && x in input.Flat(b.lo, b.hi)
    ensures exists c | b.lo <= c < b.hi :: input.comps[c] == [x]
    ensures SaturatingDouble(RowCount(input.segs, x)) <= input.target
  {
    FlatMembers(input, b.lo, b.hi, x);
    var c :| b.lo <= c < b.hi && x in input.comps[c];
    assert input.SmallSingle(c);
    assert input.comps[c] == [x];
  }

  lemma {:induction false} RunMembersApart(input: Input, b: Block, x: nat, y: nat)
    requires IsComponents(input.segs, input.comps) && input.IsRun(b)
    requires x in input.Flat(b.lo, b.hi) && y in input.Flat(b.lo, b.hi) && x != y
    ensures !Edge(input.segs, x, y)
  {
    RunMember(input, b, x);
    RunMember(input, b, y);
    var c :| b.lo <= c < b.hi && input.comps[c] == [x];
    var d :| b.lo <= d < b.hi && input.comps[d] == [y];
    assert x in input.comps[c] && y in input.comps[d];
    if Edge(input.segs, x, y) {
      ConnectedEdge(input.segs, x, y);
    }
  }

  lemma {:induction false} FlatSingles(input: Input, lo: nat, hi: nat)
    requires lo <= hi <= |input.comps| && forall c | lo <= c < hi :: input.SmallSingle(c)
    ensures |input.Flat(lo, hi)| == hi - lo
  {
    if lo < hi {
      FlatSingles(input, lo, hi - 1);
      assert input.SmallSingle(hi - 1);
    }
  }

  /** Nothing outside a unit, fitting or oversized, may share a key with one of its members. */
  lemma {:induction false} UnitsAreClosed(input: Input, blocks: seq<Block>, plan: Plan, u: CompactionUnit, x: nat,
                                          y: nat)
    requires Planned(input, blocks, plan) && (u in plan.units || u in plan.oversized)
    requires x in u.members && Edge(input.segs, x, y)
    ensures y in u.members
  {
    var over := u !in plan.units;
    UnitsComeFromBlocks(input, blocks, over, u);
    var b :| b in blocks && input.Chosen(b, over) && u == input.UnitOf(b);
    assert input.ValidBlock(b);
    FlatMembers(input, b.lo, b.hi, x);
    var c :| b.lo <= c < b.hi && x in input.comps[c];
    assert Listed(input.comps, y);
    var d :| 0 <= d < |input.comps| && y in input.comps[d];
    ConnectedEdge(input.segs, x, y);
    assert c == d;
    FlatMembers(input, b.lo, b.hi, y);
  }

  ghost predicate DrawnFrom(input: Input, u: CompactionUnit, n: nat) {
    n <= |input.comps| && forall x | x in u.members :: x in input.Flat(0, n)
  }

  /** No segment is in two units, or in two oversized components. */
  lemma {:induction false} UnitsAreApart(input: Input, blocks: seq<Block>, n: nat, over: bool)
    requires IsComponents(input.segs, input.comps) && n <= |input.comps| && input.Cut(blocks, n)
    ensures forall u | u in input.UnitsOf(blocks, over) :: DrawnFrom(input, u, n)
    ensures forall i, j | 0 <= i < j < |input.UnitsOf(blocks, over)| ::
              Apart(input.UnitsOf(blocks, over)[i], input.UnitsOf(blocks, over)[j])
  {
    if blocks != [] {
      var k := |blocks| - 1;
      var last := blocks[k];
      if k == 0 {
        assert blocks[..k] == [];
      } else {
        CutPrefix(input, blocks, n);
      }
      UnitsAreApart(input, blocks[..k], last.lo, over);
      assert input.ValidBlock(last);
      var before, after := input.UnitsOf(blocks[..k], over), input.UnitsOf(blocks, over);
      LastUnitApart(input, last, before);
    }
  }

  lemma {:induction false} LastUnitApart(input: Input, last: Block, before: seq<CompactionUnit>)
    requires IsComponents(input.segs, input.comps) && last.lo < last.hi <= |input.comps|
    requires forall u | u in before :: DrawnFrom(input, u, last.lo)
    ensures DrawnFrom(input, input.UnitOf(last), last.hi)
    ensures forall u | u in before :: DrawnFrom(input, u, last.hi) && Apart(u, input.UnitOf(last))
  {
    forall x | x in input.UnitOf(last).members ensures x in input.Flat(0, last.hi) {
      FlatWider(input, last.lo, last.hi, 0, last.hi, x);
    }
    forall u | u in before ensures DrawnFrom(input, u, last.hi) && Apart(u, input.UnitOf(last)) {
      forall x | x in u.members ensures x in input.Flat(0, last.hi) && x !in input.UnitOf(last).members {
        FlatWider(input, 0, last.lo, 0, last.hi, x);
        FlatApart(input, 0, last.lo, last.hi, x);
      }
    }
  }

  lemma {:induction false} FlatWider(input: Input, lo: nat, hi: nat, lo': nat, hi': nat, x: nat)
    requires lo' <= lo <= hi <= hi' <= |input.comps| && x in input.Flat(lo, hi)
    ensures x in input.Flat(lo', hi')
  {
    FlatMembers(input, lo, hi, x);
    FlatMembers(input, lo', hi', x);
  }

  lemma {:induction false} FlatApart(input: Input, lo: nat, mid: nat, hi: nat, x: nat)
    requires IsComponents(input.segs, input.comps) && lo <= mid <= hi <= |input.comps|
    ensures !(x in input.Flat(lo, mid) && x in input.Flat(mid, hi))
  {
    FlatMembers(input, lo, mid, x);
    FlatMembers(input, mid, hi, x);
    if x in input.Flat(lo, mid) && x in input.Flat(mid, hi) {
      var c :| lo <= c < mid && x in input.comps[c];
      var d :| mid <= d < hi && x in input.comps[d];
      ConnectedReflexive(input.segs, x);
    }
  }

  /** Blocks that do not touch have no segment in common. */
  lemma {:induction false} BlocksApart(input: Input, a: Block, b: Block, x: nat)
    requires IsComponents(input.segs, input.comps) && input.ValidBlock(a) && input.ValidBlock(b)
    requires a.hi <= b.lo || b.hi <= a.lo
    ensures !(x in input.Flat(a.lo, a.hi) && x in input.Flat(b.lo, b.hi))
  {
    if x in input.Flat(a.lo, a.hi) && x in input.Flat(b.lo, b.hi) {
      if a.hi <= b.lo {
        FlatWider(input, b.lo, b.hi, a.hi, b.hi, x);
        FlatApart(input, a.lo, a.hi, b.hi, x);
      } else {
        FlatWider(input, a.lo, a.hi, b.hi, a.hi, x);
        FlatApart(input, b.lo, b.hi, a.hi, x);
      }
    }
  }

  lemma {:induction false} ChosenBlocksApart(input: Input, a: Block, b: Block)
    requires input.ValidBlock(a) && input.ValidBlock(b) && input.Chosen(a, false) && input.Chosen(b, true)
    ensures a.hi <= b.lo || b.hi <= a.lo
  {
    assert b.hi == b.lo + 1 && !input.SmallSingle(b.lo);
  }

  /** A unit and an oversized component have no segment in common either. */
  lemma {:induction false} UnitsApartFromOversized(input: Input, blocks: seq<Block>, plan: Plan, u: CompactionUnit,
                                                   v: CompactionUnit)
    requires Planned(input, blocks, plan) && u in plan.units && v in plan.oversized
    ensures Apart(u, v)
  {
    UnitsComeFromBlocks(input, blocks, false, u);
    UnitsComeFromBlocks(input, blocks, true, v);
    var a :| a in blocks && input.Chosen(a, false) && u == input.UnitOf(a);
    var b :| b in blocks && input.Chosen(b, true) && v == input.UnitOf(b);
    ChosenBlocksApart(input, a, b);
    forall x | x in u.members ensures x !in v.members {
      BlocksApart(input, a, b, x);
    }
  }

  /** All segments that can hold a key of a unit are in the unit. So rewriting the unit, keeping only the
      newest version of each key, can neither lose nor expose a version held elsewhere. */
  lemma {:induction false} UnitHoldsAllVersions(input: Input, blocks: seq<Block>, plan: Plan, u: CompactionUnit,
                             x: nat, y: nat, key: KeyTuple)
    requires Planned(input, blocks, plan) && (u in plan.units || u in plan.oversized)
    requires x in u.members && x < |input.segs| && y < |input.segs| && key != []
    requires CoversKey(input.segs[x], key) && CoversKey(input.segs[y], key)
    ensures y in u.members
  {
    SharedKeyMayShare(input.segs[x], input.segs[y], key);
    UnitsAreClosed(input, blocks, plan, u, x, y);
  }

  // ---- No merge is missed, and no other is made ----

  lemma {:induction false} CutOrdered(input: Input, blocks: seq<Block>, n: nat, i: nat, j: nat)
    requires input.Cut(blocks, n) && i < j < |blocks|
    ensures blocks[i].hi <= blocks[j].lo
  {
    assert blocks[j - 1].hi == blocks[j].lo;
    if i < j - 1 {
      CutOrdered(input, blocks, n, i, j - 1);
      assert input.ValidBlock(blocks[j - 1]);
    }
  }

  lemma {:induction false} BlockIsValid(input: Input, blocks: seq<Block>, b: Block)
    requires input.Cut(blocks, |input.comps|) && b in blocks
    ensures b.lo < b.hi <= |input.comps|
    ensures b.hi > b.lo + 1 ==> input.SmallSingle(b.lo) && input.Chosen(b, false)
    ensures input.Chosen(b, false) && |input.comps[b.lo]| == 1 ==> b.hi > b.lo + 1
    ensures b.hi > b.lo + 1 ==> forall c | b.lo <= c < b.hi :: |input.comps[c]| == 1
    ensures |input.comps[b.lo]| != 1 ==> b.hi == b.lo + 1
  {
    assert input.ValidBlock(b);
    if b.hi > b.lo + 1 {
      forall c | b.lo <= c < b.hi ensures |input.comps[c]| == 1 {
        assert input.SmallSingle(c);
      }
    }
  }

  /** A segment that is alone in its component is in a unit exactly when its block has other segments. */
  lemma {:induction false} InUnitIffInRun(input: Input, blocks: seq<Block>, plan: Plan, k: nat, c: nat, x: nat)
    requires Planned(input, blocks, plan) && k < |blocks| && blocks[k].lo <= c < blocks[k].hi
    requires c < |input.comps| && input.comps[c] == [x]
    ensures (exists u | u in plan.units :: x in u.members) <==> blocks[k].hi > blocks[k].lo + 1
  {
    hide IsComponents, Input.Cut, Input.Chosen, Input.SmallSingle, Input.UnitsOf, Input.Rows;
    var b := blocks[k];
    BlockIsValid(input, blocks, b);
    FlatMembers(input, b.lo, b.hi, x);
    if b.hi > b.lo + 1 {
      ChosenBlocksBecomeUnits(input, blocks, false, b);
      assert x in input.UnitOf(b).members;
    }
    if u :| u in plan.units && x in u.members {
      UnitsComeFromBlocks(input, blocks, false, u);
      var b' :| b' in blocks && input.Chosen(b', false) && u == input.UnitOf(b');
      OnlyBlock(input, blocks, k, c, x, b');
    }
  }

  lemma {:induction false} OnlyBlock(input: Input, blocks: seq<Block>, k: nat, c: nat, x: nat, b: Block)
    requires IsComponents(input.segs, input.comps) && input.Cut(blocks, |input.comps|)
    requires k < |blocks| && blocks[k].lo <= c < blocks[k].hi && c < |input.comps| && x in input.comps[c]
    requires b in blocks && x in input.Flat(b.lo, b.hi)
    ensures b == blocks[k]
  {
    var m :| 0 <= m < |blocks| && blocks[m] == b;
    assert input.ValidBlock(b);
    FlatMembers(input, b.lo, b.hi, x);
    var c' :| b.lo <= c' < b.hi && x in input.comps[c'];
    ConnectedReflexive(input.segs, x);
    assert c' == c;
    if m < k {
      CutOrdered(input, blocks, |input.comps|, m, k);
    } else if k < m {
      CutOrdered(input, blocks, |input.comps|, k, m);
    }
  }

  /** A segment that is alone and has more than half the target rows is in no unit. */
  lemma {:induction false} LargeSegmentsStay(input: Input, blocks: seq<Block>, plan: Plan, c: nat, x: nat,
                                             u: CompactionUnit)
    requires Planned(input, blocks, plan) && Fits64(input) && !Largest(input) && u in plan.units
    requires c < |input.comps| && input.comps[c] == [x] && 2 * RowCount(input.segs, x) > input.target
    ensures x !in u.members
  {
    CutCovers(input, blocks, |input.comps|, c);
    var b :| b in blocks && b.lo <= c < b.hi;
    var k :| 0 <= k < |blocks| && blocks[k] == b;
    SmallIsHalfTarget(RowCount(input.segs, x), input.target);
    assert input.ValidBlock(b) && !input.SmallSingle(c);
    InUnitIffInRun(input, blocks, plan, k, c, x);
  }

  /** What `x` is merged with: a unit of the plan, or nothing. */
  ghost predicate MergedAs(plan: Plan, x: nat, members: seq<nat>) {
    && x in members
    && if exists u | u in plan.units :: x in u.members then exists u | u in plan.units :: u.members == members
       else members == [x]
  }

  ghost predicate SmallAlone(input: Input, c: nat) {
    c < |input.comps| && |input.comps[c]| == 1 && 2 * RowCount(input.segs, input.comps[c][0]) <= input.target
  }

  /** `y` is merged with `members`, or would make them too many rows under one of the limits. */
  ghost predicate JoinsUnlessTooMany(input: Input, members: seq<nat>, y: nat) {
    || y in members
    || RowsOf(input.segs, members) + RowCount(input.segs, y) > input.target
    || RowsOf(input.segs, members) + RowCount(input.segs, y) > input.cap
  }

  /** Two small segments next to each other, each alone, are merged, unless the second does not fit the rows of what the
      first is merged with under one of the limits. */
  lemma {:induction false} NoMissedMerge(input: Input, blocks: seq<Block>, plan: Plan, c: nat)
    requires Planned(input, blocks, plan) && Fits64(input)
    requires SmallAlone(input, c) && SmallAlone(input, c + 1)
    ensures exists members ::
              MergedAs(plan, input.comps[c][0], members) && JoinsUnlessTooMany(input, members, input.comps[c + 1][0])
  {
    hide MergedAs, JoinsUnlessTooMany, IsComponents;
    SmallIsHalfTarget(RowCount(input.segs, input.comps[c][0]), input.target);
    SmallIsHalfTarget(RowCount(input.segs, input.comps[c + 1][0]), input.target);
    CutCovers(input, blocks, |input.comps|, c);
    var b :| b in blocks && b.lo <= c < b.hi;
    var k :| 0 <= k < |blocks| && blocks[k] == b;
    assert input.ValidBlock(b) && input.IsRun(b);
    RunMerged(input, blocks, plan, k, c);
    RunEnds(input, blocks, k, c);
    assert MergedAs(plan, input.comps[c][0], input.Flat(b.lo, b.hi));
  }

  lemma {:induction false} RunEnds(input: Input, blocks: seq<Block>, k: nat, c: nat)
    requires input.Cut(blocks, |input.comps|) && k < |blocks| && blocks[k].lo <= c < blocks[k].hi
    requires input.IsRun(blocks[k]) && input.SmallSingle(c + 1)
    ensures JoinsUnlessTooMany(input, input.Flat(blocks[k].lo, blocks[k].hi), input.comps[c + 1][0])
  {
    var b, y := blocks[k], input.comps[c + 1][0];
    if c + 1 < b.hi {
      FlatMembers(input, b.lo, b.hi, y);
    } else {
      NextBlock(input, blocks, k);
      var next := blocks[k + 1];
      assert input.ValidBlock(next) && next.lo == c + 1;
      assert input.comps[c + 1] == [y];
      RowsOfOne(input, c + 1, y);
      assert input.CutWasNeeded(blocks[k + 1 - 1], next) && input.FullFor(b, next.lo);
    }
  }

  lemma {:induction false} NextBlock(input: Input, blocks: seq<Block>, k: nat)
    requires input.Cut(blocks, |input.comps|) && k < |blocks| && blocks[k].hi < |input.comps|
    ensures k + 1 < |blocks| && blocks[k + 1].lo == blocks[k].hi
  {
    if k + 1 < |blocks| {
      assert blocks[k + 1 - 1].hi == blocks[k + 1].lo;
    }
  }

  lemma {:induction false} RunMerged(input: Input, blocks: seq<Block>, plan: Plan, k: nat, c: nat)
    requires Planned(input, blocks, plan) && k < |blocks| && blocks[k].lo <= c < blocks[k].hi
    requires input.IsRun(blocks[k])
    ensures input.SmallSingle(c)
    ensures MergedAs(plan, input.comps[c][0], input.Flat(blocks[k].lo, blocks[k].hi))
  {
    hide IsComponents, Input.Cut;
    var b := blocks[k];
    assert input.SmallSingle(c) && input.SmallSingle(b.lo);
    var x := input.comps[c][0];
    assert input.comps[c] == [x];
    FlatMembers(input, b.lo, b.hi, x);
    InUnitIffInRun(input, blocks, plan, k, c, x);
    if b.hi > b.lo + 1 {
      ChosenBlocksBecomeUnits(input, blocks, false, b);
      assert input.UnitOf(b).members == input.Flat(b.lo, b.hi);
    } else {
      input.FlatOne(c);
    }
  }

  /** A unit or oversized unit marked as overlapping is a whole component of several segments, with the sum of its
      rows. */
  lemma {:induction false} OverlappingUnitsAreComponents(input: Input, blocks: seq<Block>, plan: Plan,
                                                         u: CompactionUnit)
    requires Planned(input, blocks, plan) && (u in plan.units || u in plan.oversized)
    ensures u.rows == RowsOf(input.segs, u.members)
    ensures u.overlapping ==> u.members in input.comps && |u.members| > 1
    ensures u in plan.oversized ==> u.overlapping && u.rows > input.cap
    ensures u in plan.units ==> u.rows <= input.cap
    ensures plan.skippedOverCap == |plan.oversized|
  {
    hide IsComponents, Input.Cut, Input.UnitsOf, RowsOf;
    if u in plan.units {
      UnitIsSound(input, blocks, false, u);
    }
    if u in plan.oversized {
      UnitIsSound(input, blocks, true, u);
    }
  }

  lemma {:induction false} UnitIsSound(input: Input, blocks: seq<Block>, over: bool, u: CompactionUnit)
    requires input.Cut(blocks, |input.comps|) && u in input.UnitsOf(blocks, over)
    ensures u.rows == RowsOf(input.segs, u.members) && (u.overlapping ==> u.members in input.comps && |u.members| > 1)
    ensures if over then u.overlapping && u.rows > input.cap else u.rows <= input.cap
  {
    hide Input.UnitsOf, RowsOf;
    UnitsComeFromBlocks(input, blocks, over, u);
    var b :| b in blocks && input.Chosen(b, over) && u == input.UnitOf(b);
    assert input.ValidBlock(b);
    input.FlatOne(b.lo);
  }

  // ---- There is only one plan ----

  ghost predicate Counts(segs: seq<SegmentRange>) {
    forall i: nat :: RowCount(segs, i) >= 0
  }

  lemma {:induction false} RowsOfConcat(segs: seq<SegmentRange>, a: seq<nat>, b: seq<nat>)
    ensures RowsOf(segs, a + b) == RowsOf(segs, a) + RowsOf(segs, b)
    ensures Counts(segs) ==> RowsOf(segs, b) >= 0
  {
    if b == [] {
      assert a + b == a;
    } else {
      var n := |b| - 1;
      RowsOfConcat(segs, a, b[..n]);
      RowsOfSnoc(segs, a + b[..n], b[n]);
      RowsOfSnoc(segs, b[..n], b[n]);
      assert a + b == (a + b[..n]) + [b[n]] && b == b[..n] + [b[n]];
    }
  }

  lemma {:induction false} FlatSplit(input: Input, lo: nat, mid: nat, hi: nat)
    requires lo <= mid <= hi <= |input.comps|
    ensures input.Flat(lo, hi) == input.Flat(lo, mid) + input.Flat(mid, hi)
  {
    if mid < hi {
      FlatSplit(input, lo, mid, hi - 1);
    }
  }

  /** A longer block has at least the rows of a shorter one and of the component after it. */
  lemma {:induction false} RowsOfLonger(input: Input, lo: nat, mid: nat, hi: nat)
    requires Counts(input.segs) && lo <= mid < hi <= |input.comps|
    ensures input.Rows(Block(lo, hi)) >= input.Rows(Block(lo, mid)) + input.Rows(Block(mid, mid + 1))
  {
    hide RowsOf;
    FlatSplit(input, lo, mid, hi);
    FlatSplit(input, mid, mid + 1, hi);
    RowsOfConcat(input.segs, input.Flat(lo, mid), input.Flat(mid, hi));
    RowsOfConcat(input.segs, input.Flat(mid, mid + 1), input.Flat(mid + 1, hi));
  }

  /** No block of a cut ends where a valid block from the same start goes on. */
  lemma {:induction false} BlockNotShorter(input: Input, blocks: seq<Block>, i: nat, b: Block)
    requires Counts(input.segs) && input.Cut(blocks, |input.comps|) && i < |blocks|
    requires input.ValidBlock(b) && b.lo == blocks[i].lo
    ensures blocks[i].hi >= b.hi
  {
    var a := blocks[i];
    assert input.ValidBlock(a);
    if a.hi < b.hi {
      assert input.SmallSingle(b.lo) && input.SmallSingle(a.hi);
      NextBlock(input, blocks, i);
      var next := blocks[i + 1];
      assert input.ValidBlock(next) && input.CutWasNeeded(blocks[i + 1 - 1], next);
      RowsOfLonger(input, b.lo, a.hi, b.hi);
    }
  }

  lemma {:induction false} CutUnique(input: Input, a: seq<Block>, b: seq<Block>, i: nat)
    requires Counts(input.segs) && input.Cut(a, |input.comps|) && input.Cut(b, |input.comps|)
    requires i <= |a| && i <= |b| && a[..i] == b[..i]
    ensures a == b
    decreases |a| - i
  {
    if i < |a| && i < |b| {
      assert a[i].lo == b[i].lo by {
        if i > 0 {
          assert a[i - 1] == a[..i][i - 1] && b[i - 1] == b[..i][i - 1];
        }
      }
      assert input.ValidBlock(a[i]) && input.ValidBlock(b[i]);
      BlockNotShorter(input, a, i, b[i]);
      BlockNotShorter(input, b, i, a[i]);
      assert a[..i + 1] == a[..i] + [a[i]] && b[..i + 1] == b[..i] + [b[i]];
      CutUnique(input, a, b, i + 1);
    } else if i < |b| {
      assert a[..i] == a;
      FrontIsWhole(input, a, b);
    } else {
      assert b[..i] == b;
      FrontIsWhole(input, b, a);
    }
  }

  lemma {:induction false} StartsInside(input: Input, blocks: seq<Block>, i: nat)
    requires input.Cut(blocks, |input.comps|) && i < |blocks|
    ensures blocks[i].lo < |input.comps|
    ensures i > 0 ==> blocks[i - 1].hi == blocks[i].lo
  {
    assert input.ValidBlock(blocks[i]);
  }

  /** A cut that begins with another cut of the same components has nothing more. */
  lemma {:induction false} FrontIsWhole(input: Input, a: seq<Block>, b: seq<Block>)
    requires input.Cut(a, |input.comps|) && input.Cut(b, |input.comps|) && a <= b
    ensures a == b
  {
    if |a| < |b| {
      StartsInside(input, b, |a|);
    }
  }

  /** The planner has no choice: for row counts that are not negative there is one plan. */
  lemma {:induction false} PlanUnique(segs: seq<SegmentRange>, target: int, cap: int, p: Plan, q: Plan)
    requires Counts(segs) && IsPlan(segs, target, cap, p) && IsPlan(segs, target, cap, q)
    ensures p == q
  {
    hide IsComponents, Input.Cut;
    var comps, blocks :| Planned(Input(segs, comps, target, cap), blocks, p);
    var comps', blocks' :| Planned(Input(segs, comps', target, cap), blocks', q);
    CompactionPlan.ComponentsUnique(segs, comps, comps');
    CutUnique(Input(segs, comps, target, cap), blocks, blocks', 0);
  }

  // ---- No sum overflows ----

  /** The rows of the first `n` segments. */
  function FirstRows(segs: seq<SegmentRange>, n: nat): int
    requires n <= |segs|
  {
    if n == 0 then 0 else FirstRows(segs, n - 1) + segs[n - 1].rowCount
  }

  /** Different segments have together no more rows than all of them. */
  lemma {:induction false} RowsOfAtMostAll(segs: seq<SegmentRange>, members: seq<nat>, n: nat)
    requires n <= |segs| && (forall i | 0 <= i < |segs| :: segs[i].rowCount >= 0)
    requires Ascending(members) && forall x | x in members :: x < n
    ensures 0 <= RowsOf(segs, members) <= FirstRows(segs, n)
    decreases n
  {
    if members == [] {
      if n > 0 {
        RowsOfAtMostAll(segs, members, n - 1);
      }
    } else {
      var init, last := members[..|members| - 1], members[|members| - 1];
      assert last in members;
      RowsOfAtMostAll(segs, if last == n - 1 then init else members, n - 1);
    }
  }

  lemma {:induction false} SinglesAscend(input: Input, lo: nat, hi: nat)
    requires IsComponents(input.segs, input.comps) && lo <= hi <= |input.comps|
    requires forall c | lo <= c < hi :: |input.comps[c]| == 1
    ensures |input.Flat(lo, hi)| == hi - lo
    ensures forall k | 0 <= k < hi - lo :: input.Flat(lo, hi)[k] == input.comps[lo + k][0]
    ensures Ascending(input.Flat(lo, hi)) && forall x | x in input.Flat(lo, hi) :: x < |input.segs|
  {
    hide Connected, Listed;
    if lo < hi {
      SinglesAscend(input, lo, hi - 1);
    }
    forall k | 0 <= k < hi - lo ensures input.Flat(lo, hi)[k] < |input.segs| {
      assert input.comps[lo + k][0] in input.comps[lo + k];
    }
  }

  /** Every sum the planner forms, within a component or along a run of single segments and the one after it, is at most
      the rows of all segments: if these fit 64 bits, nothing overflows. */
  lemma {:induction false} PlannerSumsFit(input: Input, c: nat, t: nat, lo: nat, hi: nat)
    requires IsComponents(input.segs, input.comps) && forall i | 0 <= i < |input.segs| :: input.segs[i].rowCount >= 0
    requires c < |input.comps| && t <= |input.comps[c]| && lo <= hi <= |input.comps|
    requires forall d | lo <= d < hi :: |input.comps[d]| == 1
    ensures 0 <= RowsOf(input.segs, input.comps[c][..t]) <= FirstRows(input.segs, |input.segs|)
    ensures 0 <= RowsOf(input.segs, input.Flat(lo, hi)) <= FirstRows(input.segs, |input.segs|)
  {
    forall x | x in input.comps[c][..t] ensures x < |input.segs| {
      assert x in input.comps[c];
    }
    RowsOfAtMostAll(input.segs, input.comps[c][..t], |input.segs|);
    SinglesAscend(input, lo, hi);
    RowsOfAtMostAll(input.segs, input.Flat(lo, hi), |input.segs|);
  }
}
