/** From a plan to a publish: a planned unit, rewritten, meets what the publication step asks of it. */
module CompactionSafety {
  import opened Bytes
  import opened KeyBounds
  import opened Compaction
  import opened CompactionUnits
  import opened ColdVersions
  import P = Publication
  import S = PublicationSafety

  /** `ids` lists the active segments in the planner's order, and the listed ranges are true of their rows. */
  ghost predicate Describes(s: P.State, ids: seq<P.SegId>, segs: seq<SegmentRange>) {
    && |ids| == |segs|
    && (forall i, j | 0 <= i < j < |ids| :: ids[i] != ids[j])
    && (forall id :: id in ids <==> id in P.ActiveIds(s.segments))
    && (forall i, r | 0 <= i < |ids| && ids[i] in s.segments && r in s.segments[ids[i]].rows ::
          r.key != [] && CoversKey(segs[i], r.key))
  }

  ghost function UnitIds(ids: seq<P.SegId>, u: CompactionUnit): set<P.SegId> {
    set i | 0 <= i < |ids| && i in u.members :: ids[i]
  }

  /** No active segment outside a planned unit holds a key of the unit. */
  lemma {:induction false} PlannedUnitSharesNoKey(s: P.State, ids: seq<P.SegId>, input: Input, blocks: seq<Block>,
                                                  plan: Plan, u: CompactionUnit)
    requires Describes(s, ids, input.segs) && Planned(input, blocks, plan) && (u in plan.units || u in plan.oversized)
    ensures var replaced := UnitIds(ids, u);
            && replaced <= P.ActiveIds(s.segments)
            && NoSharedKey(P.RowsOf(s.segments, P.ActiveIds(s.segments) - replaced), P.RowsOf(s.segments, replaced))
  {
    hide Planned;
    var replaced := UnitIds(ids, u);
    forall id | id in replaced ensures id in P.ActiveIds(s.segments) {
      assert id in ids;
    }
    forall r, o | r in P.RowsOf(s.segments, P.ActiveIds(s.segments) - replaced) && o in P.RowsOf(s.segments, replaced)
      ensures r.key != o.key
    {
      var a :| a in P.ActiveIds(s.segments) - replaced && a in s.segments && r in s.segments[a].rows;
      var b :| b in replaced && b in s.segments && o in s.segments[b].rows;
      assert a in ids;
      var y :| 0 <= y < |ids| && ids[y] == a;
      var x :| 0 <= x < |ids| && x in u.members && ids[x] == b;
      if r.key == o.key {
        UnitHoldsAllVersions(input, blocks, plan, u, x, y, r.key);
      }
    }
  }

  /** A plan stays true as long as the active segments stay the same. */
  lemma {:induction false} StillDescribes(s: P.State, s': P.State, ids: seq<P.SegId>, segs: seq<SegmentRange>)
    requires Describes(s, ids, segs) && S.ActiveSegments(s.segments) == S.ActiveSegments(s'.segments)
    ensures Describes(s', ids, segs) && P.ActiveIds(s'.segments) == P.ActiveIds(s.segments)
    ensures forall chosen: set<P.SegId> | chosen <= P.ActiveIds(s.segments) ::
              P.RowsOf(s'.segments, chosen) == P.RowsOf(s.segments, chosen)
  {
    hide CoversKey;
    forall id ensures id in P.ActiveIds(s'.segments) <==> id in P.ActiveIds(s.segments) {
      assert id in S.ActiveSegments(s.segments) <==> id in P.ActiveIds(s.segments);
      assert id in S.ActiveSegments(s'.segments) <==> id in P.ActiveIds(s'.segments);
    }
    forall id | id in P.ActiveIds(s.segments) ensures s'.segments[id] == s.segments[id] {
      assert S.ActiveSegments(s.segments)[id] == S.ActiveSegments(s'.segments)[id];
    }
    forall i, r | 0 <= i < |ids| && ids[i] in s'.segments && r in s'.segments[ids[i]].rows
      ensures r.key != [] && CoversKey(segs[i], r.key)
    {
      assert ids[i] in ids && ids[i] in P.ActiveIds(s.segments);
    }
  }

  /** A unit planned in one state of a run, rewritten, and published in a later one under the generation held since
      then, changes no read: delete markers dropped or not, and whether its compare-and-set wins or other publications
      have come first. */
  lemma {:induction false} PlannedCompactionKeepsReads(states: seq<P.State>, i: nat, j: nat, ids: seq<P.SegId>,
                                                       input: Input, blocks: seq<Block>, plan: Plan, u: CompactionUnit,
                                                       rewritten: set<P.SegId>, history: set<P.SegId>,
                                                       dropMarkers: bool, key: KeyTuple)
    requires P.Run(states) && i <= j < |states| && states[j].flush.None?
    requires Describes(states[i], ids, input.segs) && Planned(input, blocks, plan)
    requires u in plan.units || u in plan.oversized
    requires IsRewrite(P.RowsOf(states[i].segments, UnitIds(ids, u)), P.RowsOf(states[j].segments, rewritten),
                       dropMarkers)
    ensures var step := P.ActivateCompaction(S.Held(states[i].generation), rewritten, UnitIds(ids, u), history,
                                             dropMarkers);
            P.Enabled(states[j], step) && P.Read(P.Do(states[j], step), key) == P.Read(states[j], key)
  {
    hide P.Run, P.Read, P.Do, P.RowsOf, P.ActiveIds, IsRewrite, Planned, Describes, UnitIds, S.ActiveSegments;
    var s, unit := states[j], UnitIds(ids, u);
    var step := P.ActivateCompaction(S.Held(states[i].generation), rewritten, unit, history, dropMarkers);
    S.GenerationGrows(states, i, j);
    if s.generation == Some(S.Held(states[i].generation)) {
      S.SameGenerationSameActive(states, i, j);
      StillDescribes(states[i], s, ids, input.segs);
      PlannedUnitSharesNoKey(s, ids, input, blocks, plan, u);
    }
    assert P.Enabled(s, step);
    S.RunKeepsInv(states, j);
    S.CompactionKeeps(s, step);
    S.ReadIsTable(s, key);
    S.ReadIsTable(P.Do(s, step), key);
    SameTable(s, step);
  }

  lemma {:induction false} SameTable(s: P.State, step: P.Step)
    requires step.ActivateCompaction? && P.Enabled(s, step)
    ensures P.Do(s, step).table == s.table
  {
  }
}
