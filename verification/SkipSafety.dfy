/** When a scan may skip segments by a predicate on any column: only if no key is in two segments. */
module SkipSafety {
  import opened Bytes
  import opened KeyBounds
  import opened ColdVersions
  import opened Compaction
  import opened CompactionPlan

  /** What a scan with a filter finds for a key in these rows: the newest version, if it passes. */
  ghost predicate Finds(rows: set<ColdRow>, key: KeyTuple, passes: Image -> bool, found: Option<Image>) {
    && (!HasKey(rows, key) ==> found == None)
    && (forall r | Newest(rows, r) && r.key == key :: found == if Passes(r, passes) then Shown(r) else None)
  }

  predicate Passes(r: ColdRow, passes: Image -> bool) {
    Shown(r).Some? && passes(Shown(r).value)
  }

  /** There is one thing to find: nothing for a key without versions, and for another its newest version if it is live
      and passes. */
  lemma {:induction false} FindsOne(rows: set<ColdRow>, key: KeyTuple, passes: Image -> bool, found: Option<Image>)
    requires Finds(rows, key, passes, found)
    ensures !HasKey(rows, key) ==> found == None
    ensures HasKey(rows, key) ==>
              exists r | Newest(rows, r) && r.key == key ::
                found == if r.op != Delete && r.image.Some? && passes(r.image.value) then r.image else None
  {
    if HasKey(rows, key) {
      NewestExists(rows, key);
    }
  }

  /** The rows of the chosen segments. */
  ghost function RowsAt(segments: seq<set<ColdRow>>, chosen: set<nat>): set<ColdRow> {
    set i, r | i in chosen && i < |segments| && r in segments[i] :: r
  }

  ghost predicate RangesHold(segments: seq<set<ColdRow>>, segs: seq<SegmentRange>) {
    |segments| == |segs| && forall i, r | 0 <= i < |segs| && r in segments[i] :: CoversKey(segs[i], r.key)
  }

  lemma {:induction false} ApartSegmentsShareNoKey(segments: seq<set<ColdRow>>, segs: seq<SegmentRange>, a: set<nat>,
                                                   b: set<nat>)
    requires RangesHold(segments, segs) && PairwiseApart(segs) && a !! b
    ensures NoSharedKey(RowsAt(segments, a), RowsAt(segments, b))
  {
    hide CoversKey, PairwiseApart;
    forall r, o | r in RowsAt(segments, a) && o in RowsAt(segments, b) ensures r.key != o.key {
      var i :| i in a && i < |segments| && r in segments[i];
      var j :| j in b && j < |segments| && o in segments[j];
      if r.key == o.key {
        DisjointMeansOneHolder(segs, i, j, r.key);
      }
    }
  }

  /** Once the disjointness test has answered true, skipping segments in which no version passes the filter changes the
      result for no key. */
  lemma {:induction false} SkippingKeepsResults(segments: seq<set<ColdRow>>, segs: seq<SegmentRange>, kept: set<nat>,
                                                skipped: set<nat>, passes: Image -> bool, key: KeyTuple,
                                                found: Option<Image>)
    requires RangesHold(segments, segs) && PairwiseApart(segs) && kept !! skipped
    requires forall r | r in RowsAt(segments, skipped) :: !Passes(r, passes)
    ensures Finds(RowsAt(segments, kept + skipped), key, passes, found)
            <==> Finds(RowsAt(segments, kept), key, passes, found)
  {
    hide RangesHold, PairwiseApart, RowsAt, Passes;
    ApartSegmentsShareNoKey(segments, segs, kept, skipped);
    BothAt(segments, kept, skipped);
    UnsharedKeepsResults(RowsAt(segments, kept), RowsAt(segments, skipped), passes, key, found);
  }

  lemma {:induction false} BothAt(segments: seq<set<ColdRow>>, a: set<nat>, b: set<nat>)
    ensures RowsAt(segments, a + b) == RowsAt(segments, a) + RowsAt(segments, b)
  {
  }

  lemma {:induction false} UnsharedKeepsResults(kept: set<ColdRow>, skipped: set<ColdRow>, passes: Image -> bool,
                                                key: KeyTuple, found: Option<Image>)
    requires NoSharedKey(kept, skipped) && forall r | r in skipped :: !Passes(r, passes)
    ensures Finds(kept + skipped, key, passes, found) <==> Finds(kept, key, passes, found)
  {
    hide Passes;
    var all := kept + skipped;
    if HasKey(kept, key) {
      var o :| o in kept && o.key == key;
      forall r: ColdRow | r.key == key ensures Newest(all, r) <==> Newest(kept, r) {
        assert r in all <==> r in kept;
      }
      assert o in all;
    } else if HasKey(all, key) {
      NewestExists(all, key);
    }
  }

  /** With a key in two segments it would go wrong: the newest version, which does not pass, is skipped, and the older
      one is found instead. */
  lemma {:induction false} SkippedNewerVersionMissed(key: KeyTuple, before: Image, after: Image, passes: Image -> bool)
    requires passes(before) && !passes(after)
    ensures var stale := {ColdRow(key, 1, Insert, Some(before))};
            var newer := {ColdRow(key, 2, Update, Some(after))};
            && (forall r | r in newer :: !Passes(r, passes))
            && Finds(stale + newer, key, passes, None) && Finds(stale, key, passes, Some(before))
  {
    var o, n := ColdRow(key, 1, Insert, Some(before)), ColdRow(key, 2, Update, Some(after));
    assert n in {o} + {n} && o in {o};
  }
}
