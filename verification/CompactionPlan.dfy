/** What the overlap components mean, segments without bounds, and the disjointness test. */
module CompactionPlan {
  import opened Bytes
  import opened KeyBounds
  import opened Compaction

  // ---- What the component list means ----

  lemma {:induction false} AscendingHeads(s: seq<nat>, t: seq<nat>)
    requires Ascending(s) && Ascending(t) && s != [] && t != []
    requires forall x: nat :: x in s <==> x in t
    ensures s[0] == t[0]
  {
    assert s[0] in s && t[0] in t;
    var i :| 0 <= i < |t| && t[i] == s[0];
    var j :| 0 <= j < |s| && s[j] == t[0];
  }

  lemma {:induction false} AscendingUnique(s: seq<nat>, t: seq<nat>)
    requires Ascending(s) && Ascending(t)
    requires forall x: nat :: x in s <==> x in t
    ensures s == t
  {
    assert s != [] ==> s[0] in s;
    assert t != [] ==> t[0] in t;
    if s != [] && t != [] {
      AscendingHeads(s, t);
      assert s == [s[0]] + s[1..] && t == [t[0]] + t[1..];
      forall x: nat ensures x in s[1..] <==> x in t[1..] {
        TailMembers(s, x);
        TailMembers(t, x);
      }
      AscendingUnique(s[1..], t[1..]);
    }
  }

  lemma {:induction false} TailMembers(s: seq<nat>, x: nat)
    requires Ascending(s) && s != []
    ensures x in s[1..] <==> x in s && x != s[0]
  {
    if x in s && x != s[0] {
      var i :| 0 <= i < |s| && s[i] == x;
      assert s[1..][i - 1] == x;
    }
  }

  /** The components' first members, which are the segments with no earlier segment in their chain. */
  ghost function Firsts(comps: seq<seq<nat>>): seq<nat>
    requires forall c | 0 <= c < |comps| :: comps[c] != []
  {
    seq(|comps|, c requires 0 <= c < |comps| => comps[c][0])
  }

  ghost predicate Least(segs: seq<SegmentRange>, x: nat) {
    x < |segs| && forall y: nat | y < |segs| && Connected(segs, x, y) :: x <= y
  }

  lemma {:induction false} FirstsAreLeast(segs: seq<SegmentRange>, comps: seq<seq<nat>>, x: nat)
    requires IsComponents(segs, comps)
    ensures x in Firsts(comps) <==> Least(segs, x)
  {
    var firsts := Firsts(comps);
    if x in firsts {
      var c :| 0 <= c < |comps| && firsts[c] == x;
      assert x in comps[c];
      forall y: nat | y < |segs| && Connected(segs, x, y) ensures x <= y {
        assert Listed(comps, y);
        var d :| 0 <= d < |comps| && y in comps[d];
        assert c == d;
      }
    }
    if Least(segs, x) {
      assert Listed(comps, x);
      var c :| 0 <= c < |comps| && x in comps[c];
      var i :| 0 <= i < |comps[c]| && comps[c][i] == x;
      assert comps[c][0] in comps[c];
      assert Connected(segs, x, comps[c][0]);
      assert firsts[c] == x;
    }
  }

  /** There is only one such list: the specification leaves `OverlapComponents` no choice. */
  lemma {:induction false} ComponentsUnique(segs: seq<SegmentRange>, a: seq<seq<nat>>, b: seq<seq<nat>>)
    requires IsComponents(segs, a) && IsComponents(segs, b)
    ensures a == b
  {
    forall x: nat ensures x in Firsts(a) <==> x in Firsts(b) {
      FirstsAreLeast(segs, a, x);
      FirstsAreLeast(segs, b, x);
    }
    AscendingUnique(Firsts(a), Firsts(b));
    assert |a| == |b|;
    forall c | 0 <= c < |a| ensures a[c] == b[c] {
      assert Firsts(a)[c] == Firsts(b)[c];
      forall x: nat ensures x in a[c] <==> x in b[c] {
        ComponentMembers(segs, a, c, x);
        ComponentMembers(segs, b, c, x);
      }
      AscendingUnique(a[c], b[c]);
    }
  }

  lemma {:induction false} ComponentMembers(segs: seq<SegmentRange>, comps: seq<seq<nat>>, c: nat, x: nat)
    requires IsComponents(segs, comps) && c < |comps|
    ensures x in comps[c] <==> x < |segs| && Connected(segs, comps[c][0], x)
  {
    assert comps[c][0] in comps[c];
    if x < |segs| && Connected(segs, comps[c][0], x) {
      assert Listed(comps, x);
      var d :| 0 <= d < |comps| && x in comps[d];
    }
  }

  // ---- Segments without bounds ----

  ghost predicate Together(comps: seq<seq<nat>>, x: nat, y: nat) {
    exists c | 0 <= c < |comps| :: x in comps[c] && y in comps[c]
  }

  ghost predicate KeepsSharersTogether(segs: seq<SegmentRange>, comps: seq<seq<nat>>) {
    forall x, y | 0 <= x < |segs| && 0 <= y < |segs| && MayShareKeys(segs[x], segs[y]) :: Together(comps, x, y)
  }

  ghost predicate UnboundedApart(segs: seq<SegmentRange>) {
    forall x, y | 0 <= x < |segs| && 0 <= y < |segs| && segs[x].bounds == [] && segs[y].bounds == [] ::
      x == y || !MayShareKeys(segs[x], segs[y])
  }

  /** The sweep skips segments without bounds, and the test is vacuously true of two of them. So all
      segments that may share a key end up together exactly when no two segments without bounds may. */
  lemma {:induction false} SharersTogetherIffUnboundedApart(segs: seq<SegmentRange>, comps: seq<seq<nat>>)
    requires IsComponents(segs, comps)
    ensures KeepsSharersTogether(segs, comps) <==> UnboundedApart(segs)
  {
    if UnboundedApart(segs) {
      forall x, y | 0 <= x < |segs| && 0 <= y < |segs| && MayShareKeys(segs[x], segs[y])
        ensures Together(comps, x, y)
      {
        assert Listed(comps, x) && Listed(comps, y);
        var c :| 0 <= c < |comps| && x in comps[c];
        var d :| 0 <= d < |comps| && y in comps[d];
        if segs[x].bounds == [] {
          assert x == y;
        } else {
          ConnectedEdge(segs, x, y);
        }
      }
    }
    if KeepsSharersTogether(segs, comps) {
      forall x, y | 0 <= x < |segs| && 0 <= y < |segs| && segs[x].bounds == [] && segs[y].bounds == []
        ensures x == y || !MayShareKeys(segs[x], segs[y])
      {
        if MayShareKeys(segs[x], segs[y]) {
          assert Together(comps, x, y);
          assert Connected(segs, x, y);
          UnboundedIsolated(segs, x, y);
        }
      }
    }
  }

  lemma {:induction false} UnboundedIsolated(segs: seq<SegmentRange>, x: nat, y: nat)
    requires x < |segs| && segs[x].bounds == [] && Connected(segs, x, y)
    ensures x == y
  {
    var p :| Joins(segs, p, x, y);
    assert |p| > 1 ==> Edge(segs, p[0], p[0 + 1]);
  }

  /** Compaction only plans when every listed segment has bounds, and then all sharers end up together. */
  lemma {:induction false} BoundedSharersTogether(segs: seq<SegmentRange>, comps: seq<seq<nat>>)
    requires IsComponents(segs, comps) && AllBounded(segs)
    ensures KeepsSharersTogether(segs, comps)
  {
    hide MayShareKeys, IsComponents, KeepsSharersTogether;
    SharersTogetherIffUnboundedApart(segs, comps);
  }

  /** That refusal is needed. Two segments without bounds: the test says they may share a key, the components keep them
      apart. */
  lemma {:induction false} UnboundedPairSplit(comps: seq<seq<nat>>)
    requires var blank := SegmentRange(1, [], None); IsComponents([blank, blank], comps)
    ensures var blank := SegmentRange(1, [], None); MayShareKeys(blank, blank) && !Together(comps, 0, 1)
  {
    var segs := [SegmentRange(1, [], None), SegmentRange(1, [], None)];
    if Together(comps, 0, 1) {
      assert Connected(segs, 0, 1);
      UnboundedIsolated(segs, 0, 1);
    }
  }

  // ---- Disjointness with a pair budget ----

  predicate AllBounded(segs: seq<SegmentRange>) {
    forall i | 0 <= i < |segs| :: segs[i].bounds != []
  }

  predicate PairwiseApart(segs: seq<SegmentRange>) {
    forall i, j | 0 <= i < j < |segs| :: !MayShareKeys(segs[j], segs[i])
  }

  /** Pairs of segments whose first-column intervals meet, up to segment `n`. */
  ghost function LeadPairs(segs: seq<SegmentRange>, n: nat): nat
    requires n <= |segs| && forall i | 0 <= i < n :: segs[i].bounds != []
  {
    if n == 0 then 0 else LeadPairs(segs, n - 1) + |LeadSet(segs, n - 1)|
  }

  lemma {:induction false} AscendingCardinality(s: seq<nat>, members: set<nat>)
    requires Ascending(s) && forall x: nat :: x in s <==> x in members
    ensures |s| == |members|
  {
    if s == [] {
      assert members == {};
    } else {
      forall x: nat ensures x in s[1..] <==> x in members - {s[0]} {
        TailMembers(s, x);
      }
      AscendingCardinality(s[1..], members - {s[0]});
      assert s[0] in s;
    }
  }

  lemma {:induction false} LeadPairsAtMostAllPairs(segs: seq<SegmentRange>, n: nat)
    requires n <= |segs| && forall i | 0 <= i < n :: segs[i].bounds != []
    ensures LeadPairs(segs, n) <= n * (n - 1) / 2
  {
    if n > 0 {
      LeadPairsAtMostAllPairs(segs, n - 1);
      BelowCardinality(LeadSet(segs, n - 1), n - 1);
      assert n * (n - 1) == (n - 1) * (n - 2) + 2 * (n - 1);
    }
  }

  lemma {:induction false} BelowCardinality(s: set<nat>, n: nat)
    requires forall x | x in s :: x < n
    ensures |s| <= n
  {
    if n == 0 {
      assert s == {};
    } else {
      BelowCardinality(s - {n - 1}, n - 1);
    }
  }

  lemma {:induction false} LeadPairsMonotonic(segs: seq<SegmentRange>, m: nat, n: nat)
    requires m <= n <= |segs| && forall i | 0 <= i < n :: segs[i].bounds != []
    ensures LeadPairs(segs, m) <= LeadPairs(segs, n)
    decreases n
  {
    if m < n {
      LeadPairsMonotonic(segs, m, n - 1);
    }
  }

  datatype Scan = NoneShares | Shares | OverBudget

  /** Compares one segment with the active ones, counting every comparison. */
  method ScanActive(segs: seq<SegmentRange>, index: nat, active: seq<nat>, examined: nat, maxPairs: nat)
    returns (verdict: Scan, total: nat)
    requires Bounded(segs, index) && (forall j | j in active :: Bounded(segs, j)) && examined <= maxPairs
    ensures verdict == NoneShares ==> total == examined + |active| <= maxPairs
    ensures verdict == NoneShares ==> forall j | j in active :: !Edge(segs, index, j)
    ensures verdict == Shares ==> exists j | j in active :: Edge(segs, index, j)
    ensures verdict == OverBudget ==> examined + |active| > maxPairs
  {
    total := examined;
    for t := 0 to |active|
      invariant total == examined + t <= maxPairs
      invariant forall j | j in active[..t] :: !Edge(segs, index, j)
    {
      assert active[t] in active && active[..t + 1] == active[..t] + [active[t]];
      total := total + 1;
      if total > maxPairs {
        return OverBudget, total;
      }
      if MayShareKeys(segs[index], segs[active[t]]) {
        assert Edge(segs, index, active[t]);
        return Shares, total;
      }
    }
    assert active[..|active|] == active;
    verdict := NoneShares;
  }

  ghost predicate BoundedBefore(segs: seq<SegmentRange>, n: nat) {
    n <= |segs| && forall i | 0 <= i < n :: segs[i].bounds != []
  }

  ghost predicate ApartBefore(segs: seq<SegmentRange>, n: nat) {
    n <= |segs| && forall i, j | 0 <= i < j < n :: !MayShareKeys(segs[j], segs[i])
  }

  lemma {:induction false} ApartStep(segs: seq<SegmentRange>, n: nat, active: seq<nat>)
    requires ApartBefore(segs, n) && Bounded(segs, n) && BoundedBefore(segs, n)
    requires forall j | j in active :: !Edge(segs, n, j)
    requires forall j: nat :: j in active <==> j in LeadSet(segs, n)
    ensures ApartBefore(segs, n + 1)
  {
    forall i | 0 <= i < n ensures !MayShareKeys(segs[n], segs[i]) {
      if MayShareKeys(segs[n], segs[i]) {
        OnlyLeadSetShares(segs, n, i);
      }
    }
  }

  /** A justified answer once the first `n` segments have been looked at. */
  ghost predicate Justified(segs: seq<SegmentRange>, n: nat, maxPairs: nat, r: Option<bool>) {
    match r
    case Some(true) => BoundedBefore(segs, n) && ApartBefore(segs, n) && LeadPairs(segs, n) <= maxPairs
    case Some(false) => !PairwiseApart(segs)
    case None => AllBounded(segs) ==> LeadPairs(segs, |segs|) > maxPairs
  }

  method DisjointStep(segs: seq<SegmentRange>, index: nat, active: seq<nat>, examined: nat, maxPairs: nat)
    returns (r: Option<bool>, kept: seq<nat>, total: nat)
    requires SortedByLead(segs) && index < |segs| && ActiveFor(segs, active, index)
    requires Justified(segs, index, maxPairs, Some(true)) && examined == LeadPairs(segs, index)
    ensures Justified(segs, index + 1, maxPairs, r)
    ensures r == Some(true) ==> ActiveFor(segs, kept, index + 1) && total == LeadPairs(segs, index + 1)
  {
    hide ActiveFor, SortedByLead;
    kept, total := active, examined;
    if segs[index].bounds == [] {
      r := None;
    } else {
      kept := Retain(segs, active, index);
      AscendingCardinality(kept, LeadSet(segs, index));
      var verdict;
      verdict, total := ScanActive(segs, index, kept, examined, maxPairs);
      match verdict
      case OverBudget =>
        if AllBounded(segs) {
          LeadPairsMonotonic(segs, index + 1, |segs|);
        }
        r := None;
      case Shares =>
        r := Some(false);
      case NoneShares =>
        ApartStep(segs, index, kept);
        kept := kept + [index];
        r := Some(true);
    }
  }

  /** Whether no key can be in two segments; `None` when a segment has no bounds or more than
      `maxPairs` first-column-overlapping pairs would have to be looked at. */
  method KeysDisjoint(segs: seq<SegmentRange>, maxPairs: nat) returns (r: Option<bool>)
    requires SortedByLead(segs)
    ensures r == Some(true) <==>
            AllBounded(segs) && PairwiseApart(segs) && LeadPairs(segs, |segs|) <= maxPairs
    ensures r == Some(false) ==> !PairwiseApart(segs)
    ensures r == None ==> !AllBounded(segs) || LeadPairs(segs, |segs|) > maxPairs
  {
    var active: seq<nat>, examined: nat, index := [], 0, 0;
    r := Some(true);
    while index < |segs| && r == Some(true)
      invariant 0 <= index <= |segs| && Justified(segs, index, maxPairs, r)
      invariant r == Some(true) ==> ActiveFor(segs, active, index) && examined == LeadPairs(segs, index)
    {
      r, active, examined := DisjointStep(segs, index, active, examined, maxPairs);
      index := index + 1;
    }
  }

  /** `Some(true)` proves what scans rely on: a key is held by at most one segment. */
  lemma {:induction false} DisjointMeansOneHolder(segs: seq<SegmentRange>, i: nat, j: nat, key: KeyTuple)
    requires PairwiseApart(segs) && i < |segs| && j < |segs|
    requires CoversKey(segs[i], key) && CoversKey(segs[j], key)
    ensures i == j
  {
    SharedKeyMayShare(segs[i], segs[j], key);
    SharedKeyMayShare(segs[j], segs[i], key);
  }

  // ---- In terms of the keys ----

  ghost predicate AllExact(segs: seq<SegmentRange>, keys: seq<seq<KeyTuple>>, n: nat) {
    |segs| == |keys| && forall i | 0 <= i < |segs| :: |segs[i].bounds| == n && ExactFor(segs[i], keys[i])
  }

  ghost predicate SeparatedAt(segs: seq<SegmentRange>, keys: seq<seq<KeyTuple>>, n: nat, i: nat, j: nat)
    requires AllExact(segs, keys, n) && i < |segs| && j < |segs|
  {
    Separated(keys[i], keys[j], n, segs[i].tuple.Some? && segs[j].tuple.Some?)
  }

  /** The disjointness test finds no sharing pair exactly when every two segments' keys are separated. */
  lemma {:induction false} ApartIffSeparated(segs: seq<SegmentRange>, keys: seq<seq<KeyTuple>>, n: nat)
    requires AllExact(segs, keys, n)
    ensures PairwiseApart(segs) <==> forall i, j | 0 <= i < j < |segs| :: SeparatedAt(segs, keys, n, j, i)
  {
    hide MayShareKeys, Separated, ExactFor;
    forall i, j | 0 <= i < j < |segs| ensures MayShareKeys(segs[j], segs[i]) <==> !SeparatedAt(segs, keys, n, j, i) {
      MayShareExactly(segs[j], keys[j], segs[i], keys[i]);
    }
  }

  /** Segments whose keys are separated pairwise are components of their own. */
  lemma {:induction false} SeparatedStandAlone(segs: seq<SegmentRange>, keys: seq<seq<KeyTuple>>, n: nat,
                                               comps: seq<seq<nat>>, c: nat)
    requires AllExact(segs, keys, n) && IsComponents(segs, comps) && c < |comps|
    requires forall i, j | 0 <= i < |segs| && 0 <= j < |segs| && i != j :: SeparatedAt(segs, keys, n, i, j)
    ensures |comps[c]| == 1
  {
    hide MayShareKeys, SeparatedAt, ExactFor;
    if |comps[c]| > 1 {
      var x, y := comps[c][0], comps[c][1];
      assert x in comps[c] && y in comps[c];
      assert Connected(segs, x, y);
      var p :| Joins(segs, p, x, y);
      forall i, j | 0 <= i < |segs| && 0 <= j < |segs| && i != j ensures !Edge(segs, i, j) {
        SeparatedHasNoEdge(segs, keys, n, i, j);
      }
      PathStandsStill(segs, p, |p| - 1);
      assert false;
    }
  }

  lemma {:induction false} SeparatedHasNoEdge(segs: seq<SegmentRange>, keys: seq<seq<KeyTuple>>, n: nat, i: nat, j: nat)
    requires AllExact(segs, keys, n) && i < |segs| && j < |segs| && SeparatedAt(segs, keys, n, i, j)
    ensures !Edge(segs, i, j)
  {
    hide Separated, ExactFor;
    MayShareExactly(segs[i], keys[i], segs[j], keys[j]);
  }

  lemma {:induction false} PathStandsStill(segs: seq<SegmentRange>, p: seq<nat>, t: nat)
    requires IsPath(segs, p) && t < |p|
    requires forall i, j | 0 <= i < |segs| && 0 <= j < |segs| && i != j :: !Edge(segs, i, j)
    ensures p[t] == p[0]
  {
    hide Edge;
    if t > 0 {
      PathStandsStill(segs, p, t - 1);
      assert Edge(segs, p[t - 1], p[t - 1 + 1]);
    }
  }
}
