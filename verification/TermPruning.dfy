/** The exclusion query over stored filters, and why a listed segment holds no matching row. */
module TermPruning {
  import opened Bytes
  import opened Terms
  import opened JsonTerms
  import opened ArrayLiteral
  import opened TermFilter
  import opened ValueSummary
  import QueryCnf
  import TsQuery
  import TsQueryClauses
  import TsVector

  // ---- Filters of whole segments ----

  /** A batch of a segment's rows, with the filtered column if the batch has it as strings. */
  datatype Batch = Batch(rows: nat, column: Option<seq<Option<string>>>)

  ghost predicate ValidBatch(b: Batch) {
    b.column.Some? ==> |b.column.value| == b.rows
  }

  ghost function AllValues(batches: seq<Batch>): seq<Option<string>>
    requires forall b | b in batches :: b.column.Some?
  {
    if batches == [] then [] else AllValues(batches[..|batches| - 1]) + batches[|batches| - 1].column.value
  }

  ghost predicate HasColumn(batches: seq<Batch>) {
    forall b | b in batches :: b.column.Some?
  }

  /** The bitmap covers every value of the column: what a stored filter promises. */
  ghost predicate Summarizes(lib: Lib, kind: Kind, values: seq<Option<string>>, bitmap: Bitmap) {
    && bitmap != []
    && forall i, t | 0 <= i < |values| && values[i].Some? && HasTerm(lib, kind, values[i].value, t) ::
         Bit(bitmap, lib.hash(t) % (8 * |bitmap|))
  }

  ghost predicate HasTerm(lib: Lib, kind: Kind, text: string, t: Term) {
    ValueTerms(lib, kind, text).Some? && t in ValueTerms(lib, kind, text).value
  }

  lemma {:induction false} CollectedSummarizes(lib: Lib, kind: Kind, values: seq<Option<string>>, hashes: set<nat>,
                                               bitmap: Bitmap)
    requires Collected(lib, kind, values, hashes) && HoldsExactly(bitmap, hashes)
    ensures Summarizes(lib, kind, values, bitmap) && Readable(lib, kind, values)
  {
    hide ValueTerms, Bit;
    forall i, t | 0 <= i < |values| && values[i].Some? && HasTerm(lib, kind, values[i].value, t)
      ensures Bit(bitmap, lib.hash(t) % (8 * |bitmap|))
    {
      var h, bits := lib.hash(t), 8 * |bitmap|;
      assert h in Hashed(lib, ValueTerms(lib, kind, values[i].value).value);
      assert h in hashes;
      assert Claims(hashes, h % bits, bits);
    }
  }

  /** The filter of a segment rebuilt from its batches. There is one only if every batch had the column and every value
      could be read, and it then covers them all. */
  method RebuildTermFilter(lib: Lib, kind: Kind, batches: seq<Batch>) returns (summary: Option<Bitmap>, rows: nat)
    requires forall b | b in batches :: ValidBatch(b)
    ensures summary.Some? ==> HasColumn(batches) && |AllValues(batches)| == rows
    ensures summary.Some? ==> Readable(lib, kind, AllValues(batches))
    ensures summary.Some? ==> Summarizes(lib, kind, AllValues(batches), summary.value)
  {
    hide Collected, HoldsExactly, Readable, Summarizes;
    var builder := new TermFilterBuilder(lib, kind);
    rows := 0;
    for k := 0 to |batches|
      invariant builder.lib == lib && builder.kind == kind
      invariant builder.complete ==> HasColumn(batches[..k])
      invariant HasColumn(batches[..k]) ==> builder.Covers(AllValues(batches[..k])) && rows == |AllValues(batches[..k])|
    {
      var b := batches[k];
      assert b in batches && ValidBatch(b);
      assert batches[..k + 1][..k] == batches[..k] && batches[..k + 1][k] == b;
      assert HasColumn(batches[..k + 1]) <==> HasColumn(batches[..k]) && b.column.Some? by {
        assert batches[..k + 1] == batches[..k] + [b];
      }
      rows := rows + b.rows;
      ghost var seen := if HasColumn(batches[..k]) then AllValues(batches[..k]) else [];
      builder.AddBatch(b.column, seen);
    }
    assert batches[..|batches|] == batches;
    summary := builder.Finish(rows);
    if summary.Some? {
      CollectedSummarizes(lib, kind, AllValues(batches), builder.hashes, summary.value);
    }
  }

  // ---- The exclusion query ----

  /** One row of the probe: a term's hash and the clause it belongs to. */
  datatype ProbeRow = ProbeRow(hash: nat, clause: nat)

  /** The probe rows of the first clauses, numbered from `first`. */
  function ProbeRows(lib: Lib, clauses: Clauses): seq<ProbeRow> {
    if clauses == [] then []
    else ProbeRows(lib, clauses[..|clauses| - 1]) + ClauseRows(lib, clauses[|clauses| - 1], |clauses| - 1)
  }

  function ClauseRows(lib: Lib, terms: seq<Term>, clause: nat): seq<ProbeRow> {
    seq(|terms|, i requires 0 <= i < |terms| => ProbeRow(lib.hash(terms[i]), clause))
  }

  /** Some clause present in the probe has no term whose bit is set. */
  ghost predicate SomeClauseAbsent(bitmap: Bitmap, probe: seq<ProbeRow>)
    requires bitmap != []
  {
    exists c | c in probe :: ClauseAbsent(bitmap, probe, c.clause)
  }

  ghost predicate ClauseAbsent(bitmap: Bitmap, probe: seq<ProbeRow>, clause: nat)
    requires bitmap != []
  {
    forall p | p in probe && p.clause == clause :: !Bit(bitmap, p.hash % (8 * |bitmap|))
  }

  datatype IndexRow = IndexRow(table: nat, path: string, active: bool, column: nat, summary: Option<Bitmap>)

  /** Paths of active segments of `table` whose filter on `column` rules the probe out. */
  ghost function ExcludedPaths(index: set<IndexRow>, table: nat, column: nat, probe: seq<ProbeRow>): set<string>
    requires forall r | r in index && r.summary.Some? :: r.summary.value != []
  {
    set r | r in index && r.table == table && r.column == column && r.active && r.summary.Some? &&
            SomeClauseAbsent(r.summary.value, probe) :: r.path
  }

  lemma {:induction false} ProbeRowsOf(lib: Lib, clauses: Clauses, p: ProbeRow)
    ensures p in ProbeRows(lib, clauses)
       <==> p.clause < |clauses| && exists t | t in clauses[p.clause] :: lib.hash(t) == p.hash
  {
    if clauses != [] {
      var init, last, n := clauses[..|clauses| - 1], clauses[|clauses| - 1], |clauses| - 1;
      ProbeRowsOf(lib, init, p);
      ClauseRowsOf(lib, last, n, p);
      assert p in ProbeRows(lib, clauses) <==> p in ProbeRows(lib, init) || p in ClauseRows(lib, last, n);
    }
  }

  lemma {:induction false} ClauseRowsOf(lib: Lib, terms: seq<Term>, clause: nat, p: ProbeRow)
    ensures p in ClauseRows(lib, terms, clause)
       <==> p.clause == clause && exists t | t in terms :: lib.hash(t) == p.hash
  {
    var rows := ClauseRows(lib, terms, clause);
    if p in rows {
      var i :| 0 <= i < |rows| && rows[i] == p;
      assert terms[i] in terms;
    }
    if t :| p.clause == clause && t in terms && lib.hash(t) == p.hash {
      var i :| 0 <= i < |terms| && terms[i] == t;
      assert rows[i] == p;
    }
  }

  /** The value at `i` satisfies the clauses only if the segment is not ruled out. */
  lemma {:induction false} AbsentClauseRulesOut(lib: Lib, kind: Kind, values: seq<Option<string>>, bitmap: Bitmap,
                                                clauses: Clauses, i: nat)
    requires Summarizes(lib, kind, values, bitmap) && SomeClauseAbsent(bitmap, ProbeRows(lib, clauses))
    requires i < |values| && values[i].Some? && ValueTerms(lib, kind, values[i].value).Some?
    ensures !Satisfies(ValueTerms(lib, kind, values[i].value).value, clauses)
  {
    hide ValueTerms, Bit, ProbeRows;
    var terms, probe := ValueTerms(lib, kind, values[i].value).value, ProbeRows(lib, clauses);
    var c :| c in probe && ClauseAbsent(bitmap, probe, c.clause);
    ProbeRowsOf(lib, clauses, c);
    var clause := clauses[c.clause];
    forall t | t in clause ensures t !in terms {
      var p := ProbeRow(lib.hash(t), c.clause);
      ProbeRowsOf(lib, clauses, p);
      assert !Bit(bitmap, p.hash % (8 * |bitmap|));
      assert !HasTerm(lib, kind, values[i].value, t);
    }
    assert !Hits(terms, clause);
  }

  /** Satisfying clauses means satisfying any first few of them, so a truncated probe stays sound. */
  lemma {:induction false} FewerClauses(terms: set<Term>, clauses: Clauses, limit: nat)
    requires Satisfies(terms, clauses) && limit <= |clauses|
    ensures Satisfies(terms, clauses[..limit])
  {
    forall i | 0 <= i < limit ensures Hits(terms, clauses[..limit][i]) {
      assert Hits(terms, clauses[i]);
    }
  }

  /** A search over a column of one kind: the index rows of active and other segments, the values stored at each path,
      the predicate's clauses and how many of them are sent. */
  datatype Search = Search(kind: Kind, index: set<IndexRow>, table: nat, column: nat,
                           stored: string -> seq<Option<string>>, clauses: Clauses, limit: nat)

  /** Every filter stored for the column was built from the values at its path. */
  ghost predicate FiltersHold(lib: Lib, s: Search) {
    forall r | r in s.index && r.summary.Some? && r.table == s.table && r.column == s.column ::
      Summarizes(lib, s.kind, s.stored(r.path), r.summary.value) && Readable(lib, s.kind, s.stored(r.path))
  }

  /** The exclusion query returns the path. */
  ghost predicate Excluded(lib: Lib, s: Search, path: string) {
    && s.limit <= |s.clauses| && (forall r | r in s.index && r.summary.Some? :: r.summary.value != [])
    && path in ExcludedPaths(s.index, s.table, s.column, ProbeRows(lib, s.clauses[..s.limit]))
  }

  /** No value stored at a path the query returns satisfies the clauses, whatever the hash, the bitmap sizes and the
      number of clauses sent. */
  lemma {:induction false} ExcludedHasNoMatch(lib: Lib, s: Search, path: string, i: nat)
    requires FiltersHold(lib, s) && Excluded(lib, s, path) && i < |s.stored(path)| && s.stored(path)[i].Some?
    ensures ValueTerms(lib, s.kind, s.stored(path)[i].value).Some?
    ensures !Satisfies(ValueTerms(lib, s.kind, s.stored(path)[i].value).value, s.clauses)
  {
    hide ValueTerms, Summarizes, SomeClauseAbsent, ProbeRows, Satisfies;
    var values, probe := s.stored(path), ProbeRows(lib, s.clauses[..s.limit]);
    var r :| r in s.index && r.path == path && r.table == s.table && r.column == s.column && r.summary.Some?
             && SomeClauseAbsent(r.summary.value, probe);
    AbsentClauseRulesOut(lib, s.kind, values, r.summary.value, s.clauses[..s.limit], i);
    if Satisfies(ValueTerms(lib, s.kind, values[i].value).value, s.clauses) {
      FewerClauses(ValueTerms(lib, s.kind, values[i].value).value, s.clauses, s.limit);
    }
  }

  /** The bitmap holds exactly the hashes of the terms stored at the path. */
  ghost predicate FilterExact(lib: Lib, s: Search, r: IndexRow) {
    r.summary.Some? && exists hashes ::
      Collected(lib, s.kind, s.stored(r.path), hashes) && HoldsExactly(r.summary.value, hashes)
  }

  /** No value stored at the path has a term whose hash falls on the same bit as that of a term of the clause. */
  ghost predicate ClauseMisses(lib: Lib, s: Search, r: IndexRow, clause: seq<Term>)
    requires r.summary.Some? && r.summary.value != []
  {
    forall t, i, u | t in clause && 0 <= i < |s.stored(r.path)| && s.stored(r.path)[i].Some?
                     && HasTerm(lib, s.kind, s.stored(r.path)[i].value, u) ::
      lib.hash(t) % (8 * |r.summary.value|) != lib.hash(u) % (8 * |r.summary.value|)
  }

  lemma {:induction false} BitOfTerm(lib: Lib, s: Search, r: IndexRow, t: Term)
    requires FilterExact(lib, s, r)
    ensures r.summary.value != []
    ensures Bit(r.summary.value, lib.hash(t) % (8 * |r.summary.value|)) <==> !ClauseMisses(lib, s, r, [t])
  {
    hide ValueTerms, Bit;
    var values, bitmap := s.stored(r.path), r.summary.value;
    var hashes :| Collected(lib, s.kind, values, hashes) && HoldsExactly(bitmap, hashes);
    var bits := 8 * |bitmap|;
    if Bit(bitmap, lib.hash(t) % bits) {
      assert Claims(hashes, lib.hash(t) % bits, bits);
      var h :| h in hashes && h % bits == lib.hash(t) % bits;
      assert FromSomeValue(lib, s.kind, values, h);
      var i :| 0 <= i < |values| && values[i].Some? && ValueTerms(lib, s.kind, values[i].value).Some?
               && h in Hashed(lib, ValueTerms(lib, s.kind, values[i].value).value);
      var u :| u in ValueTerms(lib, s.kind, values[i].value).value && lib.hash(u) == h;
      assert HasTerm(lib, s.kind, values[i].value, u) && t in [t];
    }
    if !ClauseMisses(lib, s, r, [t]) {
      var i, u :| 0 <= i < |values| && values[i].Some? && HasTerm(lib, s.kind, values[i].value, u)
                  && lib.hash(t) % bits == lib.hash(u) % bits;
      assert lib.hash(u) in Hashed(lib, ValueTerms(lib, s.kind, values[i].value).value);
      assert Claims(hashes, lib.hash(t) % bits, bits);
    }
  }

  /** A filter rules the probe out exactly when some non-empty clause that was sent misses every stored term. */
  lemma {:induction false} AbsentExactly(lib: Lib, s: Search, r: IndexRow, clauses: Clauses)
    requires r.summary.Some? && r.summary.value != [] && FilterExact(lib, s, r)
    ensures SomeClauseAbsent(r.summary.value, ProbeRows(lib, clauses))
       <==> exists c | 0 <= c < |clauses| :: clauses[c] != [] && ClauseMisses(lib, s, r, clauses[c])
  {
    hide Bit, ProbeRows, ClauseMisses, FilterExact;
    var bitmap, probe := r.summary.value, ProbeRows(lib, clauses);
    forall c | 0 <= c < |clauses|
      ensures ClauseMisses(lib, s, r, clauses[c]) <==> ClauseAbsent(bitmap, probe, c)
    {
      MissesIffAbsent(lib, s, r, clauses, c);
    }
    if p :| p in probe && ClauseAbsent(bitmap, probe, p.clause) {
      ProbeRowsOf(lib, clauses, p);
      assert clauses[p.clause] != [];
    }
    if c :| 0 <= c < |clauses| && clauses[c] != [] && ClauseMisses(lib, s, r, clauses[c]) {
      var p := ProbeRow(lib.hash(clauses[c][0]), c);
      assert clauses[c][0] in clauses[c];
      ProbeRowsOf(lib, clauses, p);
      assert p in probe && ClauseAbsent(bitmap, probe, p.clause);
    }
  }

  lemma {:induction false} MissesIffAbsent(lib: Lib, s: Search, r: IndexRow, clauses: Clauses, c: nat)
    requires r.summary.Some? && r.summary.value != [] && FilterExact(lib, s, r) && c < |clauses|
    ensures ClauseMisses(lib, s, r, clauses[c]) <==> ClauseAbsent(r.summary.value, ProbeRows(lib, clauses), c)
  {
    hide Bit, ProbeRows, FilterExact, HasTerm;
    var bitmap, probe := r.summary.value, ProbeRows(lib, clauses);
    forall t | t in clauses[c]
      ensures !Bit(bitmap, lib.hash(t) % (8 * |bitmap|)) <==> ClauseMisses(lib, s, r, [t])
    {
      BitOfTerm(lib, s, r, t);
    }
    if ClauseMisses(lib, s, r, clauses[c]) {
      forall p | p in probe && p.clause == c ensures !Bit(bitmap, p.hash % (8 * |bitmap|)) {
        ProbeRowsOf(lib, clauses, p);
        var t :| t in clauses[c] && lib.hash(t) == p.hash;
        assert ClauseMisses(lib, s, r, [t]);
      }
    }
    if ClauseAbsent(bitmap, probe, c) {
      forall t | t in clauses[c] ensures ClauseMisses(lib, s, r, [t]) {
        ProbeRowsOf(lib, clauses, ProbeRow(lib.hash(t), c));
      }
      assert forall t | t in clauses[c] :: t in [t] && ClauseMisses(lib, s, r, [t]);
    }
  }

  /** Exactly which paths the query returns, for filters built from the stored values: those of active segments with a
      filter on the column that some non-empty clause sent misses. */
  lemma {:induction false} ExcludedExactly(lib: Lib, s: Search, path: string)
    requires s.limit <= |s.clauses| && (forall r | r in s.index && r.summary.Some? :: r.summary.value != [])
    requires forall r | r in s.index && r.summary.Some? && r.table == s.table && r.column == s.column ::
               FilterExact(lib, s, r)
    ensures Excluded(lib, s, path)
       <==> exists r, c | r in s.index && 0 <= c < s.limit ::
              && r.path == path && r.table == s.table && r.column == s.column && r.active && r.summary.Some?
              && s.clauses[c] != [] && ClauseMisses(lib, s, r, s.clauses[c])
  {
    hide ProbeRows, SomeClauseAbsent, ClauseMisses, FilterExact;
    var sent := s.clauses[..s.limit];
    forall r | r in s.index && r.summary.Some? && r.table == s.table && r.column == s.column
      ensures SomeClauseAbsent(r.summary.value, ProbeRows(lib, sent))
         <==> exists c | 0 <= c < s.limit :: s.clauses[c] != [] && ClauseMisses(lib, s, r, s.clauses[c])
    {
      AbsentExactly(lib, s, r, sent);
      assert forall c | 0 <= c < s.limit :: sent[c] == s.clauses[c];
    }
  }

  // ---- Which segments a scan then skips ----

  /** A segment's object is found among the excluded paths by the end of its name. */
  predicate InExcluded(name: string, excluded: set<string>) {
    exists p | p in excluded :: EndsWith(name, p)
  }

  /** `name` is `p` with nothing, or whole directories, in front. */
  predicate EndsWith(name: string, p: string) {
    && |p| <= |name| && name[|name| - |p|..] == p
    && (|p| == |name| || name[|name| - |p| - 1] == '/')
  }

  /** `name` is `p` in some directory. */
  ghost predicate Under(name: string, p: string) {
    exists dir: string :: (dir == "" || dir[|dir| - 1] == '/') && name == dir + p
  }

  lemma {:induction false} EndsWithExactly(name: string, p: string)
    ensures EndsWith(name, p) <==> Under(name, p)
  {
    if EndsWith(name, p) {
      var dir := name[..|name| - |p|];
      assert name == dir + p;
    }
    if dir: string :| (dir == "" || dir[|dir| - 1] == '/') && name == dir + p {
      assert name[|name| - |p|..] == p;
    }
  }

  /** The scan skips a segment exactly when its own path was returned, as long as no segment's path is another's with
      directories in front; distinct file names see to that. */
  lemma {:induction false} SkippedIffExcluded(prefix: string, path: string, paths: set<string>, excluded: set<string>)
    requires prefix == "" || prefix[|prefix| - 1] == '/'
    requires path in paths && excluded <= paths
    requires forall p, p' | p in paths && p' in paths && Under(p, p') :: p == p'
    ensures InExcluded(prefix + path, excluded) <==> path in excluded
  {
    var name := prefix + path;
    if path in excluded {
      assert name[|name| - |path|..] == path;
      assert EndsWith(name, path);
    }
    if p :| p in excluded && EndsWith(name, p) {
      if |p| <= |path| {
        assert path[|path| - |p|..] == name[|name| - |p|..];
        EndsWithExactly(path, p);
      } else {
        assert p[|p| - |path|..] == path;
        EndsWithExactly(p, path);
      }
    }
  }

  // ---- Arrays ----

  /** `items @> probe`: every probe element is a non-NULL element of the array. */
  ghost predicate ArrayContains(items: seq<Element>, probe: seq<Element>) {
    forall e | e in probe :: e.Some? && e in items
  }

  /** `items && probe`: they have a non-NULL element in common. */
  ghost predicate ArrayOverlaps(items: seq<Element>, probe: seq<Element>) {
    exists e | e in probe :: e.Some? && e in items
  }

  function ArrayContainsClauses(probe: seq<Element>): Option<Clauses> {
    if probe == [] || exists i | 0 <= i < |probe| :: probe[i].None? then None
    else Some(seq(|probe|, i requires 0 <= i < |probe| => PresentTerm(probe[i])))
  }

  function PresentTerm(e: Element): seq<Term> {
    if e.Some? then [ArrayElementTerm(e.value)] else []
  }

  function PresentTerms(probe: seq<Element>): seq<Term> {
    if probe == [] then [] else PresentTerms(probe[..|probe| - 1]) + PresentTerm(probe[|probe| - 1])
  }

  function ArrayOverlapClauses(probe: seq<Element>): Option<Clauses> {
    if PresentTerms(probe) == [] then None else Some([PresentTerms(probe)])
  }

  lemma {:induction false} ContainingArraySatisfies(items: seq<Element>, probe: seq<Element>)
    requires ArrayContains(items, probe) && ArrayContainsClauses(probe).Some?
    ensures Satisfies(ElementTerms(items), ArrayContainsClauses(probe).value)
  {
    var clauses := ArrayContainsClauses(probe).value;
    forall i | 0 <= i < |clauses| ensures Hits(ElementTerms(items), clauses[i]) {
      assert probe[i] in probe;
      assert ArrayElementTerm(probe[i].value) in clauses[i];
    }
  }

  lemma {:induction false} ElementTermOf(items: seq<Element>, text: string)
    ensures ArrayElementTerm(text) in ElementTerms(items) <==> Some(text) in items
  {
    if ArrayElementTerm(text) in ElementTerms(items) {
      var e :| e in items && e.Some? && ArrayElementTerm(e.value) == ArrayElementTerm(text);
      assert ArrayElementTerm(e.value)[1..] == Utf8(e.value) && ArrayElementTerm(text)[1..] == Utf8(text);
      Utf8Injective(e.value, text);
    }
  }

  /** The clauses of `@>` say exactly what it asks: they exist for a non-empty probe without NULLs, and an array
      satisfies them if and only if it contains the probe. */
  lemma {:induction false} ContainsClausesExact(items: seq<Element>, probe: seq<Element>)
    ensures ArrayContainsClauses(probe).Some? <==> probe != [] && None !in probe
    ensures ArrayContainsClauses(probe).Some? ==>
              (Satisfies(ElementTerms(items), ArrayContainsClauses(probe).value) <==> ArrayContains(items, probe))
  {
    hide ArrayElementTerm;
    if ArrayContainsClauses(probe).Some? {
      var clauses := ArrayContainsClauses(probe).value;
      forall i | 0 <= i < |probe| ensures Hits(ElementTerms(items), clauses[i]) <==> probe[i] in items {
        assert probe[i] in probe && clauses[i] == [ArrayElementTerm(probe[i].value)];
        assert clauses[i][0] in clauses[i];
        ElementTermOf(items, probe[i].value);
      }
      if Satisfies(ElementTerms(items), clauses) {
        forall e | e in probe ensures e.Some? && e in items {
          var i :| 0 <= i < |probe| && probe[i] == e;
          assert Hits(ElementTerms(items), clauses[i]);
        }
      }
      if ArrayContains(items, probe) {
        ContainingArraySatisfies(items, probe);
      }
    }
  }

  /** The clause of `&&` likewise: it exists for a probe with an element that is not NULL. */
  lemma {:induction false} OverlapClauseExact(items: seq<Element>, probe: seq<Element>)
    ensures ArrayOverlapClauses(probe).Some? <==> exists e | e in probe :: e.Some?
    ensures ArrayOverlapClauses(probe).Some? ==>
              (Satisfies(ElementTerms(items), ArrayOverlapClauses(probe).value) <==> ArrayOverlaps(items, probe))
  {
    hide ArrayElementTerm;
    if e :| e in probe && e.Some? {
      PresentTermsHas(probe, e);
    }
    if PresentTerms(probe) != [] {
      assert PresentTerms(probe)[0] in PresentTerms(probe);
      var e := PresentTermsOnly(probe, PresentTerms(probe)[0]);
      if Satisfies(ElementTerms(items), [PresentTerms(probe)]) {
        assert Hits(ElementTerms(items), [PresentTerms(probe)][0]);
        var t :| t in PresentTerms(probe) && t in ElementTerms(items);
        var f := PresentTermsOnly(probe, t);
        ElementTermOf(items, f.value);
      }
      if ArrayOverlaps(items, probe) {
        OverlappingArraySatisfies(items, probe);
      }
    }
  }

  lemma {:induction false} PresentTermsOnly(probe: seq<Element>, t: Term) returns (e: Element)
    requires t in PresentTerms(probe)
    ensures e in probe && e.Some? && t == ArrayElementTerm(e.value)
  {
    hide ArrayElementTerm;
    var n := |probe| - 1;
    if t in PresentTerms(probe[..n]) {
      e := PresentTermsOnly(probe[..n], t);
    } else {
      e := probe[n];
    }
  }

  lemma {:induction false} PresentTermsHas(probe: seq<Element>, e: Element)
    requires e in probe && e.Some?
    ensures ArrayElementTerm(e.value) in PresentTerms(probe)
  {
    if e != probe[|probe| - 1] {
      PresentTermsHas(probe[..|probe| - 1], e);
    }
  }

  lemma {:induction false} OverlappingArraySatisfies(items: seq<Element>, probe: seq<Element>)
    requires ArrayOverlaps(items, probe)
    ensures ArrayOverlapClauses(probe).Some? && Satisfies(ElementTerms(items), ArrayOverlapClauses(probe).value)
  {
    var e :| e in probe && e.Some? && e in items;
    PresentTermsHas(probe, e);
    assert ArrayElementTerm(e.value) in ElementTerms(items);
  }

  /** `@>` and `&&` on `text[]`: an excluded segment stores no matching array. */
  lemma {:induction false} ExcludedHoldsNoMatchingArray(lib: Lib, s: Search, path: string, probe: seq<Element>, i: nat,
                                                      items: seq<Element>, lower: int)
    requires FiltersHold(lib, s) && Excluded(lib, s, path) && s.kind == TextArray
    requires i < |s.stored(path)| && s.stored(path)[i] == Some(LiteralText(items, lower))
    ensures ArrayContainsClauses(probe) == Some(s.clauses) ==> !ArrayContains(items, probe)
    ensures ArrayOverlapClauses(probe) == Some(s.clauses) ==> !ArrayOverlaps(items, probe)
  {
    hide ParseArray, LiteralText, ArrayContainsClauses, ArrayOverlapClauses, ArrayContains, ArrayOverlaps;
    WrittenArrayRead(lib.json, items, lower);
    ExcludedHasNoMatch(lib, s, path, i);
    if ArrayContains(items, probe) && ArrayContainsClauses(probe) == Some(s.clauses) {
      ContainingArraySatisfies(items, probe);
    }
    if ArrayOverlaps(items, probe) && ArrayOverlapClauses(probe) == Some(s.clauses) {
      OverlappingArraySatisfies(items, probe);
    }
  }

  // ---- Documents ----

  ghost predicate IsExistsProbe(keys: seq<string>, all: bool, clauses: Clauses) {
    && (all ==> |clauses| == |keys| && forall i | 0 <= i < |keys| :: clauses[i] == KeyClause(keys[i]))
    && (!all ==> |clauses| == 1 && forall k, t | k in keys && t in KeyClause(k) :: t in clauses[0])
  }

  ghost predicate KeysExist(doc: Json, keys: seq<string>, all: bool) {
    if all then forall k | k in keys :: KeyExists(doc, k) else exists k | k in keys :: KeyExists(doc, k)
  }

  /** `@>`, `?`, `?|` and `?&` on `jsonb`: an excluded segment stores no matching document. */
  lemma {:induction false} ExcludedHoldsNoMatchingDocument(lib: Lib, s: Search, path: string, i: nat, doc: Json,
                                                           probe: Json, keys: seq<string>, all: bool)
    requires FiltersHold(lib, s) && Excluded(lib, s, path) && s.kind == Jsonb
    requires i < |s.stored(path)| && s.stored(path)[i].Some?
    requires lib.json.parse(s.stored(path)[i].value) == Some(doc)
    ensures !Scalar(probe) && Canonical(lib.bits, probe) && s.clauses == ClausesOf(lib.bits, probe) ==>
            !ContainedIn(doc, probe)
    ensures IsExistsProbe(keys, all, s.clauses) ==> !KeysExist(doc, keys, all)
  {
    hide TermsOf, ClausesOf, Contains;
    ExcludedHasNoMatch(lib, s, path, i);
    if !Scalar(probe) && Canonical(lib.bits, probe) && s.clauses == ClausesOf(lib.bits, probe) && Contains(doc, probe) {
      ContainedTerms(lib.bits, doc, probe);
    }
    if IsExistsProbe(keys, all, s.clauses) && KeysExist(doc, keys, all) {
      ExistsClausesSound(lib.bits, doc, keys, all, s.clauses);
    }
  }

  // ---- Text search ----

  lemma {:induction false} SameLexemeTerms(lexemes: seq<string>, keys: set<string>)
    requires forall x :: x in lexemes <==> x in keys
    ensures LexemeTermsOf(lexemes) == QueryCnf.LexemeTerms(keys)
  {
    hide LexemeTerm;
  }

  /** `@@` on `tsvector`: an excluded segment stores no matching document. */
  lemma {:induction false} ExcludedHoldsNoMatchingVector(lib: Lib, s: Search, path: string, i: nat,
                                                         entries: seq<TsVector.Entry>, doc: TsQuery.Document,
                                                         q: TsQuery.Query)
    requires FiltersHold(lib, s) && Excluded(lib, s, path) && s.kind == Tsvector
    requires i < |s.stored(path)| && s.stored(path)[i] == Some(TsVector.VectorText(entries))
    requires forall e | e in entries :: TsVector.Weighted(e.occurrences)
    requires TsVector.Spells(entries, doc) && QueryCnf.FullCnf(TsQuery.NodeOf(q)) == Some(s.clauses)
    ensures !TsQuery.Matches(doc, q)
  {
    hide TsVector.ParseLexemes, TsVector.VectorText, QueryCnf.FullCnf, TsQuery.NodeOf, TsQuery.Matches;
    TsVector.PrintedVectorRead(entries);
    ExcludedHasNoMatch(lib, s, path, i);
    SameLexemeTerms(TsVector.Lexemes(entries), doc.Keys);
    if TsQuery.Matches(doc, q) {
      TsQueryClauses.ClausesSound(q, doc, s.clauses);
    }
  }
}
