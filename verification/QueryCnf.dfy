/** The clauses a `tsquery` is reduced to, and their equivalence with the query tree. */
module QueryCnf {
  import opened Bytes
  import opened Terms

  const MAX_QUERY_CLAUSES: nat := 64

  /** A query as far as pruning looks at it: `Unknown` stands for operands that prove nothing. */
  datatype QueryNode =
    | Lexeme(text: string)
    | Unknown
    | And(children: seq<QueryNode>)
    | Or(children: seq<QueryNode>)

  /** The node is true of a document with these lexemes, taking `Unknown` as true. */
  ghost predicate Holds(doc: set<string>, node: QueryNode) {
    match node
    case Lexeme(text) => text in doc
    case Unknown => true
    case And(children) => forall i | 0 <= i < |children| :: Holds(doc, children[i])
    case Or(children) => exists i | 0 <= i < |children| :: Holds(doc, children[i])
  }

  /** Every disjunction has a branch, as in every tree the parser builds. */
  ghost predicate WellFormed(node: QueryNode) {
    match node
    case Lexeme(_) => true
    case Unknown => true
    case And(children) => forall i | 0 <= i < |children| :: WellFormed(children[i])
    case Or(children) => children != [] && forall i | 0 <= i < |children| :: WellFormed(children[i])
  }

  ghost function LexemeTerms(doc: set<string>): set<Term> {
    set text | text in doc :: LexemeTerm(text)
  }

  // ---- The unbudgeted normal form ----

  /** Conjunctive normal form without a clause limit; `None` is no constraint at all. */
  ghost function FullCnf(node: QueryNode): Option<Clauses>
    decreases node, 1
  {
    match node
    case Lexeme(text) => Some([[LexemeTerm(text)]])
    case Unknown => None
    case And(children) => Some(AndCnf(children))
    case Or(children) => OrCnf(children)
  }

  ghost function AndCnf(children: seq<QueryNode>): Clauses
    decreases children, 0
  {
    if children == [] then []
    else
      var last := FullCnf(children[|children| - 1]);
      AndCnf(children[..|children| - 1]) + (if last.Some? then last.value else [])
  }

  ghost function OrCnf(children: seq<QueryNode>): Option<Clauses>
    decreases children, 0
  {
    if children == [] then Some([])
    else
      var rest, last := OrCnf(children[..|children| - 1]), FullCnf(children[|children| - 1]);
      if rest.None? || last.None? then None
      else if |children| == 1 then last
      else Some(Cross(rest.value, last.value))
  }

  /** Every clause of `a` joined with every clause of `b`, in order. */
  ghost function Cross(a: Clauses, b: Clauses): Clauses {
    if a == [] then [] else CrossOne(a[0], b) + Cross(a[1..], b)
  }

  ghost function CrossOne(left: seq<Term>, b: Clauses): Clauses {
    seq(|b|, j requires 0 <= j < |b| => left + b[j])
  }

  // ---- Clauses say what the tree says ----

  lemma {:induction false} HitsJoin(terms: set<Term>, a: seq<Term>, b: seq<Term>)
    ensures Hits(terms, a + b) <==> Hits(terms, a) || Hits(terms, b)
  {
    if Hits(terms, a + b) {
      var t :| t in a + b && t in terms;
      assert t in a || t in b;
    }
    if Hits(terms, a) {
      var t :| t in a && t in terms;
      assert t in a + b;
    }
    if Hits(terms, b) {
      var t :| t in b && t in terms;
      assert t in a + b;
    }
  }

  lemma {:induction false} CrossOneHolds(terms: set<Term>, left: seq<Term>, b: Clauses)
    ensures Satisfies(terms, CrossOne(left, b)) <==> Hits(terms, left) || Satisfies(terms, b)
  {
    var c := CrossOne(left, b);
    forall j | 0 <= j < |b| ensures Hits(terms, c[j]) <==> Hits(terms, left) || Hits(terms, b[j]) {
      HitsJoin(terms, left, b[j]);
    }
    if !Hits(terms, left) && !Satisfies(terms, b) {
      var j :| 0 <= j < |b| && !Hits(terms, b[j]);
      assert !Hits(terms, c[j]);
    }
  }

  /** A product of clause lists holds exactly when one of the two lists does. */
  lemma {:induction false} CrossHolds(terms: set<Term>, a: Clauses, b: Clauses)
    ensures Satisfies(terms, Cross(a, b)) <==> Satisfies(terms, a) || Satisfies(terms, b)
  {
    if a == [] {
      assert Satisfies(terms, a);
    } else {
      CrossOneHolds(terms, a[0], b);
      CrossHolds(terms, a[1..], b);
      SatisfiesConcat(terms, CrossOne(a[0], b), Cross(a[1..], b));
      SatisfiesConcat(terms, [a[0]], a[1..]);
      assert [a[0]] + a[1..] == a;
      SatisfiesOne(terms, a[0]);
    }
  }

  lemma {:induction false} SatisfiesOne(terms: set<Term>, clause: seq<Term>)
    ensures Satisfies(terms, [clause]) <==> Hits(terms, clause)
  {
    assert [clause][0] == clause;
  }

  lemma {:induction false} LexemeClause(doc: set<string>, text: string)
    ensures Satisfies(LexemeTerms(doc), [[LexemeTerm(text)]]) <==> text in doc
  {
    var term := LexemeTerm(text);
    SatisfiesOne(LexemeTerms(doc), [term]);
    if Hits(LexemeTerms(doc), [term]) {
      var other :| other in doc && LexemeTerm(other) == term;
      LexemeTermInjective(other, text);
    }
    if text in doc {
      assert term in [term] && term in LexemeTerms(doc);
    }
  }

  /** A document the tree is true of satisfies every clause; and for trees the parser builds the clauses are
      equivalent to the tree, so nothing is lost but what `Unknown` hides. */
  lemma {:induction false} CnfEquivalent(doc: set<string>, node: QueryNode)
    ensures FullCnf(node).None? ==> WellFormed(node) ==> Holds(doc, node)
    ensures FullCnf(node).Some? && Holds(doc, node) ==> Satisfies(LexemeTerms(doc), FullCnf(node).value)
    ensures FullCnf(node).Some? && WellFormed(node) && Satisfies(LexemeTerms(doc), FullCnf(node).value) ==>
            Holds(doc, node)
    decreases node, 1
  {
    match node
    case Lexeme(text) => LexemeClause(doc, text);
    case Unknown =>
    case And(children) => AndEquivalent(doc, children);
    case Or(children) => OrEquivalent(doc, children);
  }

  lemma {:induction false} AndEquivalent(doc: set<string>, children: seq<QueryNode>)
    ensures Holds(doc, And(children)) ==> Satisfies(LexemeTerms(doc), AndCnf(children))
    ensures WellFormed(And(children)) && Satisfies(LexemeTerms(doc), AndCnf(children)) ==> Holds(doc, And(children))
    decreases children, 0
  {
    if children != [] {
      var init, last := children[..|children| - 1], children[|children| - 1];
      AndEquivalent(doc, init);
      CnfEquivalent(doc, last);
      var more := if FullCnf(last).Some? then FullCnf(last).value else [];
      SatisfiesConcat(LexemeTerms(doc), AndCnf(init), more);
      AllSplit(doc, init, last);
      assert children == init + [last];
    }
  }

  lemma {:induction false} AllSplit(doc: set<string>, init: seq<QueryNode>, last: QueryNode)
    ensures Holds(doc, And(init + [last])) <==> Holds(doc, And(init)) && Holds(doc, last)
    ensures WellFormed(And(init + [last])) <==> WellFormed(And(init)) && WellFormed(last)
  {
    var all := init + [last];
    if Holds(doc, And(all)) {
      assert Holds(doc, all[|init|]);
      forall i | 0 <= i < |init| ensures Holds(doc, init[i]) {
        assert Holds(doc, all[i]);
      }
    }
    if WellFormed(And(all)) {
      assert WellFormed(all[|init|]);
      forall i | 0 <= i < |init| ensures WellFormed(init[i]) {
        assert WellFormed(all[i]);
      }
    }
  }

  lemma {:induction false} AnySplit(doc: set<string>, init: seq<QueryNode>, last: QueryNode)
    ensures Holds(doc, Or(init + [last])) <==> Holds(doc, Or(init)) || Holds(doc, last)
    ensures WellFormed(Or(init + [last])) <==> WellFormed(And(init)) && WellFormed(last)
  {
    var all := init + [last];
    if Holds(doc, Or(all)) {
      var i :| 0 <= i < |all| && Holds(doc, all[i]);
      assert i < |init| ==> all[i] == init[i];
    }
    if Holds(doc, Or(init)) {
      var i :| 0 <= i < |init| && Holds(doc, init[i]);
      assert Holds(doc, all[i]);
    }
    if Holds(doc, last) {
      assert Holds(doc, all[|init|]);
    }
    AllSplit(doc, init, last);
  }

  lemma {:induction false} OrEquivalent(doc: set<string>, children: seq<QueryNode>)
    ensures OrCnf(children).None? ==> WellFormed(And(children)) ==> Holds(doc, Or(children))
    ensures OrCnf(children).Some? && Holds(doc, Or(children)) ==> Satisfies(LexemeTerms(doc), OrCnf(children).value)
    ensures WellFormed(Or(children)) && OrCnf(children).Some? ==>
              Satisfies(LexemeTerms(doc), OrCnf(children).value) ==> Holds(doc, Or(children))
    decreases children, 0
  {
    if children != [] {
      var init, last := children[..|children| - 1], children[|children| - 1];
      OrEquivalent(doc, init);
      CnfEquivalent(doc, last);
      AnySplit(doc, init, last);
      AllSplit(doc, init, last);
      assert children == init + [last];
      if OrCnf(init).Some? && FullCnf(last).Some? {
        CrossHolds(LexemeTerms(doc), OrCnf(init).value, FullCnf(last).value);
      }
    }
  }

  // ---- The budgeted form that is actually computed ----

  ghost predicate NoEmptyClause(clauses: Clauses) {
    forall i | 0 <= i < |clauses| :: clauses[i] != []
  }

  /** The tree is given up: a conjunction or one of its operands expands past the budget, or a disjunction does. */
  ghost predicate GivesUp(node: QueryNode)
    decreases node, 1
  {
    match node
    case Lexeme(_) => false
    case Unknown => false
    case And(children) =>
      |AndCnf(children)| > MAX_QUERY_CLAUSES || exists i | 0 <= i < |children| :: GivesUp(children[i])
    case Or(children) => OrGivesUp(children)
  }

  /** Branch by branch: a disjunction is given up at the first branch that is, or whose product with the branches
      before is past the budget, unless an unconstrained branch comes first. */
  ghost predicate OrGivesUp(children: seq<QueryNode>)
    decreases children, 0
  {
    if children == [] then false
    else
      var init, last := children[..|children| - 1], children[|children| - 1];
      OrGivesUp(init) || (OrCnf(init).Some? && (GivesUp(last) || TooMany(OrCnf(children))))
  }

  ghost predicate TooMany(clauses: Option<Clauses>) {
    clauses.Some? && |clauses.value| > MAX_QUERY_CLAUSES
  }

  lemma {:induction false} CrossSnoc(a: Clauses, left: seq<Term>, b: Clauses)
    ensures Cross(a + [left], b) == Cross(a, b) + CrossOne(left, b)
  {
    if a == [] {
      assert a + [left] == [left] && [left][1..] == [];
      assert Cross([left], b) == CrossOne(left, b) + [];
    } else {
      assert (a + [left])[1..] == a[1..] + [left];
      CrossSnoc(a[1..], left, b);
    }
  }

  method CrossProduct(a: Clauses, b: Clauses) returns (next: Clauses)
    ensures next == Cross(a, b)
    ensures NoEmptyClause(a) ==> NoEmptyClause(next)
  {
    next := [];
    for i := 0 to |a|
      invariant next == Cross(a[..i], b)
      invariant NoEmptyClause(a) ==> NoEmptyClause(next)
    {
      var row: Clauses := [];
      for j := 0 to |b|
        invariant |row| == j && forall t | 0 <= t < j :: row[t] == a[i] + b[t]
      {
        row := row + [a[i] + b[j]];
      }
      assert row == CrossOne(a[i], b);
      assert a[..i + 1] == a[..i] + [a[i]];
      CrossSnoc(a[..i], a[i], b);
      next := next + row;
    }
    assert a[..|a|] == a;
  }

  /** The clauses of a node: `None` when the budget is exceeded, `Some(None)` when there is no constraint. */
  method Cnf(node: QueryNode) returns (r: Option<Option<Clauses>>)
    ensures r.Some? ==> r.value == FullCnf(node)
    ensures r.Some? && r.value.Some? ==> |r.value.value| <= MAX_QUERY_CLAUSES && NoEmptyClause(r.value.value)
    ensures r.None? <==> GivesUp(node)
    decreases node, 1
  {
    match node
    case Unknown => r := Some(None);
    case Lexeme(text) => r := Some(Some([[LexemeTerm(text)]]));
    case And(children) => r := CnfOfAnd(children);
    case Or(children) => r := CnfOfOr(children);
  }

  method CnfOfAnd(children: seq<QueryNode>) returns (r: Option<Option<Clauses>>)
    ensures r.Some? ==> r.value == Some(AndCnf(children))
    ensures r.Some? && r.value.Some? ==> |r.value.value| <= MAX_QUERY_CLAUSES && NoEmptyClause(r.value.value)
    ensures r.None? <==> GivesUp(And(children))
    decreases children, 0
  {
    var clauses: Clauses := [];
    for i := 0 to |children|
      invariant clauses == AndCnf(children[..i]) && NoEmptyClause(clauses)
      invariant forall j | 0 <= j < i :: !GivesUp(children[j])
    {
      var child := Cnf(children[i]);
      if child.None? {
        assert GivesUp(children[i]);
        return None;
      }
      assert children[..i + 1][..i] == children[..i];
      if child.value.Some? {
        clauses := clauses + child.value.value;
      }
    }
    assert children[..|children|] == children;
    r := if |clauses| <= MAX_QUERY_CLAUSES then Some(Some(clauses)) else None;
  }

  /** What the first branches settle: giving up, or stopping at an unconstrained one. */
  lemma {:induction false} Settled(children: seq<QueryNode>, n: nat)
    requires n <= |children|
    ensures OrGivesUp(children[..n]) ==> OrGivesUp(children)
    ensures !OrGivesUp(children[..n]) && OrCnf(children[..n]).None? ==> !OrGivesUp(children) && OrCnf(children).None?
    decreases |children| - n
  {
    hide FullCnf, Cross;
    if n < |children| {
      assert children[..n + 1][..n] == children[..n];
      Settled(children, n + 1);
    } else {
      assert children[..n] == children;
    }
  }

  method CnfOfOr(children: seq<QueryNode>) returns (r: Option<Option<Clauses>>)
    ensures r.Some? ==> r.value == OrCnf(children)
    ensures r.Some? && r.value.Some? ==> |r.value.value| <= MAX_QUERY_CLAUSES && NoEmptyClause(r.value.value)
    ensures r.None? <==> OrGivesUp(children)
    decreases children, 0
  {
    hide GivesUp, Cross, FullCnf;
    var acc: Clauses := [];
    for i := 0 to |children|
      invariant OrCnf(children[..i]) == Some(acc) && !OrGivesUp(children[..i])
      invariant |acc| <= MAX_QUERY_CLAUSES && NoEmptyClause(acc)
    {
      var child := Cnf(children[i]);
      assert children[..i + 1][..i] == children[..i];
      Settled(children, i + 1);
      if child.None? {
        return None;
      }
      if child.value.None? {
        return Some(None);
      }
      if i == 0 {
        acc := child.value.value;
      } else {
        acc := CrossProduct(acc, child.value.value);
        if |acc| > MAX_QUERY_CLAUSES {
          return None;
        }
      }
    }
    assert children[..|children|] == children;
    r := Some(Some(acc));
  }

  /** One branch without constraints makes the whole disjunction unconstrained. */
  lemma {:induction false} UnconstrainedBranch(children: seq<QueryNode>, i: nat)
    requires i < |children| && FullCnf(children[i]).None?
    ensures OrCnf(children).None?
    decreases |children|
  {
    if i < |children| - 1 {
      UnconstrainedBranch(children[..|children| - 1], i);
    }
  }

  // ---- How many clauses a tree has ----

  /** Every conjunction and disjunction has operands. */
  ghost predicate Inhabited(node: QueryNode) {
    match node
    case Lexeme(_) => true
    case Unknown => true
    case And(children) => children != [] && forall i | 0 <= i < |children| :: Inhabited(children[i])
    case Or(children) => children != [] && forall i | 0 <= i < |children| :: Inhabited(children[i])
  }

  ghost predicate Plain(node: QueryNode) {
    match node
    case Lexeme(_) => true
    case Unknown => false
    case And(children) => forall i | 0 <= i < |children| :: Plain(children[i])
    case Or(children) => forall i | 0 <= i < |children| :: Plain(children[i])
  }

  /** The clauses a tree multiplies out to: conjunctions add, disjunctions multiply. */
  ghost function Size(node: QueryNode): nat
    decreases node, 1
  {
    match node
    case Lexeme(_) => 1
    case Unknown => 1
    case And(children) => SumOfSizes(children)
    case Or(children) => ProductOfSizes(children)
  }

  ghost function SumOfSizes(children: seq<QueryNode>): nat
    decreases children, 0
  {
    if children == [] then 0 else SumOfSizes(children[..|children| - 1]) + Size(children[|children| - 1])
  }

  ghost function ProductOfSizes(children: seq<QueryNode>): nat
    decreases children, 0
  {
    if children == [] then 1
    else
      var rest, last := ProductOfSizes(children[..|children| - 1]), Size(children[|children| - 1]);
      rest * last
  }

  lemma {:induction false} CrossSize(a: Clauses, b: Clauses)
    ensures |Cross(a, b)| == |a| * |b|
  {
    if a != [] {
      CrossSize(a[1..], b);
      assert |a| * |b| == |b| + (|a| - 1) * |b|;
    }
  }

  lemma {:induction false} ProductBound(a: nat, b: nat, c: nat, d: nat)
    requires a <= c && b <= d
    ensures a * b <= c * d
  {
    assert a * b <= c * b <= c * d;
  }

  lemma {:induction false} FactorBound(a: nat, b: nat)
    requires a >= 1 && b >= 1
    ensures a * b >= a && a * b >= b && a * b >= 1
  {
    ProductBound(a, 1, a, b);
    ProductBound(1, b, a, b);
  }

  /** A tree has at most as many clauses as its size, and exactly as many without unknown operands; within the budget it
      is not given up, and without unknown operands it is given up beyond. */
  lemma {:induction false} SizeDecides(node: QueryNode)
    requires Inhabited(node)
    ensures Size(node) >= 1
    ensures FullCnf(node).Some? ==> |FullCnf(node).value| <= Size(node)
    ensures Plain(node) ==> FullCnf(node).Some? && |FullCnf(node).value| == Size(node)
    ensures Size(node) <= 64 ==> !GivesUp(node)
    ensures Plain(node) && Size(node) > 64 ==> GivesUp(node)
    decreases node, 1
  {
    match node
    case Lexeme(_) =>
    case Unknown =>
    case And(children) => SumDecides(children);
    case Or(children) => ProductDecides(children);
  }

  ghost predicate AllInhabited(children: seq<QueryNode>) {
    forall i | 0 <= i < |children| :: Inhabited(children[i])
  }

  ghost predicate AllPlain(children: seq<QueryNode>) {
    forall i | 0 <= i < |children| :: Plain(children[i])
  }

  lemma {:induction false} SumDecides(children: seq<QueryNode>)
    requires AllInhabited(children)
    ensures SumOfSizes(children) >= |children|
    ensures |AndCnf(children)| <= SumOfSizes(children)
    ensures AllPlain(children) ==> |AndCnf(children)| == SumOfSizes(children)
    ensures SumOfSizes(children) <= 64 ==> forall i | 0 <= i < |children| :: !GivesUp(children[i])
    decreases children, 0
  {
    hide FullCnf, GivesUp, Size;
    if children != [] {
      var init, last := children[..|children| - 1], children[|children| - 1];
      SumDecides(init);
      SizeDecides(last);
      assert forall i | 0 <= i < |init| :: init[i] == children[i];
    }
  }

  lemma {:induction false} ProductDecides(children: seq<QueryNode>)
    requires AllInhabited(children)
    ensures ProductOfSizes(children) >= 1
    ensures OrCnf(children).Some? && children != [] ==> |OrCnf(children).value| <= ProductOfSizes(children)
    ensures AllPlain(children) ==>
              OrCnf(children).Some? && (children != [] ==> |OrCnf(children).value| == ProductOfSizes(children))
    ensures ProductOfSizes(children) <= 64 ==> !OrGivesUp(children)
    ensures AllPlain(children) && ProductOfSizes(children) > 64 ==> OrGivesUp(children)
    decreases children, 0
  {
    hide FullCnf, GivesUp, Size, Cross;
    if children != [] {
      var init, last := children[..|children| - 1], children[|children| - 1];
      ProductDecides(init);
      SizeDecides(last);
      FactorBound(ProductOfSizes(init), Size(last));
      assert forall i | 0 <= i < |init| :: init[i] == children[i];
      if OrCnf(init).Some? && FullCnf(last).Some? && init != [] {
        CrossSize(OrCnf(init).value, FullCnf(last).value);
        ProductBound(|OrCnf(init).value|, |FullCnf(last).value|, ProductOfSizes(init), Size(last));
      }
    }
  }
}
