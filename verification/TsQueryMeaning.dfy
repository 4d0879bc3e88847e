/** What the clauses of a `tsquery` say about a document, without the tree they are made from. */
module TsQueryMeaning {
  import opened Bytes
  import opened Terms
  import opened QueryCnf
  import opened TsQuery

  /** The query as pruning reads it: words by their presence alone, phrases as conjunctions, and prefixes and negations
      as always true. */
  ghost predicate Relaxed(doc: set<string>, q: Query) {
    match q
    case Word(lexeme, prefix, _) => prefix || lexeme in doc
    case Not(_) => true
    case Conj(a, b) => Relaxed(doc, a) && Relaxed(doc, b)
    case Disj(a, b) => Relaxed(doc, a) || Relaxed(doc, b)
    case Phrase(_, a, b) => Relaxed(doc, a) && Relaxed(doc, b)
  }

  lemma {:induction false} TreeIsRelaxed(doc: set<string>, q: Query)
    ensures Holds(doc, NodeOf(q)) <==> Relaxed(doc, q)
    decreases q, 2
  {
    match q
    case Word(_, _, _) =>
    case Not(_) =>
    case Conj(_, _) => OperandsRelaxed(doc, q, AND_LEVEL);
    case Disj(_, _) => OperandsRelaxed(doc, q, OR_LEVEL);
    case Phrase(_, _, _) => OperandsRelaxed(doc, q, PHRASE_LEVEL);
  }

  lemma {:induction false} OperandsRelaxed(doc: set<string>, q: Query, level: nat)
    requires level < UNARY_LEVEL
    ensures level != OR_LEVEL ==> (Holds(doc, And(Operands(q, level))) <==> Relaxed(doc, q))
    ensures level == OR_LEVEL ==> (Holds(doc, Or(Operands(q, level))) <==> Relaxed(doc, q))
    decreases q, if OwnLevel(q) == level then 1 else 3
  {
    hide Holds;
    if OwnLevel(q) != level {
      TreeIsRelaxed(doc, q);
      OneChild(doc, NodeOf(q));
    } else {
      match q
      case Conj(a, b) =>
        OperandsRelaxed(doc, a, AND_LEVEL);
        OperandsRelaxed(doc, b, AND_LEVEL);
        AllConcat(doc, Operands(a, AND_LEVEL), Operands(b, AND_LEVEL));
      case Disj(a, b) =>
        OperandsRelaxed(doc, a, OR_LEVEL);
        OperandsRelaxed(doc, b, OR_LEVEL);
        AllConcat(doc, Operands(a, OR_LEVEL), Operands(b, OR_LEVEL));
      case Phrase(_, a, b) =>
        OperandsRelaxed(doc, a, PHRASE_LEVEL);
        TreeIsRelaxed(doc, b);
        OneChild(doc, NodeOf(b));
        AllConcat(doc, Operands(a, PHRASE_LEVEL), [NodeOf(b)]);
    }
  }

  // ---- What matching is ----

  /** Words without flags, joined by `&` and `|`. */
  ghost predicate Worded(q: Query) {
    match q
    case Word(_, prefix, weights) => !prefix && weights == ""
    case Not(_) => false
    case Conj(a, b) => Worded(a) && Worded(b)
    case Disj(a, b) => Worded(a) && Worded(b)
    case Phrase(_, _, _) => false
  }

  /** For such a query nothing is lost: a document matches it exactly when the relaxed query is true of its lexemes. */
  lemma {:induction false} WordedMatchIsRelaxed(doc: Document, q: Query)
    requires Worded(q)
    ensures Matches(doc, q) <==> Relaxed(doc.Keys, q)
  {
    match q
    case Word(lexeme, _, _) =>
    case Conj(a, b) =>
      WordedMatchIsRelaxed(doc, a);
      WordedMatchIsRelaxed(doc, b);
    case Disj(a, b) =>
      WordedMatchIsRelaxed(doc, a);
      WordedMatchIsRelaxed(doc, b);
  }

  ghost predicate Occurs(doc: Document, lexeme: string, weights: string, position: int) {
    lexeme in doc && exists o | o in doc[lexeme] :: o.position == position && (weights == "" || o.weight in weights)
  }

  /** The flags: `*` asks for a lexeme that starts with the word, weights for an occurrence of one of them, `!` for no
      match. */
  lemma {:induction false} FlagsMean(doc: Document, word: string, weights: string, q: Query)
    ensures Matches(doc, Word(word, true, "")) <==> exists x | x in doc :: word <= x
    ensures weights != "" ==> (Matches(doc, Word(word, false, weights)) <==> exists p :: Occurs(doc, word, weights, p))
    ensures Matches(doc, Not(q)) <==> !Matches(doc, q)
  {
    var weighted := Word(word, false, weights);
    if weights != "" && Matches(doc, weighted) {
      var o :| o in doc[word] && WeightFits(weighted, o);
      assert Occurs(doc, word, weights, o.position);
    }
    if p :| weights != "" && Occurs(doc, word, weights, p) {
      var o :| o in doc[word] && o.position == p && o.weight in weights;
      assert WeightFits(weighted, o);
    }
  }

  /** `a <N> b`: the second word stands N after the first. */
  lemma {:induction false} PhraseMeans(doc: Document, n: nat, a: string, b: string)
    ensures Matches(doc, Phrase(n, Word(a, false, ""), Word(b, false, ""))) <==>
            exists p: int :: Occurs(doc, a, "", p) && Occurs(doc, b, "", p + n)
  {
    var x, y := Word(a, false, ""), Word(b, false, "");
    var q := Phrase(n, x, y);
    WordAt(doc, a);
    WordAt(doc, b);
    if p: int :| At(doc, q, p) {
      assert At(doc, x, p - n) && At(doc, y, p);
      assert Occurs(doc, a, "", p - n) && Occurs(doc, b, "", p - n + n);
    }
    if p: int :| Occurs(doc, a, "", p) && Occurs(doc, b, "", p + n) {
      assert At(doc, x, p + n - n) && At(doc, y, p + n);
      assert At(doc, q, p + n);
    }
  }

  lemma {:induction false} WordAt(doc: Document, word: string)
    ensures forall p: int :: At(doc, Word(word, false, ""), p) <==> Occurs(doc, word, "", p)
  {
    forall p: int ensures At(doc, Word(word, false, ""), p) <==> Occurs(doc, word, "", p) {
      if Occurs(doc, word, "", p) {
        var o :| o in doc[word] && o.position == p;
        assert WeightFits(Word(word, false, ""), o) && Fits(Word(word, false, ""), word);
      }
    }
  }

  // ---- How many clauses a query has ----

  /** Conjunctions and phrases add up their operands' clauses, disjunctions multiply them. */
  ghost function ClauseCount(q: Query): nat {
    match q
    case Word(_, _, _) => 1
    case Not(_) => 1
    case Conj(a, b) => ClauseCount(a) + ClauseCount(b)
    case Disj(a, b) => ClauseCount(a) * ClauseCount(b)
    case Phrase(_, a, b) => ClauseCount(a) + ClauseCount(b)
  }

  /** No negation and no prefix. */
  ghost predicate Definite(q: Query) {
    match q
    case Word(_, prefix, _) => !prefix
    case Not(_) => false
    case Conj(a, b) => Definite(a) && Definite(b)
    case Disj(a, b) => Definite(a) && Definite(b)
    case Phrase(_, a, b) => Definite(a) && Definite(b)
  }

  lemma {:induction false} SumConcat(a: seq<QueryNode>, b: seq<QueryNode>)
    ensures SumOfSizes(a + b) == SumOfSizes(a) + SumOfSizes(b)
  {
    hide Size;
    if b == [] {
      assert a + b == a;
    } else {
      SumConcat(a, b[..|b| - 1]);
      assert (a + b)[..|a + b| - 1] == a + b[..|b| - 1];
    }
  }

  lemma {:induction false} Associates(x: nat, y: nat, z: nat)
    ensures x * (y * z) == (x * y) * z
  {
  }

  lemma {:induction false} ProductConcat(a: seq<QueryNode>, b: seq<QueryNode>)
    ensures ProductOfSizes(a + b) == ProductOfSizes(a) * ProductOfSizes(b)
  {
    hide Size;
    if b == [] {
      assert a + b == a;
    } else {
      var init, last := b[..|b| - 1], b[|b| - 1];
      ProductConcat(a, init);
      assert (a + b)[..|a + b| - 1] == a + init;
      Associates(ProductOfSizes(a), ProductOfSizes(init), Size(last));
    }
  }

  lemma {:induction false} OneSize(n: QueryNode)
    ensures SumOfSizes([n]) == ProductOfSizes([n]) == Size(n)
  {
    hide Size;
    assert [n][..0] == [];
  }

  lemma {:induction false} TreeSize(q: Query)
    ensures Size(NodeOf(q)) == ClauseCount(q)
    ensures Inhabited(NodeOf(q)) && (Definite(q) ==> Plain(NodeOf(q)))
    decreases q, 2
  {
    match q
    case Word(_, _, _) =>
    case Not(_) =>
    case Conj(_, _) => OperandsSize(q, AND_LEVEL);
    case Disj(_, _) => OperandsSize(q, OR_LEVEL);
    case Phrase(_, _, _) => OperandsSize(q, PHRASE_LEVEL);
  }

  lemma {:induction false} OperandsSize(q: Query, level: nat)
    requires level < UNARY_LEVEL
    ensures var nodes := Operands(q, level);
            && nodes != [] && AllInhabited(nodes) && (Definite(q) ==> AllPlain(nodes))
            && (if level == OR_LEVEL then ProductOfSizes(nodes) else SumOfSizes(nodes)) == ClauseCount(q)
    decreases q, if OwnLevel(q) == level then 1 else 3
  {
    hide Size, Inhabited, Plain;
    if OwnLevel(q) != level {
      TreeSize(q);
      OneSize(NodeOf(q));
    } else {
      match q
      case Conj(a, b) =>
        OperandsSize(a, AND_LEVEL);
        OperandsSize(b, AND_LEVEL);
        SumConcat(Operands(a, AND_LEVEL), Operands(b, AND_LEVEL));
      case Disj(a, b) =>
        OperandsSize(a, OR_LEVEL);
        OperandsSize(b, OR_LEVEL);
        ProductConcat(Operands(a, OR_LEVEL), Operands(b, OR_LEVEL));
      case Phrase(_, a, b) =>
        OperandsSize(a, PHRASE_LEVEL);
        TreeSize(b);
        OneSize(NodeOf(b));
        SumConcat(Operands(a, PHRASE_LEVEL), [NodeOf(b)]);
    }
  }

  // ---- The clauses, exactly ----

  /** The clauses are true of a document exactly when the relaxed query is. There are none when an empty document would
      do; otherwise there are some if they are 64 at most, and none if they are more and nothing is left open. */
  ghost predicate Means(r: Option<Clauses>, q: Query) {
    && (r.Some? ==> forall doc: set<string> :: Satisfies(LexemeTerms(doc), r.value) <==> Relaxed(doc, q))
    && (Relaxed({}, q) ==> r.None?)
    && (!Relaxed({}, q) && ClauseCount(q) <= 64 ==> r.Some?)
    && (Definite(q) && ClauseCount(q) > 64 ==> r.None?)
  }

  /** The computed clauses are the node's full normal form; there are none exactly when that form says nothing or is
      given up. */
  ghost predicate IsClausesOf(r: Option<Clauses>, node: QueryNode) {
    r == if FullCnf(node) == Some([]) || GivesUp(node) then None else FullCnf(node)
  }

  lemma {:induction false} ClausesMean(q: Query, r: Option<Clauses>)
    requires IsClausesOf(r, NodeOf(q)) && (r.Some? ==> NoEmptyClause(r.value))
    ensures Means(r, q)
  {
    hide FullCnf, GivesUp, NodeOf, Satisfies, Relaxed, LexemeTerms;
    TreeSize(q);
    SizeDecides(NodeOf(q));
    NodeWellFormed(q);
    forall doc: set<string>
      ensures FullCnf(NodeOf(q)).Some? ==>
                (Satisfies(LexemeTerms(doc), FullCnf(NodeOf(q)).value) <==> Relaxed(doc, q))
      ensures FullCnf(NodeOf(q)).None? ==> Relaxed(doc, q)
    {
      TreeIsRelaxed(doc, q);
      CnfEquivalent(doc, NodeOf(q));
    }
    if r.Some? {
      NothingSatisfied(r.value);
    }
    if FullCnf(NodeOf(q)) == Some([]) {
      EmptySatisfied(LexemeTerms({}));
    }
  }

  lemma {:induction false} NothingSatisfied(clauses: Clauses)
    requires NoEmptyClause(clauses) && clauses != []
    ensures !Satisfies(LexemeTerms({}), clauses)
  {
    assert LexemeTerms({}) == {};
    assert !Hits({}, clauses[0]);
  }

  lemma {:induction false} EmptySatisfied(terms: set<Term>)
    ensures Satisfies(terms, [])
  {
  }
}
