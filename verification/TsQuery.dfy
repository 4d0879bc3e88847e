/** `tsquery` values: what they match, the text PostgreSQL prints for them, and how that text is parsed back
    into the tree that pruning looks at. */
module TsQuery {
  import opened Chars
  import opened QueryCnf

  // ---- Queries and documents ----

  datatype Query =
    | Word(lexeme: string, prefix: bool, weights: string)
    | Not(arg: Query)
    | Conj(left: Query, right: Query)
    | Disj(left: Query, right: Query)
    | Phrase(distance: nat, left: Query, right: Query)

  datatype Occurrence = Occurrence(position: nat, weight: char)

  /** A `tsvector`: lexemes with their positions and weights. */
  type Document = map<string, set<Occurrence>>

  predicate Fits(word: Query, lexeme: string)
    requires word.Word?
  {
    if word.prefix then word.lexeme <= lexeme else word.lexeme == lexeme
  }

  predicate WeightFits(word: Query, o: Occurrence)
    requires word.Word?
  {
    word.weights == "" || o.weight in word.weights
  }

  /** How far a match of the query extends before the position it is reported at. */
  function Width(q: Query): nat {
    match q
    case Word(_, _, _) => 0
    case Not(a) => Width(a)
    case Conj(a, b) => Wider(Width(a), Width(b))
    case Disj(a, b) => Wider(Width(a), Width(b))
    case Phrase(distance, a, b) => distance + Width(a) + Width(b)
  }

  function Wider(m: nat, n: nat): nat {
    if m < n then n else m
  }

  /** The query holds at one position of the document; phrases are read this way. A phrase's distance is counted from
      the end of its left operand to the start of its right one, and the operands of `&` and `|` start together. */
  ghost predicate At(doc: Document, q: Query, p: int) {
    match q
    case Word(_, _, _) =>
      exists x, o | x in doc && o in doc[x] :: Fits(q, x) && WeightFits(q, o) && o.position == p
    case Not(a) => !At(doc, a, p)
    case Conj(a, b) => At(doc, a, p - Width(q) + Width(a)) && At(doc, b, p - Width(q) + Width(b))
    case Disj(a, b) => At(doc, a, p - Width(q) + Width(a)) || At(doc, b, p - Width(q) + Width(b))
    case Phrase(distance, a, b) => At(doc, a, p - distance - Width(b)) && At(doc, b, p)
  }

  ghost predicate Matches(doc: Document, q: Query) {
    match q
    case Word(_, _, weights) =>
      exists x | x in doc :: Fits(q, x) && (weights == "" || exists o | o in doc[x] :: WeightFits(q, o))
    case Not(a) => !Matches(doc, a)
    case Conj(a, b) => Matches(doc, a) && Matches(doc, b)
    case Disj(a, b) => Matches(doc, a) || Matches(doc, b)
    case Phrase(_, _, _) => exists p: int :: At(doc, q, p)
  }

  // ---- The printed form ----

  // Binding strength of the operators, loosest first; an operand of a weaker operator is parenthesised.
  const OR_LEVEL := 0
  const AND_LEVEL := 1
  const PHRASE_LEVEL := 2
  const UNARY_LEVEL := 3

  function OwnLevel(q: Query): nat {
    match q
    case Word(_, _, _) => UNARY_LEVEL
    case Not(_) => UNARY_LEVEL
    case Conj(_, _) => AND_LEVEL
    case Disj(_, _) => OR_LEVEL
    case Phrase(_, _, _) => PHRASE_LEVEL
  }

  function EscapeChar(c: char): string {
    if c == '\'' || c == '\\' then [c, c] else [c]
  }

  function Escape(text: string): string {
    if text == "" then "" else EscapeChar(text[0]) + Escape(text[1..])
  }

  function Quote(text: string): string {
    "'" + Escape(text) + "'"
  }

  function Suffix(prefix: bool, weights: string): string {
    if prefix || weights != "" then ":" + ((if prefix then "*" else "") + weights) else ""
  }

  function WordText(lexeme: string, prefix: bool, weights: string): string {
    Quote(lexeme) + Suffix(prefix, weights)
  }

  function Separator(level: nat, distance: nat): string {
    if level == OR_LEVEL then " | "
    else if level == AND_LEVEL then " & "
    else " <" + (if distance == 1 then "-" else Digits(distance)) + "> "
  }

  /** The text of `q` as an operand at `level`: chains of one operator are printed flat, a phrase's right
      operand and weaker operators get parentheses. */
  function Text(q: Query, level: nat): string
    requires level <= UNARY_LEVEL
    decreases q, (OwnLevel(q) - level) % 4
  {
    if OwnLevel(q) != level then
      if level == UNARY_LEVEL then "( " + Text(q, OR_LEVEL) + " )" else Text(q, level + 1)
    else
      match q
      case Word(lexeme, prefix, weights) => WordText(lexeme, prefix, weights)
      case Not(a) => "!" + Text(a, UNARY_LEVEL)
      case Conj(a, b) => Text(a, AND_LEVEL) + Separator(AND_LEVEL, 0) + Text(b, AND_LEVEL)
      case Disj(a, b) => Text(a, OR_LEVEL) + Separator(OR_LEVEL, 0) + Text(b, OR_LEVEL)
      case Phrase(distance, a, b) => Text(a, PHRASE_LEVEL) + Separator(PHRASE_LEVEL, distance) + Text(b, UNARY_LEVEL)
  }

  // ---- The tree pruning looks at ----

  /** The operands of the chain of `level` that `q` starts, each as its own node. */
  ghost function Operands(q: Query, level: nat): seq<QueryNode>
    requires level < UNARY_LEVEL
    decreases q, if OwnLevel(q) == level then 0 else 2
  {
    if OwnLevel(q) != level then [NodeOf(q)]
    else
      match q
      case Conj(a, b) => Operands(a, AND_LEVEL) + Operands(b, AND_LEVEL)
      case Disj(a, b) => Operands(a, OR_LEVEL) + Operands(b, OR_LEVEL)
      case Phrase(_, a, b) => Operands(a, PHRASE_LEVEL) + [NodeOf(b)]
  }

  ghost function NodeOf(q: Query): QueryNode
    decreases q, 1
  {
    match q
    case Word(lexeme, prefix, _) => if prefix then Unknown else Lexeme(lexeme)
    case Not(_) => Unknown
    case Conj(_, _) => And(Operands(q, AND_LEVEL))
    case Disj(_, _) => Or(Operands(q, OR_LEVEL))
    case Phrase(_, _, _) => And(Operands(q, PHRASE_LEVEL))
  }

  lemma {:induction false} AllConcat(doc: set<string>, a: seq<QueryNode>, b: seq<QueryNode>)
    ensures Holds(doc, And(a + b)) <==> Holds(doc, And(a)) && Holds(doc, And(b))
    ensures Holds(doc, Or(a + b)) <==> Holds(doc, Or(a)) || Holds(doc, Or(b))
    ensures WellFormed(And(a + b)) <==> WellFormed(And(a)) && WellFormed(And(b))
  {
    if b == [] {
      assert a + b == a;
    } else {
      var init, last := b[..|b| - 1], b[|b| - 1];
      AllConcat(doc, a, init);
      ConcatSnoc(doc, a, init, last);
      assert a + b == (a + init) + [last] && b == init + [last];
    }
  }

  lemma {:induction false} ConcatSnoc(doc: set<string>, a: seq<QueryNode>, init: seq<QueryNode>, last: QueryNode)
    ensures Holds(doc, And((a + init) + [last])) <==> Holds(doc, And(a + init)) && Holds(doc, last)
    ensures Holds(doc, Or((a + init) + [last])) <==> Holds(doc, Or(a + init)) || Holds(doc, last)
    ensures WellFormed(And((a + init) + [last])) <==> WellFormed(And(a + init)) && WellFormed(last)
    ensures Holds(doc, And(init + [last])) <==> Holds(doc, And(init)) && Holds(doc, last)
    ensures Holds(doc, Or(init + [last])) <==> Holds(doc, Or(init)) || Holds(doc, last)
    ensures WellFormed(And(init + [last])) <==> WellFormed(And(init)) && WellFormed(last)
  {
    hide Holds, WellFormed;
    AllSplit(doc, a + init, last);
    AllSplit(doc, init, last);
    AnySplit(doc, a + init, last);
    AnySplit(doc, init, last);
  }

  lemma {:induction false} OneChild(doc: set<string>, n: QueryNode)
    ensures Holds(doc, And([n])) <==> Holds(doc, n)
    ensures Holds(doc, Or([n])) <==> Holds(doc, n)
    ensures WellFormed(And([n])) <==> WellFormed(n)
  {
    AllSplit(doc, [], n);
    AnySplit(doc, [], n);
    assert [] + [n] == [n];
  }

  /** A document that matches the query, or matches it at some position, satisfies the tree. */
  lemma {:induction false} MatchHolds(doc: Document, q: Query, p: int)
    ensures Matches(doc, q) || At(doc, q, p) ==> Holds(doc.Keys, NodeOf(q))
    decreases q, 2
  {
    match q
    case Word(lexeme, _, _) =>
    case Not(_) =>
    case Conj(_, _) => OperandsHold(doc, q, p, AND_LEVEL);
    case Disj(_, _) => OperandsHold(doc, q, p, OR_LEVEL);
    case Phrase(_, _, _) =>
      OperandsHold(doc, q, p, PHRASE_LEVEL);
      if Matches(doc, q) {
        var p' :| At(doc, q, p');
        OperandsHold(doc, q, p', PHRASE_LEVEL);
      }
  }

  lemma {:induction false} OperandsHold(doc: Document, q: Query, p: int, level: nat)
    requires level < UNARY_LEVEL
    ensures level != OR_LEVEL && (At(doc, q, p) || (level == AND_LEVEL && Matches(doc, q))) ==>
              Holds(doc.Keys, And(Operands(q, level)))
    ensures level == OR_LEVEL && (Matches(doc, q) || At(doc, q, p)) ==> Holds(doc.Keys, Or(Operands(q, level)))
    decreases q, if OwnLevel(q) == level then 1 else 3
  {
    hide Width, Holds;
    if OwnLevel(q) != level {
      MatchHolds(doc, q, p);
      OneChild(doc.Keys, NodeOf(q));
    } else {
      match q
      case Conj(a, b) =>
        OperandsHold(doc, a, p - Width(q) + Width(a), AND_LEVEL);
        OperandsHold(doc, b, p - Width(q) + Width(b), AND_LEVEL);
        AllConcat(doc.Keys, Operands(a, AND_LEVEL), Operands(b, AND_LEVEL));
      case Disj(a, b) =>
        OperandsHold(doc, a, p - Width(q) + Width(a), OR_LEVEL);
        OperandsHold(doc, b, p - Width(q) + Width(b), OR_LEVEL);
        AllConcat(doc.Keys, Operands(a, OR_LEVEL), Operands(b, OR_LEVEL));
      case Phrase(distance, a, b) =>
        OperandsHold(doc, a, p - distance - Width(b), PHRASE_LEVEL);
        MatchHolds(doc, b, p);
        OneChild(doc.Keys, NodeOf(b));
        AllConcat(doc.Keys, Operands(a, PHRASE_LEVEL), [NodeOf(b)]);
    }
  }

  lemma {:induction false} NodeWellFormed(q: Query)
    ensures WellFormed(NodeOf(q))
    decreases q, 2
  {
    match q
    case Word(_, _, _) =>
    case Not(_) =>
    case Conj(_, _) => OperandsWellFormed(q, AND_LEVEL);
    case Disj(_, _) => OperandsWellFormed(q, OR_LEVEL);
    case Phrase(_, _, _) => OperandsWellFormed(q, PHRASE_LEVEL);
  }

  lemma {:induction false} OperandsWellFormed(q: Query, level: nat)
    requires level < UNARY_LEVEL
    ensures WellFormed(And(Operands(q, level))) && Operands(q, level) != []
    ensures OwnLevel(q) == level ==> |Operands(q, level)| > 1
    decreases q, if OwnLevel(q) == level then 1 else 3
  {
    if OwnLevel(q) != level {
      NodeWellFormed(q);
    } else {
      match q
      case Conj(a, b) =>
        OperandsWellFormed(a, AND_LEVEL);
        OperandsWellFormed(b, AND_LEVEL);
        AllConcat({}, Operands(a, AND_LEVEL), Operands(b, AND_LEVEL));
      case Disj(a, b) =>
        OperandsWellFormed(a, OR_LEVEL);
        OperandsWellFormed(b, OR_LEVEL);
        AllConcat({}, Operands(a, OR_LEVEL), Operands(b, OR_LEVEL));
      case Phrase(_, a, b) =>
        OperandsWellFormed(a, PHRASE_LEVEL);
        NodeWellFormed(b);
        OneChild({}, NodeOf(b));
        AllConcat({}, Operands(a, PHRASE_LEVEL), [NodeOf(b)]);
    }
  }
}
