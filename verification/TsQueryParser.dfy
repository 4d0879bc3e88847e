/** The recursive-descent parser for printed `tsquery` values, and the proof that it reads back the tree of
    every query PostgreSQL can print. */
module TsQueryParser {
  import opened Bytes
  import opened Chars
  import opened QueryCnf
  import opened TsQuery

  // ---- The grammar, on the text still to be read ----

  /** A tree and the text left after it; `None` when the text is not a query. */
  type Parsed = Option<(QueryNode, string)>

  function Trim(s: string): (t: string)
    ensures |t| <= |s| && (t == "" || t[0] != ' ')
  {
    if s != "" && s[0] == ' ' then Trim(s[1..]) else s
  }

  /** The rest of a quoted token, from just after its opening quote: the token and what follows it. */
  function ReadBody(s: string): (r: Token)
    ensures r.Some? ==> |r.value.1| < |s|
  {
    if s == "" then None
    else if s[0] == '\\' then
      if |s| < 2 then None else Prepend(s[1], ReadBody(s[2..]))
    else if s[0] == '\'' then
      if |s| > 1 && s[1] == '\'' then Prepend('\'', ReadBody(s[2..])) else Some(("", s[1..]))
    else Prepend(s[0], ReadBody(s[1..]))
  }

  predicate WeightLetter(c: char) {
    'A' <= c <= 'D' || 'a' <= c <= 'd'
  }

  lemma {:induction false} WeightLetters(c: char)
    ensures WeightLetter(c) <==> c in {'A', 'B', 'C', 'D', 'a', 'b', 'c', 'd'}
  {
  }

  /** The flags after a word's colon: whether `*` is among them, and what follows. */
  function Flags(s: string, prefix: bool): (r: (bool, string))
    ensures |r.1| <= |s|
  {
    if s != "" && (s[0] == '*' || WeightLetter(s[0])) then Flags(s[1..], prefix || s[0] == '*') else (prefix, s)
  }

  function ParseWord(s: string): (r: Parsed)
    ensures r.Some? ==> |r.value.1| < |s|
  {
    if !StartsWith(s, '\'') then None
    else
      var token := ReadBody(s[1..]);
      if token.None? then None
      else
        var (lexeme, rest) := token.value;
        if !StartsWith(rest, ':') then Some((Lexeme(lexeme), rest))
        else
          var (prefix, after) := Flags(rest[1..], false);
          Some((if prefix then Unknown else Lexeme(lexeme), after))
  }

  function AfterClose(s: string): (t: string)
    ensures |t| <= |s| && (s != "" ==> |t| < |s|)
  {
    if s == "" then "" else if s[0] == '>' then s[1..] else AfterClose(s[1..])
  }

  /** What follows an operator of `level` at the start of `t`, if there is one. */
  function AfterOperator(level: nat, t: string): (r: Option<string>)
    requires level < UNARY_LEVEL
    ensures r.Some? ==> |r.value| < |t|
  {
    if level == PHRASE_LEVEL then (if StartsWith(t, '<') then Some(AfterClose(t)) else None)
    else if StartsWith(t, if level == OR_LEVEL then '|' else '&') then Some(t[1..])
    else None
  }

  function Combine(level: nat, nodes: seq<QueryNode>): QueryNode {
    if |nodes| == 1 then nodes[0] else if level == OR_LEVEL then Or(nodes) else And(nodes)
  }

  function Parse(level: nat, s: string): (r: Parsed)
    requires level <= UNARY_LEVEL
    ensures r.Some? ==> |r.value.1| < |s|
    decreases |s|, UNARY_LEVEL - level
  {
    if level < UNARY_LEVEL then
      var first := Parse(level + 1, s);
      if first.None? then None else ParseMore(level, first.value.1, [first.value.0])
    else
      var t := Trim(s);
      if StartsWith(t, '!') then
        var arg := Parse(UNARY_LEVEL, t[1..]);
        if arg.None? then None else Some((Unknown, arg.value.1))
      else if StartsWith(t, '(') then
        var inner := Parse(OR_LEVEL, t[1..]);
        if inner.None? || !StartsWith(Trim(inner.value.1), ')') then None
        else Some((inner.value.0, Trim(inner.value.1)[1..]))
      else ParseWord(t)
  }

  /** The further operands of a chain of `level`. */
  function ParseMore(level: nat, s: string, nodes: seq<QueryNode>): (r: Parsed)
    requires level < UNARY_LEVEL
    ensures r.Some? ==> |r.value.1| <= |s|
    decreases |s|, UNARY_LEVEL
  {
    var t := Trim(s);
    var after := AfterOperator(level, t);
    if after.None? then Some((Combine(level, nodes), t))
    else
      var next := Parse(level + 1, after.value);
      if next.None? then None else ParseMore(level, next.value.1, nodes + [next.value.0])
  }

  // ---- Reading back a printed word ----

  lemma {:induction false} ReadEscaped(text: string, rest: string)
    requires !StartsWith(rest, '\'')
    ensures ReadBody(Escape(text) + "'" + rest) == Some((text, rest))
  {
    hide ReadBody, EscapeChar;
    if text == "" {
      QuoteCloses(rest);
      assert Escape(text) + "'" + rest == "'" + rest;
    } else {
      var tail := Escape(text[1..]) + "'" + rest;
      ReadEscaped(text[1..], rest);
      assert [text[0]] + text[1..] == text;
      CharRead(text[0], tail);
      FourParts(EscapeChar(text[0]), Escape(text[1..]), "'", rest);
    }
  }

  lemma {:induction false} QuoteCloses(rest: string)
    requires !StartsWith(rest, '\'')
    ensures ReadBody("'" + rest) == Some(("", rest))
  {
    assert ("'" + rest)[1..] == rest;
  }

  lemma {:induction false} CharRead(c: char, tail: string)
    ensures ReadBody(EscapeChar(c) + tail) == Prepend(c, ReadBody(tail))
  {
    var s := EscapeChar(c) + tail;
    assert s[|EscapeChar(c)|..] == tail;
  }

  predicate Weights(weights: string) {
    forall c | c in weights :: 'A' <= c <= 'D'
  }

  /** What a value of type `tsquery` can hold: weights are among A to D. */
  predicate Printable(q: Query) {
    match q
    case Word(_, _, weights) => Weights(weights)
    case Not(a) => Printable(a)
    case Conj(a, b) => Printable(a) && Printable(b)
    case Disj(a, b) => Printable(a) && Printable(b)
    case Phrase(_, a, b) => Printable(a) && Printable(b)
  }

  ghost function Words(q: Query): set<Query> {
    match q
    case Word(_, _, _) => {q}
    case Not(a) => Words(a)
    case Conj(a, b) => Words(a) + Words(b)
    case Disj(a, b) => Words(a) + Words(b)
    case Phrase(_, a, b) => Words(a) + Words(b)
  }

  /** Every query is such a value, as long as its words have no other weights. */
  lemma {:induction false} PrintableExactly(q: Query)
    ensures Printable(q) <==> forall w, c | w in Words(q) && w.Word? && c in w.weights :: c in {'A', 'B', 'C', 'D'}
  {
    match q
    case Word(_, _, _) =>
    case Not(a) => PrintableExactly(a);
    case Conj(a, b) =>
      PrintableExactly(a);
      PrintableExactly(b);
    case Disj(a, b) =>
      PrintableExactly(a);
      PrintableExactly(b);
    case Phrase(_, a, b) =>
      PrintableExactly(a);
      PrintableExactly(b);
  }

  /** Printed operands are followed by a blank or by nothing. */
  predicate AtBoundary(rest: string) {
    rest == "" || rest[0] == ' '
  }

  lemma {:induction false} FlagsRead(weights: string, rest: string, prefix: bool)
    requires Weights(weights) && AtBoundary(rest)
    ensures Flags(weights + rest, prefix) == (prefix, rest)
  {
    if weights == "" {
      assert weights + rest == rest;
    } else {
      assert weights[0] in weights;
      assert forall c | c in weights[1..] :: c in weights;
      FlagsRead(weights[1..], rest, prefix);
      assert (weights + rest)[1..] == weights[1..] + rest;
    }
  }

  lemma {:induction false} MarkedFlagsRead(prefix: bool, weights: string, rest: string)
    requires Weights(weights) && AtBoundary(rest)
    ensures Flags((if prefix then "*" else "") + weights + rest, false) == (prefix, rest)
  {
    hide Weights, AtBoundary;
    FlagsRead(weights, rest, prefix);
    if prefix {
      assert ("*" + weights + rest)[1..] == weights + rest;
    } else {
      assert "" + weights + rest == weights + rest;
    }
  }

  lemma {:induction false} SuffixRead(prefix: bool, weights: string, rest: string)
    requires Weights(weights) && AtBoundary(rest) && (prefix || weights != "")
    ensures var tail := Suffix(prefix, weights) + rest;
            StartsWith(tail, ':') && Flags(tail[1..], false) == (prefix, rest)
  {
    hide Weights, AtBoundary, Flags;
    MarkedFlagsRead(prefix, weights, rest);
    assert (Suffix(prefix, weights) + rest)[1..] == (if prefix then "*" else "") + weights + rest;
  }

  lemma {:induction false} TokenRead(s: string, lexeme: string, tail: string, prefix: bool, rest: string)
    requires StartsWith(s, '\'') && ReadBody(s[1..]) == Some((lexeme, tail))
    requires if StartsWith(tail, ':') then Flags(tail[1..], false) == (prefix, rest) else !prefix && tail == rest
    ensures ParseWord(s) == Some((if prefix then Unknown else Lexeme(lexeme), rest))
  {
  }

  lemma {:induction false} WordRead(lexeme: string, prefix: bool, weights: string, rest: string)
    requires Weights(weights) && AtBoundary(rest)
    ensures ParseWord(WordText(lexeme, prefix, weights) + rest)
            == Some((if prefix then Unknown else Lexeme(lexeme), rest))
  {
    hide Escape, ReadBody, Weights, Suffix, Flags, ParseWord;
    var tail := Suffix(prefix, weights) + rest;
    var s := WordText(lexeme, prefix, weights) + rest;
    assert s[0] == '\'' && s[1..] == Escape(lexeme) + "'" + tail;
    if prefix || weights != "" {
      SuffixRead(prefix, weights, rest);
    } else {
      NoSuffix(rest);
    }
    ReadEscaped(lexeme, tail);
    TokenRead(s, lexeme, tail, prefix, rest);
  }

  lemma {:induction false} NoSuffix(rest: string)
    ensures Suffix(false, "") + rest == rest
  {
  }

  // ---- Reading back operators ----

  lemma {:induction false} CloseFound(inner: string, rest: string)
    requires forall c | c in inner :: c != '>'
    ensures AfterClose(inner + ">" + rest) == rest
  {
    var s := inner + ">" + rest;
    if inner == "" {
      assert s == ">" + rest;
    } else {
      assert inner[0] in inner;
      assert forall c | c in inner[1..] :: c in inner;
      CloseFound(inner[1..], rest);
      assert s[1..] == inner[1..] + ">" + rest;
    }
  }

  lemma {:induction false} PhraseOperatorRead(distance: nat, rest: string)
    ensures Separator(PHRASE_LEVEL, distance)[1] == '<'
    ensures AfterClose((Separator(PHRASE_LEVEL, distance) + rest)[1..]) == " " + rest
  {
    hide Digits;
    var inner := "<" + (if distance == 1 then "-" else Digits(distance));
    DigitsAreDigits(distance);
    assert (Separator(PHRASE_LEVEL, distance) + rest)[1..] == inner + ">" + (" " + rest);
    CloseFound(inner, " " + rest);
  }

  /** The parser sees a separator for what it is. */
  lemma {:induction false} SeparatorRead(level: nat, distance: nat, rest: string)
    requires level < UNARY_LEVEL
    ensures AtBoundary(Separator(level, distance) + rest)
    ensures AfterOperator(level, Trim(Separator(level, distance) + rest)) == Some(" " + rest)
    ensures Stops(level + 1, Separator(level, distance) + rest)
  {
    hide Digits, AfterClose;
    var s := Separator(level, distance) + rest;
    if level == PHRASE_LEVEL {
      PhraseOperatorRead(distance, rest);
    } else {
      assert s[1..][1..] == " " + rest;
    }
    assert s[0] == ' ' && s[1] != ' ';
    assert Trim(s) == s[1..];
  }

  /** After `rest` begins, no operator binding at `level` or tighter follows. */
  predicate Stops(level: nat, rest: string) {
    && AtBoundary(rest)
    && var t := Trim(rest);
       || t == "" || t[0] == ')'
       || (t[0] == '|' && level > OR_LEVEL)
       || (t[0] == '&' && level > AND_LEVEL)
       || (t[0] == '<' && level > PHRASE_LEVEL)
  }

  lemma {:induction false} TrimTrim(s: string)
    ensures Trim(Trim(s)) == Trim(s)
  {
  }

  lemma {:induction false} MoreTrimmed(level: nat, s: string, nodes: seq<QueryNode>)
    requires level < UNARY_LEVEL
    ensures ParseMore(level, Trim(s), nodes) == ParseMore(level, s, nodes)
  {
    TrimTrim(s);
  }

  lemma {:induction false} BlankIgnored(level: nat, s: string)
    requires level <= UNARY_LEVEL
    ensures Parse(level, " " + s) == Parse(level, s)
    decreases UNARY_LEVEL - level
  {
    if level < UNARY_LEVEL {
      BlankIgnored(level + 1, s);
    } else {
      assert (" " + s)[1..] == s;
      assert Trim(" " + s) == Trim(s);
    }
  }

  lemma {:induction false} CombineOperands(q: Query, level: nat)
    requires level < UNARY_LEVEL
    ensures Combine(level, Operands(q, level)) == NodeOf(q)
  {
    OperandsWellFormed(q, level);
  }

  // ---- Reading back a printed query ----

  /** The text of a query, as an operand at `level`, is read back as that query's tree. */
  lemma {:induction false} OperandRead(q: Query, level: nat, rest: string)
    requires level <= UNARY_LEVEL && Printable(q) && Stops(level, rest)
    ensures Parse(level, Text(q, level) + rest) ==
            Some((NodeOf(q), if level == UNARY_LEVEL then rest else Trim(rest)))
    decreases q, (OwnLevel(q) - level) % 4, 1
  {
    hide Parse, Text, Operands, NodeOf, Trim, Printable;
    if level == UNARY_LEVEL {
      UnaryRead(q, rest);
    } else {
      ChainRead(q, level, rest);
      CombineOperands(q, level);
    }
  }

  lemma {:induction false} UnaryRead(q: Query, rest: string)
    requires Printable(q) && Stops(UNARY_LEVEL, rest)
    ensures Parse(UNARY_LEVEL, Text(q, UNARY_LEVEL) + rest) == Some((NodeOf(q), rest))
    decreases q, (OwnLevel(q) - UNARY_LEVEL) % 4, 0
  {
    hide Parse, ParseWord, Trim, ParseMore, Operands, WordText;
    match q
    case Word(lexeme, prefix, weights) =>
      WordRead(lexeme, prefix, weights, rest);
      WordAlone(lexeme, prefix, weights, rest);
    case Not(a) =>
      OperandRead(a, UNARY_LEVEL, rest);
      NegationRead(Text(a, UNARY_LEVEL) + rest);
      assert Text(q, UNARY_LEVEL) + rest == "!" + (Text(a, UNARY_LEVEL) + rest);
    case _ =>
      CloseTrimmed(rest);
      OperandRead(q, OR_LEVEL, " )" + rest);
      GroupRead(Text(q, OR_LEVEL) + (" )" + rest), NodeOf(q), rest);
      assert Text(q, UNARY_LEVEL) + rest == "( " + (Text(q, OR_LEVEL) + (" )" + rest));
  }

  lemma {:induction false} WordAlone(lexeme: string, prefix: bool, weights: string, rest: string)
    ensures var s := WordText(lexeme, prefix, weights) + rest; Parse(UNARY_LEVEL, s) == ParseWord(s)
  {
    hide ParseWord, Escape;
    var s := WordText(lexeme, prefix, weights) + rest;
    assert s[0] == '\'';
    assert Trim(s) == s;
  }

  lemma {:induction false} NegationRead(s: string)
    requires Parse(UNARY_LEVEL, s).Some?
    ensures Parse(UNARY_LEVEL, "!" + s) == Some((Unknown, Parse(UNARY_LEVEL, s).value.1))
  {
    assert ("!" + s)[1..] == s;
  }

  lemma {:induction false} CloseTrimmed(rest: string)
    ensures Stops(OR_LEVEL, " )" + rest) && Trim(" )" + rest) == ")" + rest
  {
    var s := " )" + rest;
    assert s[1..] == ")" + rest;
  }

  lemma {:induction false} GroupRead(s: string, node: QueryNode, rest: string)
    requires Parse(OR_LEVEL, s) == Some((node, ")" + rest))
    ensures Parse(UNARY_LEVEL, "( " + s) == Some((node, rest))
  {
    hide ParseWord, ParseMore;
    BlankIgnored(OR_LEVEL, s);
    assert ("( " + s)[1..] == " " + s;
    assert Trim(")" + rest) == ")" + rest;
    assert (")" + rest)[1..] == rest;
  }

  lemma {:induction false} FirstOperandRead(level: nat, s: string, node: QueryNode, rest: string)
    requires level < UNARY_LEVEL
    requires Parse(level + 1, s) == Some((node, rest)) || Parse(level + 1, s) == Some((node, Trim(rest)))
    ensures Parse(level, s) == ParseMore(level, rest, [node])
  {
    hide ParseMore, Trim;
    MoreTrimmed(level, rest, [node]);
  }

  function Distance(q: Query): nat {
    if q.Phrase? then q.distance else 0
  }

  function RightLevel(q: Query): nat {
    if q.Phrase? then UNARY_LEVEL else OwnLevel(q)
  }

  lemma {:induction false} ChainSplit(q: Query)
    requires OwnLevel(q) < UNARY_LEVEL
    ensures Text(q, OwnLevel(q))
         == Text(q.left, OwnLevel(q)) + Separator(OwnLevel(q), Distance(q)) + Text(q.right, RightLevel(q))
  {
    hide Separator;
  }

  lemma {:induction false} ConcatAssociates(a: string, b: string, c: string, d: string)
    ensures (a + b + c) + d == a + (b + (c + d))
  {
  }

  lemma {:induction false} ChainText(q: Query, rest: string)
    requires OwnLevel(q) < UNARY_LEVEL
    ensures Text(q, OwnLevel(q)) + rest
         == Text(q.left, OwnLevel(q)) + (Separator(OwnLevel(q), Distance(q)) + (Text(q.right, RightLevel(q)) + rest))
  {
    hide Separator, Text;
    var a, sep, b := Text(q.left, OwnLevel(q)), Separator(OwnLevel(q), Distance(q)), Text(q.right, RightLevel(q));
    ChainSplit(q);
    ConcatAssociates(a, sep, b, rest);
  }

  lemma {:induction false} OwnText(q: Query, level: nat)
    requires level < UNARY_LEVEL && OwnLevel(q) != level
    ensures Text(q, level) == Text(q, level + 1) && Operands(q, level) == [NodeOf(q)]
  {
  }

  lemma {:induction false} ChainOperands(q: Query, level: nat)
    requires OwnLevel(q) == level < UNARY_LEVEL
    ensures Operands(q, level)
         == Operands(q.left, level) + (if q.Phrase? then [NodeOf(q.right)] else Operands(q.right, level))
  {
    hide NodeOf;
  }

  /** Reading a chain's text leaves the parser exactly where the chain's own operands have been collected. */
  lemma {:induction false} ChainRead(q: Query, level: nat, rest: string)
    requires level < UNARY_LEVEL && Printable(q) && Stops(level + 1, rest)
    ensures Parse(level, Text(q, level) + rest) == ParseMore(level, rest, Operands(q, level))
    decreases q, (OwnLevel(q) - level) % 4, 0
  {
    hide Parse, ParseMore, Trim, NodeOf, Separator, Stops, Text, Operands;
    if OwnLevel(q) != level {
      OperandRead(q, level + 1, rest);
      OwnText(q, level);
      FirstOperandRead(level, Text(q, level) + rest, NodeOf(q), rest);
    } else {
      var right := Text(q.right, RightLevel(q)) + rest;
      SeparatorRead(level, Distance(q), right);
      ChainRead(q.left, level, Separator(level, Distance(q)) + right);
      ChainText(q, rest);
      ChainOperands(q, level);
      if q.Phrase? {
        LastOperandRead(q.right, level, q.distance, rest, Operands(q.left, level));
      } else {
        RestOfChainRead(q.right, level, rest, Operands(q.left, level));
      }
    }
  }

  lemma {:induction false} NextOperandRead(level: nat, s: string, nodes: seq<QueryNode>, after: string, node: QueryNode,
                                           rest: string)
    requires level < UNARY_LEVEL && AfterOperator(level, Trim(s)) == Some(" " + after)
    requires Parse(level + 1, after) == Some((node, rest)) || Parse(level + 1, after) == Some((node, Trim(rest)))
    ensures ParseMore(level, s, nodes) == ParseMore(level, rest, nodes + [node])
  {
    hide Parse, Trim, AfterOperator;
    BlankIgnored(level + 1, after);
    MoreTrimmed(level, rest, nodes + [node]);
  }

  /** One more operand, of a tighter level, joins the chain. */
  lemma {:induction false} LastOperandRead(q: Query, level: nat, distance: nat, rest: string, nodes: seq<QueryNode>)
    requires level < UNARY_LEVEL && Printable(q) && Stops(level + 1, rest)
    ensures ParseMore(level, Separator(level, distance) + (Text(q, level + 1) + rest), nodes)
         == ParseMore(level, rest, nodes + [NodeOf(q)])
    decreases q, (OwnLevel(q) - level - 1) % 4, 2
  {
    hide Parse, ParseMore, Trim, NodeOf, Separator, Stops, Text, AfterOperator;
    var text := Text(q, level + 1) + rest;
    SeparatorRead(level, distance, text);
    OperandRead(q, level + 1, rest);
    NextOperandRead(level, Separator(level, distance) + text, nodes, text, NodeOf(q), rest);
  }

  lemma {:induction false} RestOfChainRead(q: Query, level: nat, rest: string, nodes: seq<QueryNode>)
    requires level < PHRASE_LEVEL && Printable(q) && Stops(level + 1, rest)
    ensures ParseMore(level, Separator(level, 0) + (Text(q, level) + rest), nodes)
         == ParseMore(level, rest, nodes + Operands(q, level))
    decreases q, (OwnLevel(q) - level) % 4, 3
  {
    hide Parse, ParseMore, Trim, NodeOf, Separator, Stops, Text, Operands;
    if OwnLevel(q) != level {
      OwnText(q, level);
      LastOperandRead(q, level, 0, rest, nodes);
    } else {
      var right := Separator(level, 0) + (Text(q.right, level) + rest);
      SeparatorRead(level, 0, Text(q.right, level) + rest);
      RestOfChainRead(q.left, level, right, nodes);
      RestOfChainRead(q.right, level, rest, nodes + Operands(q.left, level));
      ChainText(q, rest);
      ChainOperands(q, level);
      assert nodes + Operands(q, level) == nodes + Operands(q.left, level) + Operands(q.right, level);
    }
  }

  /** Every printed query is read back, to its end, as its own tree. */
  lemma {:induction false} PrintedQueryRead(q: Query)
    requires Printable(q)
    ensures Parse(OR_LEVEL, Text(q, OR_LEVEL)) == Some((NodeOf(q), ""))
  {
    OperandRead(q, OR_LEVEL, "");
    assert Text(q, OR_LEVEL) + "" == Text(q, OR_LEVEL);
  }
}
