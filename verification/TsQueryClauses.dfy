/** The parser as it runs, position by position, and the clauses of `tsv @@ query`. */
module TsQueryClauses {
  import opened Bytes
  import opened Chars
  import opened Terms
  import opened QueryCnf
  import opened TsQuery
  import opened TsQueryMeaning
  import opened TsQueryParser

  lemma {:induction false} EscapeStep(chars: string, i: nat, out: string)
    requires i + 1 < |chars| && (chars[i] == '\\' || (chars[i] == '\'' && chars[i + 1] == '\''))
    ensures Extend(out, ReadBody(From(chars, i))) == Extend(out + [chars[i + 1]], ReadBody(From(chars, i + 2)))
  {
    hide Extend, Prepend;
    FromNext(chars, i);
    FromNext(chars, i + 1);
    var s := From(chars, i);
    assert s[1] == chars[i + 1] && s[2..] == From(chars, i + 2);
    ExtendPrepend(out, chars[i + 1], ReadBody(From(chars, i + 2)));
  }

  lemma {:induction false} PlainStep(chars: string, i: nat, out: string)
    requires i < |chars| && chars[i] != '\\' && chars[i] != '\''
    ensures Extend(out, ReadBody(From(chars, i))) == Extend(out + [chars[i]], ReadBody(From(chars, i + 1)))
  {
    hide Extend, Prepend;
    FromNext(chars, i);
    ExtendPrepend(out, chars[i], ReadBody(From(chars, i + 1)));
  }

  /** Reads one single-quoted token starting at its opening quote: the text and the position after it. */
  method ReadQuoted(chars: string, start: nat) returns (r: Option<(string, nat)>)
    requires start < |chars| && chars[start] == '\''
    ensures r.None? <==> ReadBody(chars[start + 1..]).None?
    ensures r.Some? ==> start < r.value.1 <= |chars|
    ensures r.Some? ==> ReadBody(chars[start + 1..]) == Some((r.value.0, chars[r.value.1..]))
  {
    hide ReadBody;
    var out := "";
    var i := start + 1;
    ghost var expected := ReadBody(From(chars, start + 1));
    ExtendNothing(expected);
    while i < |chars|
      invariant start < i <= |chars|
      invariant expected == Extend(out, ReadBody(From(chars, i)))
    {
      if chars[i] == '\\' {
        if i + 1 >= |chars| {
          EndOfText(chars, i);
          return None;
        }
        EscapeStep(chars, i, out);
        out, i := out + [chars[i + 1]], i + 2;
      } else if chars[i] == '\'' && i + 1 < |chars| && chars[i + 1] == '\'' {
        EscapeStep(chars, i, out);
        out, i := out + ['\''], i + 2;
      } else if chars[i] == '\'' {
        ClosingQuote(chars, i);
        assert out + "" == out;
        return Some((out, i + 1));
      } else {
        PlainStep(chars, i, out);
        out, i := out + [chars[i]], i + 1;
      }
    }
    EndOfText(chars, i);
    r := None;
  }

  lemma {:induction false} EndOfText(chars: string, i: nat)
    requires i == |chars| || (i + 1 == |chars| && chars[i] == '\\')
    ensures ReadBody(From(chars, i)).None?
  {
  }

  lemma {:induction false} ClosingQuote(chars: string, i: nat)
    requires i < |chars| && chars[i] == '\'' && (i + 1 < |chars| ==> chars[i + 1] != '\'')
    ensures ReadBody(From(chars, i)) == Some(("", chars[i + 1..]))
  {
    FromNext(chars, i);
  }

  ghost predicate Agrees(expected: Parsed, node: Option<QueryNode>, rest: string) {
    if expected.None? then node.None? else node == Some(expected.value.0) && rest == expected.value.1
  }

  class QueryParser {
    const chars: string
    var pos: nat

    constructor (text: string)
      ensures chars == text && pos == 0
    {
      chars := text;
      pos := 0;
    }

    ghost function Rest(): string
      reads this
    {
      From(chars, pos)
    }

    method SkipWs()
      modifies this`pos
      ensures Rest() == Trim(old(Rest())) && (old(pos) <= |chars| ==> pos <= |chars|)
    {
      while pos < |chars| && chars[pos] == ' '
        invariant Trim(Rest()) == Trim(old(Rest())) && (old(pos) <= |chars| ==> pos <= |chars|)
      {
        FromNext(chars, pos);
        pos := pos + 1;
      }
    }

    method Eat(c: char) returns (ate: bool)
      modifies this`pos
      ensures ate == StartsWith(Trim(old(Rest())), c)
      ensures Rest() == if ate then Trim(old(Rest()))[1..] else Trim(old(Rest()))
      ensures old(pos) <= |chars| ==> pos <= |chars|
    {
      SkipWs();
      if pos < |chars| && chars[pos] == c {
        FromNext(chars, pos);
        pos := pos + 1;
        return true;
      }
      return false;
    }

    method ParseOr() returns (node: Option<QueryNode>)
      modifies this`pos
      ensures Agrees(Parse(OR_LEVEL, old(Rest())), node, Rest())
      ensures node.Some? && old(pos) <= |chars| ==> pos <= |chars|
      decreases |Rest()|, 3
    {
      hide Parse, ParseMore, Combine, Trim;
      var first := ParseAnd();
      FirstOf(OR_LEVEL, old(Rest()), first, Rest());
      if first.None? {
        return None;
      }
      var nodes := [first.value];
      while true
        invariant Parse(OR_LEVEL, old(Rest())) == ParseMore(OR_LEVEL, Rest(), nodes)
        invariant |Rest()| < |old(Rest())|
        invariant old(pos) <= |chars| ==> pos <= |chars|
        decreases |Rest()|
      {
        ghost var before := Rest();
        var ate := Eat('|');
        if !ate {
          ChainEnds(OR_LEVEL, before, nodes);
          break;
        }
        ghost var after := Rest();
        var next := ParseAnd();
        OneMore(OR_LEVEL, before, nodes, after, next, Rest());
        if next.None? {
          return None;
        }
        nodes := nodes + [next.value];
      }
      node := Some(Combine(OR_LEVEL, nodes));
    }

    method ParseAnd() returns (node: Option<QueryNode>)
      modifies this`pos
      ensures Agrees(Parse(AND_LEVEL, old(Rest())), node, Rest())
      ensures node.Some? && old(pos) <= |chars| ==> pos <= |chars|
      decreases |Rest()|, 2
    {
      hide Parse, ParseMore, Combine, Trim;
      var first := ParsePhrase();
      FirstOf(AND_LEVEL, old(Rest()), first, Rest());
      if first.None? {
        return None;
      }
      var nodes := [first.value];
      while true
        invariant Parse(AND_LEVEL, old(Rest())) == ParseMore(AND_LEVEL, Rest(), nodes)
        invariant |Rest()| < |old(Rest())|
        invariant old(pos) <= |chars| ==> pos <= |chars|
        decreases |Rest()|
      {
        ghost var before := Rest();
        var ate := Eat('&');
        if !ate {
          ChainEnds(AND_LEVEL, before, nodes);
          break;
        }
        ghost var after := Rest();
        var next := ParsePhrase();
        OneMore(AND_LEVEL, before, nodes, after, next, Rest());
        if next.None? {
          return None;
        }
        nodes := nodes + [next.value];
      }
      node := Some(Combine(AND_LEVEL, nodes));
    }

    /** `<->` and `<N>` both need their two operands, so they prune like `&`. */
    method ParsePhrase() returns (node: Option<QueryNode>)
      modifies this`pos
      ensures Agrees(Parse(PHRASE_LEVEL, old(Rest())), node, Rest())
      ensures node.Some? && old(pos) <= |chars| ==> pos <= |chars|
      decreases |Rest()|, 1
    {
      hide Parse, ParseMore, Combine, Trim;
      var first := ParseUnary();
      FirstOf(PHRASE_LEVEL, old(Rest()), first, Rest());
      if first.None? {
        return None;
      }
      var nodes := [first.value];
      while true
        invariant Parse(PHRASE_LEVEL, old(Rest())) == ParseMore(PHRASE_LEVEL, Rest(), nodes)
        invariant |Rest()| < |old(Rest())|
        invariant old(pos) <= |chars| ==> pos <= |chars|
        decreases |Rest()|
      {
        ghost var before := Rest();
        SkipWs();
        if pos >= |chars| || chars[pos] != '<' {
          ChainEnds(PHRASE_LEVEL, before, nodes);
          break;
        }
        SkipOperator();
        ghost var after := Rest();
        var next := ParseUnary();
        OneMore(PHRASE_LEVEL, before, nodes, after, next, Rest());
        if next.None? {
          return None;
        }
        nodes := nodes + [next.value];
      }
      node := Some(Combine(PHRASE_LEVEL, nodes));
    }

    /** Past the next closing bracket, or past the end of the text when there is none. */
    method SkipOperator()
      requires pos < |chars|
      modifies this`pos
      ensures Rest() == AfterClose(old(Rest()))
      ensures pos <= |chars| || Rest() == ""
    {
      while pos < |chars| && chars[pos] != '>'
        invariant pos <= |chars| && AfterClose(Rest()) == AfterClose(old(Rest()))
      {
        FromNext(chars, pos);
        pos := pos + 1;
      }
      if pos < |chars| {
        FromNext(chars, pos);
      }
      pos := pos + 1;
    }

    method ParseUnary() returns (node: Option<QueryNode>)
      modifies this`pos
      ensures Agrees(Parse(UNARY_LEVEL, old(Rest())), node, Rest())
      ensures node.Some? ==> pos <= |chars|
      decreases |Rest()|, 0
    {
      var negated := Eat('!');
      if negated {
        var arg := ParseUnary();
        return if arg.None? then None else Some(Unknown);
      }
      var group := Eat('(');
      if group {
        var inner := ParseOr();
        if inner.None? {
          return None;
        }
        var closed := Eat(')');
        return if closed then inner else None;
      }
      SkipWs();
      node := ParseToken();
    }

    method ParseToken() returns (node: Option<QueryNode>)
      modifies this`pos
      ensures Agrees(ParseWord(old(Rest())), node, Rest())
      ensures node.Some? ==> pos <= |chars|
    {
      hide ReadBody, Flags;
      if pos >= |chars| || chars[pos] != '\'' {
        return None;
      }
      var token := ReadQuoted(chars, pos);
      if token.None? {
        return None;
      }
      pos := token.value.1;
      var prefix := false;
      if pos < |chars| && chars[pos] == ':' {
        pos := pos + 1;
        prefix := SkipFlags();
      }
      node := Some(if prefix then Unknown else Lexeme(token.value.0));
    }

    method SkipFlags() returns (prefix: bool)
      requires pos <= |chars|
      modifies this`pos
      ensures (prefix, Rest()) == Flags(old(Rest()), false) && pos <= |chars|
    {
      prefix := false;
      while pos < |chars| && (chars[pos] == '*' || WeightLetter(chars[pos]))
        invariant pos <= |chars| && Flags(Rest(), prefix) == Flags(old(Rest()), false)
      {
        FromNext(chars, pos);
        prefix := prefix || chars[pos] == '*';
        pos := pos + 1;
      }
    }
  }

  lemma {:induction false} FirstOf(level: nat, s: string, first: Option<QueryNode>, rest: string)
    requires level < UNARY_LEVEL && Agrees(Parse(level + 1, s), first, rest)
    ensures first.None? ==> Parse(level, s).None?
    ensures first.Some? ==> Parse(level, s) == ParseMore(level, rest, [first.value]) && |rest| < |s|
  {
    hide ParseMore;
  }

  lemma {:induction false} ChainEnds(level: nat, s: string, nodes: seq<QueryNode>)
    requires level < UNARY_LEVEL && AfterOperator(level, Trim(s)).None?
    ensures ParseMore(level, s, nodes) == Some((Combine(level, nodes), Trim(s)))
  {
    hide Parse, Combine;
  }

  lemma {:induction false} OneMore(level: nat, s: string, nodes: seq<QueryNode>, after: string, next: Option<QueryNode>,
                                   rest: string)
    requires level < UNARY_LEVEL && AfterOperator(level, Trim(s)) == Some(after)
    requires Agrees(Parse(level + 1, after), next, rest)
    ensures next.None? ==> ParseMore(level, s, nodes).None?
    ensures next.Some? ==> ParseMore(level, s, nodes) == ParseMore(level, rest, nodes + [next.value]) && |rest| < |s|
  {
    hide Parse, Combine;
  }

  // ---- The clauses of a query ----

  /** `tsv @@ query` from the query's text. A document matching the printed query satisfies every clause, and the
      clauses say no less than the query's tree; there are 1 to 64 of them, none empty. */
  method TsqueryClauses(text: string) returns (r: Option<Clauses>)
    ensures r.Some? ==> 1 <= |r.value| <= MAX_QUERY_CLAUSES && NoEmptyClause(r.value)
    ensures forall q, doc | Printable(q) && Text(q, OR_LEVEL) == text && r.Some? ::
              Matches(doc, q) ==> Satisfies(LexemeTerms(doc.Keys), r.value)
    ensures forall q | Printable(q) && Text(q, OR_LEVEL) == text :: IsClausesOf(r, NodeOf(q)) && Means(r, q)
    ensures var parsed := Parse(OR_LEVEL, text);
            if parsed.None? || Trim(parsed.value.1) != "" then r.None? else IsClausesOf(r, parsed.value.0)
  {
    hide Means, Satisfies, Matches, Text, NodeOf, Printable, FullCnf, GivesUp, Parse;
    var parser := new QueryParser(text);
    var node := parser.ParseOr();
    ghost var parsed := Parse(OR_LEVEL, text);
    assert From(text, 0) == text;
    if node.None? {
      ReadsAs(text, parsed);
      return None;
    }
    parser.SkipWs();
    if parser.pos != |parser.chars| {
      ReadsAs(text, parsed);
      return None;
    }
    var cnf := Cnf(node.value);
    r := if cnf.None? || cnf.value.None? || cnf.value.value == [] then None else cnf.value;
    ReadsAs(text, parsed);
    assert IsClausesOf(r, node.value);
    AllSound(text, r, node.value);
    AllMean(text, r, node.value);
  }

  lemma {:induction false} ReadsAs(text: string, parsed: Parsed)
    requires parsed == Parse(OR_LEVEL, text)
    ensures forall q | Printable(q) && Text(q, OR_LEVEL) == text :: parsed == Some((NodeOf(q), ""))
  {
    hide Parse, Text, NodeOf, Printable;
    forall q | Printable(q) && Text(q, OR_LEVEL) == text ensures parsed == Some((NodeOf(q), "")) {
      PrintedQueryRead(q);
    }
  }

  lemma {:induction false} ClausesSound(q: Query, doc: Document, clauses: Clauses)
    requires FullCnf(NodeOf(q)) == Some(clauses) && Matches(doc, q)
    ensures Satisfies(LexemeTerms(doc.Keys), clauses)
  {
    hide NodeOf, FullCnf, Satisfies, Matches;
    MatchHolds(doc, q, 0);
    CnfEquivalent(doc.Keys, NodeOf(q));
  }

  lemma {:induction false} AllSound(text: string, r: Option<Clauses>, node: QueryNode)
    requires IsClausesOf(r, node)
    requires forall q | Printable(q) && Text(q, OR_LEVEL) == text :: NodeOf(q) == node
    ensures forall q, doc | Printable(q) && Text(q, OR_LEVEL) == text && r.Some? ::
              Matches(doc, q) ==> Satisfies(LexemeTerms(doc.Keys), r.value)
  {
    hide Satisfies, Matches, Text, NodeOf, Printable;
    forall q, doc | Printable(q) && Text(q, OR_LEVEL) == text && r.Some? && Matches(doc, q)
      ensures Satisfies(LexemeTerms(doc.Keys), r.value)
    {
      ClausesSound(q, doc, r.value);
    }
  }

  lemma {:induction false} AllMean(text: string, r: Option<Clauses>, node: QueryNode)
    requires IsClausesOf(r, node) && (r.Some? ==> NoEmptyClause(r.value))
    requires forall q | Printable(q) && Text(q, OR_LEVEL) == text :: NodeOf(q) == node
    ensures forall q | Printable(q) && Text(q, OR_LEVEL) == text :: Means(r, q)
  {
    hide Means, Text, NodeOf, Printable, FullCnf, GivesUp;
    forall q | Printable(q) && Text(q, OR_LEVEL) == text ensures Means(r, q) {
      ClausesMean(q, r);
    }
  }
}
