/** Stored `tsvector` values: their printed form and the lexemes read back from it. */
module TsVector {
  import opened Bytes
  import opened Chars
  import opened TsQuery
  import opened TsQueryParser
  import opened TsQueryClauses

  datatype Entry = Entry(lexeme: string, occurrences: seq<Occurrence>)

  function Lexemes(entries: seq<Entry>): seq<string> {
    seq(|entries|, i requires 0 <= i < |entries| => entries[i].lexeme)
  }

  /** The document is the one the entries spell out. */
  ghost predicate Spells(entries: seq<Entry>, doc: Document) {
    && doc.Keys == (set x | x in Lexemes(entries))
    && forall e | e in entries :: e.lexeme in doc && doc[e.lexeme] == set o | o in e.occurrences
  }

  // ---- The printed form ----

  predicate Weighted(occurrences: seq<Occurrence>) {
    forall o | o in occurrences :: 'A' <= o.weight <= 'D'
  }

  function OccurrenceText(o: Occurrence): string {
    Digits(o.position) + if o.weight == 'D' then "" else [o.weight]
  }

  function PositionsText(occurrences: seq<Occurrence>): string {
    if occurrences == [] then ""
    else if |occurrences| == 1 then OccurrenceText(occurrences[0])
    else OccurrenceText(occurrences[0]) + "," + PositionsText(occurrences[1..])
  }

  function EntryText(e: Entry): string {
    Quote(e.lexeme) + if e.occurrences == [] then "" else ":" + PositionsText(e.occurrences)
  }

  function VectorText(entries: seq<Entry>): string {
    if entries == [] then ""
    else if |entries| == 1 then EntryText(entries[0])
    else EntryText(entries[0]) + " " + VectorText(entries[1..])
  }

  // ---- Reading it back ----

  function AfterPositions(s: string): (t: string)
    ensures |t| <= |s|
  {
    if s != "" && s[0] != ' ' then AfterPositions(s[1..]) else s
  }

  function ParseLexemes(s: string): Option<seq<string>>
    decreases |s|
  {
    if s == "" then Some([])
    else if s[0] == ' ' then ParseLexemes(s[1..])
    else if s[0] != '\'' then None
    else
      var token := ReadBody(s[1..]);
      if token.None? then None
      else
        var rest := token.value.1;
        Cons(token.value.0, ParseLexemes(if StartsWith(rest, ':') then AfterPositions(rest) else rest))
  }

  function Cons(head: string, tail: Option<seq<string>>): Option<seq<string>> {
    if tail.None? then None else Some([head] + tail.value)
  }

  function Append(head: seq<string>, tail: Option<seq<string>>): Option<seq<string>> {
    if tail.None? then None else Some(head + tail.value)
  }

  lemma {:induction false} AppendCons(head: seq<string>, x: string, tail: Option<seq<string>>)
    ensures Append(head, Cons(x, tail)) == Append(head + [x], tail)
  {
    if tail.Some? {
      assert head + ([x] + tail.value) == (head + [x]) + tail.value;
    }
  }

  /** The lexemes of a `tsvector` text value; `None` when the text is not in the printed form. */
  method ParseTsvectorLexemes(text: string) returns (r: Option<seq<string>>)
    ensures r == ParseLexemes(text)
  {
    hide ReadBody, Append, Cons;
    var lexemes: seq<string> := [];
    var i := 0;
    assert From(text, 0) == text;
    AppendNothing(ParseLexemes(text));
    while i < |text|
      invariant i <= |text|
      invariant ParseLexemes(text) == Append(lexemes, ParseLexemes(From(text, i)))
    {
      FromNext(text, i);
      if text[i] == ' ' {
        i := i + 1;
      } else if text[i] == '\'' {
        var token := ReadQuoted(text, i);
        if token.None? {
          AppendFails(lexemes);
          return None;
        }
        ghost var rest := From(text, token.value.1);
        AppendCons(lexemes, token.value.0, ParseLexemes(if StartsWith(rest, ':') then AfterPositions(rest) else rest));
        lexemes := lexemes + [token.value.0];
        i := token.value.1;
        if i < |text| && text[i] == ':' {
          i := SkipPositions(text, i);
        }
      } else {
        AppendFails(lexemes);
        return None;
      }
    }
    AppendEnds(lexemes);
    r := Some(lexemes);
  }

  method SkipPositions(text: string, start: nat) returns (i: nat)
    requires start < |text| && text[start] == ':'
    ensures start < i <= |text| && From(text, i) == AfterPositions(From(text, start))
  {
    hide AfterPositions;
    PositionStep(text, start);
    i := start + 1;
    while i < |text| && text[i] != ' '
      invariant start < i <= |text| && AfterPositions(From(text, i)) == AfterPositions(From(text, start))
    {
      PositionStep(text, i);
      i := i + 1;
    }
    PositionsEnd(text, i);
  }

  lemma {:induction false} PositionStep(text: string, i: nat)
    requires i < |text| && text[i] != ' '
    ensures AfterPositions(From(text, i)) == AfterPositions(From(text, i + 1))
  {
    FromNext(text, i);
  }

  lemma {:induction false} PositionsEnd(text: string, i: nat)
    requires i == |text| || (i < |text| && text[i] == ' ')
    ensures AfterPositions(From(text, i)) == From(text, i)
  {
  }

  lemma {:induction false} AppendNothing(r: Option<seq<string>>)
    ensures Append([], r) == r
  {
    assert r.Some? ==> [] + r.value == r.value;
  }

  lemma {:induction false} AppendFails(lexemes: seq<string>)
    ensures Append(lexemes, None) == None
  {
  }

  lemma {:induction false} AppendEnds(lexemes: seq<string>)
    ensures Append(lexemes, Some([])) == Some(lexemes)
  {
    assert lexemes + [] == lexemes;
  }

  lemma {:induction false} PositionsHaveNoBlank(occurrences: seq<Occurrence>)
    requires Weighted(occurrences)
    ensures ' ' !in PositionsText(occurrences)
  {
    if occurrences != [] {
      var o := occurrences[0];
      assert o in occurrences;
      DigitsAreDigits(o.position);
      assert ' ' !in OccurrenceText(o);
      assert forall x | x in occurrences[1..] :: x in occurrences;
      PositionsHaveNoBlank(occurrences[1..]);
    }
  }

  lemma {:induction false} PositionsSkipped(inner: string, rest: string)
    requires ' ' !in inner && AtBoundary(rest)
    ensures AfterPositions(inner + rest) == rest
  {
    if inner == "" {
      assert inner + rest == rest;
    } else {
      assert (inner + rest)[1..] == inner[1..] + rest;
      PositionsSkipped(inner[1..], rest);
    }
  }

  lemma {:induction false} EntryRead(e: Entry, rest: string)
    requires Weighted(e.occurrences) && AtBoundary(rest)
    ensures ParseLexemes(EntryText(e) + rest) == Cons(e.lexeme, ParseLexemes(rest))
  {
    hide PositionsText, Escape, ReadBody, AfterPositions, Weighted, Cons;
    var positions := if e.occurrences == [] then "" else ":" + PositionsText(e.occurrences);
    var tail := positions + rest;
    var s := EntryText(e) + rest;
    assert s[0] == '\'' && s[1..] == Escape(e.lexeme) + "'" + tail;
    if e.occurrences == [] {
      assert tail == rest;
    } else {
      PositionsHaveNoBlank(e.occurrences);
      PositionsSkipped(positions, rest);
    }
    ReadEscaped(e.lexeme, tail);
  }

  /** Every printed vector is read back as its lexemes, in order. */
  lemma {:induction false} PrintedVectorRead(entries: seq<Entry>)
    requires forall e | e in entries :: Weighted(e.occurrences)
    ensures ParseLexemes(VectorText(entries)) == Some(Lexemes(entries))
  {
    hide EntryText, ReadBody;
    if entries == [] {
      assert Lexemes(entries) == [];
    } else {
      var tail := entries[1..];
      assert entries[0] in entries;
      assert forall e | e in tail :: e in entries;
      PrintedVectorRead(tail);
      assert Lexemes(entries) == [entries[0].lexeme] + Lexemes(tail);
      if tail == [] {
        EntryRead(entries[0], "");
        assert VectorText(entries) == EntryText(entries[0]) + "";
      } else {
        var rest := " " + VectorText(tail);
        EntryRead(entries[0], rest);
        assert rest[1..] == VectorText(tail);
        assert VectorText(entries) == EntryText(entries[0]) + rest;
      }
    }
  }

  lemma {:induction false} NoEscapes(text: string)
    requires forall c | c in text :: c != '\'' && c != '\\'
    ensures Escape(text) == text
  {
    if text != "" {
      assert text[0] in text && forall c | c in text[1..] :: c in text;
      NoEscapes(text[1..]);
      assert [text[0]] + text[1..] == text;
    }
  }

  /** Occurrences as PostgreSQL prints them: positions with the weights other than D. */
  lemma {:induction false} PositionsExample()
    ensures PositionsText([Occurrence(3, 'A'), Occurrence(5, 'D')]) == "3A,5"
    ensures Weighted([Occurrence(3, 'A'), Occurrence(5, 'D')]) && !Weighted([Occurrence(1, 'E')])
  {
    var occurrences := [Occurrence(3, 'A'), Occurrence(5, 'D')];
    assert Digits(3) == "3" && Digits(5) == "5";
    assert occurrences[1..] == [Occurrence(5, 'D')];
    assert Occurrence(1, 'E') in [Occurrence(1, 'E')];
  }

  /** A printed vector: quoted lexemes, one after another, each with its positions if it has any. */
  lemma {:induction false} VectorExample(a: string, b: string, occurrences: seq<Occurrence>)
    requires occurrences != [] && forall c | c in a + b :: c != '\'' && c != '\\'
    ensures VectorText([Entry(a, occurrences), Entry(b, [])])
         == "'" + a + "':" + PositionsText(occurrences) + " '" + b + "'"
  {
    hide PositionsText, Escape;
    assert forall c | c in a :: c in a + b;
    assert forall c | c in b :: c in a + b;
    NoEscapes(a);
    NoEscapes(b);
    var entries := [Entry(a, occurrences), Entry(b, [])];
    assert entries[1..] == [Entry(b, [])];
    assert EntryText(entries[1]) == "'" + b + "'" + "";
    assert EntryText(entries[0]) + " " + ("'" + b + "'")
        == "'" + a + "':" + PositionsText(occurrences) + " '" + b + "'";
  }

  /** The document entries spell: each lexeme with its occurrences. */
  lemma {:induction false} SpelledDocument(a: string, b: string, x: Occurrence, y: Occurrence)
    requires a != b
    ensures Spells([Entry(a, [x, y]), Entry(b, [])], map[a := {x, y}, b := {}])
  {
    var entries := [Entry(a, [x, y]), Entry(b, [])];
    var none: seq<Occurrence> := [];
    assert (set o | o in none) == {} && (set o | o in [x, y]) == {x, y};
    assert Lexemes(entries) == [a, b];
  }

  lemma {:induction false} SpelledExactly(entries: seq<Entry>, doc: Document, lexeme: string, e: Entry, o: Occurrence)
    requires Spells(entries, doc)
    ensures lexeme in doc <==> exists i | 0 <= i < |entries| :: entries[i].lexeme == lexeme
    ensures e in entries ==> e.lexeme in doc && (o in doc[e.lexeme] <==> o in e.occurrences)
  {
    if lexeme in doc {
      var i :| 0 <= i < |entries| && Lexemes(entries)[i] == lexeme;
    }
    if i :| 0 <= i < |entries| && entries[i].lexeme == lexeme {
      assert Lexemes(entries)[i] == lexeme;
    }
  }
}
