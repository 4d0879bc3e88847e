/** `text[]` values: the literal they are stored as, and how it is read back. */
module ArrayLiteral {
  import opened Bytes
  import opened Chars
  import opened JsonTerms

  /** One array element; `None` is NULL. */
  type Element = Option<string>

  // ---- The writer ----

  function EscapeQuoted(text: string): string {
    if text == "" then "" else EscapeOne(text[0]) + EscapeQuoted(text[1..])
  }

  function EscapeOne(c: char): string {
    if c == '"' || c == '\\' then ['\\', c] else [c]
  }

  function ElementText(e: Element): string {
    if e.None? then "NULL" else "\"" + EscapeQuoted(e.value) + "\""
  }

  function ElementsText(items: seq<Element>): string {
    if items == [] then ""
    else if |items| == 1 then ElementText(items[0])
    else ElementText(items[0]) + "," + ElementsText(items[1..])
  }

  /** A lower bound other than 1 is kept as an explicit prefix. */
  function BoundsText(items: seq<Element>, lower: int): string {
    if lower != 1 && items != [] then "[" + IntText(lower) + ":" + IntText(lower + |items| - 1) + "]=" else ""
  }

  function LiteralText(items: seq<Element>, lower: int): string {
    BoundsText(items, lower) + "{" + ElementsText(items) + "}"
  }

  lemma {:induction false} ElementsTextSnoc(items: seq<Element>, e: Element)
    ensures ElementsText(items + [e]) == ElementsText(items) + (if items == [] then "" else ",") + ElementText(e)
  {
    hide ElementText;
    if items == [] {
      assert items + [e] == [e];
    } else {
      var tail := items[1..];
      ElementsTextSnoc(tail, e);
      assert (items + [e])[1..] == tail + [e];
      FourParts(ElementText(items[0]) + ",", ElementsText(tail), if tail == [] then "" else ",", ElementText(e));
    }
  }

  method TextArrayLiteral(items: seq<Element>, lower: int) returns (out: string)
    ensures out == LiteralText(items, lower)
  {
    hide ElementText, ElementsText, IntText, EscapeQuoted;
    out := "";
    if lower != 1 && items != [] {
      var upper := lower + |items| - 1;
      out := out + "[" + IntText(lower) + ":" + IntText(upper) + "]=";
    }
    out := out + "{";
    ghost var head := out;
    assert ElementsText([]) == "" by {
      NoElements();
    }
    for i := 0 to |items|
      invariant out == head + ElementsText(items[..i])
    {
      ghost var before := ElementsText(items[..i]);
      if i > 0 {
        out := out + ",";
      }
      var text := WriteElement(items[i]);
      out := out + text;
      ElementsTextSnoc(items[..i], items[i]);
      FourParts(head, before, if i > 0 then "," else "", text);
      assert items[..i + 1] == items[..i] + [items[i]];
    }
    assert items[..|items|] == items;
    out := out + "}";
  }

  lemma {:induction false} NoElements()
    ensures ElementsText([]) == ""
  {
  }

  lemma {:induction false} EscapeSnoc(text: string, c: char)
    ensures EscapeQuoted(text + [c]) == EscapeQuoted(text) + EscapeOne(c)
  {
    hide EscapeOne;
    if text == "" {
      assert text + [c] == [c];
    } else {
      EscapeSnoc(text[1..], c);
      assert (text + [c])[1..] == text[1..] + [c];
    }
  }

  method WriteElement(e: Element) returns (out: string)
    ensures out == ElementText(e)
  {
    if e.None? {
      return "NULL";
    }
    out := "\"";
    for k := 0 to |e.value|
      invariant out == "\"" + EscapeQuoted(e.value[..k])
    {
      var c := e.value[k];
      EscapeSnoc(e.value[..k], c);
      assert e.value[..k + 1] == e.value[..k] + [c];
      if c == '"' || c == '\\' {
        out := out + ['\\'];
      }
      out := out + [c];
    }
    assert e.value[..|e.value|] == e.value;
    out := out + "\"";
  }

  // ---- The reader, on the text still to be read ----

  /** Unicode white space. */
  predicate IsSpace(c: char) {
    || '\t' <= c <= '\r' || c == ' ' || c == '\U{85}' || c == '\U{A0}' || c == '\U{1680}'
    || '\U{2000}' <= c <= '\U{200A}' || c == '\U{2028}' || c == '\U{2029}' || c == '\U{202F}'
    || c == '\U{205F}' || c == '\U{3000}'
  }

  function TrimStart(s: string): (t: string)
    ensures |t| <= |s|
  {
    if s != "" && IsSpace(s[0]) then TrimStart(s[1..]) else s
  }

  function TrimEnd(s: string): (t: string)
    ensures |t| <= |s|
  {
    if s != "" && IsSpace(s[|s| - 1]) then TrimEnd(s[..|s| - 1]) else s
  }

  /** The text before and after the first `mark`. */
  function SplitOnce(s: string, mark: string): Option<(string, string)> {
    if |s| < |mark| then None
    else if s[..|mark|] == mark then Some(("", s[|mark|..]))
    else if s == "" then None
    else
      var rest := SplitOnce(s[1..], mark);
      if rest.None? then None else Some(([s[0]] + rest.value.0, rest.value.1))
  }

  predicate IsBound(part: string) {
    var digits := if part != "" && part[0] == '-' then part[1..] else part;
    digits != "" && forall c | c in digits :: '0' <= c <= '9'
  }

  function StripDimensionPrefix(text: string): string {
    if text == "" || text[0] != '[' then text
    else
      var split := SplitOnce(text[1..], "]=");
      if split.None? then text
      else
        var bounds := SplitOnce(split.value.0, ":");
        if bounds.Some? && IsBound(bounds.value.0) && IsBound(bounds.value.1) then split.value.1 else text
  }

  predicate IsNullWord(v: string) {
    && |v| == 4 && (v[0] == 'n' || v[0] == 'N') && (v[1] == 'u' || v[1] == 'U')
    && (v[2] == 'l' || v[2] == 'L') && (v[3] == 'l' || v[3] == 'L')
  }

  /** The rest of a double-quoted element, from just after its opening quote. */
  function ReadDouble(s: string): (r: Token)
    ensures r.Some? ==> |r.value.1| < |s|
  {
    if s == "" then None
    else if s[0] == '\\' then if |s| < 2 then None else Prepend(s[1], ReadDouble(s[2..]))
    else if s[0] == '"' then Some(("", s[1..]))
    else Prepend(s[0], ReadDouble(s[1..]))
  }

  /** An unquoted element, up to the next comma. */
  function ReadBare(s: string): (r: Token)
    ensures r.Some? ==> |r.value.1| <= |s| && (r.value.1 == "" || r.value.1[0] == ',')
  {
    if s == "" || s[0] == ',' then Some(("", s))
    else if s[0] == '\\' then if |s| < 2 then None else Prepend(s[1], ReadBare(s[2..]))
    else Prepend(s[0], ReadBare(s[1..]))
  }

  /** The next element and the text after it and its trailing blanks. */
  function ReadElement(s: string): (r: Option<(Element, string)>)
    ensures r.Some? && r.value.1 != "" ==> |r.value.1| <= |s|
  {
    var t := TrimStart(s);
    if t != "" && t[0] == '{' then None
    else if t != "" && t[0] == '"' then
      var token := ReadDouble(t[1..]);
      if token.None? then None else Some((Some(token.value.0), TrimStart(token.value.1)))
    else
      var token := ReadBare(t);
      if token.None? then None
      else
        var v := TrimEnd(token.value.0);
        Some((if IsNullWord(v) then None else Some(v), TrimStart(token.value.1)))
  }

  function ReadElements(s: string): Option<seq<Element>>
    decreases |s|
  {
    var first := ReadElement(s);
    if first.None? then None
    else if first.value.1 == "" then Some([first.value.0])
    else if first.value.1[0] != ',' then None
    else ConsElement(first.value.0, ReadElements(first.value.1[1..]))
  }

  function ConsElement(e: Element, rest: Option<seq<Element>>): Option<seq<Element>> {
    if rest.None? then None else Some([e] + rest.value)
  }

  /** How a JSON array is read as elements: other values keep their JSON text. */
  datatype JsonText = JsonText(parse: string -> Option<Json>, show: Json -> string)

  function JsonElement(lib: JsonText, v: Json): Element {
    match v
    case Null => None
    case Str(text) => Some(text)
    case _ => Some(lib.show(v))
  }

  function ParseArray(lib: JsonText, text: string): Option<seq<Element>> {
    var trimmed := StripDimensionPrefix(TrimStart(TrimEnd(text)));
    if trimmed != "" && trimmed[0] == '[' then
      var parsed := lib.parse(trimmed);
      if parsed.None? || !parsed.value.Array? then None
      else
        var items := parsed.value.items;
        Some(seq(|items|, i requires 0 <= i < |items| => JsonElement(lib, items[i])))
    else if |trimmed| < 2 || trimmed[0] != '{' || trimmed[|trimmed| - 1] != '}' then None
    else
      var inner := trimmed[1..|trimmed| - 1];
      if TrimStart(TrimEnd(inner)) == "" then Some([]) else ReadElements(inner)
  }

  // ---- Reading back what was written ----

  lemma {:induction false} EscapedCharRead(c: char, tail: string)
    ensures ReadDouble(EscapeOne(c) + tail) == Prepend(c, ReadDouble(tail))
  {
    var s := EscapeOne(c) + tail;
    assert s[|EscapeOne(c)|..] == tail;
  }

  lemma {:induction false} QuoteEnds(rest: string)
    ensures ReadDouble("\"" + rest) == Some(("", rest))
  {
    assert ("\"" + rest)[1..] == rest;
  }

  lemma {:induction false} QuotedRead(text: string, rest: string)
    ensures ReadDouble(EscapeQuoted(text) + "\"" + rest) == Some((text, rest))
  {
    hide ReadDouble, EscapeOne;
    if text == "" {
      QuoteEnds(rest);
      assert EscapeQuoted(text) + "\"" + rest == "\"" + rest;
    } else {
      QuotedRead(text[1..], rest);
      EscapedCharRead(text[0], EscapeQuoted(text[1..]) + "\"" + rest);
      FourParts(EscapeOne(text[0]), EscapeQuoted(text[1..]), "\"", rest);
      assert [text[0]] + text[1..] == text;
    }
  }

  lemma {:induction false} BareRead(v: string, rest: string)
    requires (forall c | c in v :: c != ',' && c != '\\') && (rest == "" || rest[0] == ',')
    ensures ReadBare(v + rest) == Some((v, rest))
  {
    if v == "" {
      assert v + rest == rest;
    } else {
      assert forall c | c in v[1..] :: c in v;
      BareRead(v[1..], rest);
      assert v[0] in v;
      assert (v + rest)[1..] == v[1..] + rest;
      assert [v[0]] + v[1..] == v;
    }
  }

  lemma {:induction false} WrittenElementRead(e: Element, rest: string)
    requires rest == "" || rest[0] == ','
    ensures ReadElement(ElementText(e) + rest) == Some((e, rest))
  {
    hide EscapeQuoted, ReadDouble, ReadBare;
    var s := ElementText(e) + rest;
    assert TrimStart(s) == s && TrimStart(rest) == rest;
    if e.None? {
      assert s == "NULL" + rest;
      BareRead("NULL", rest);
      assert TrimEnd("NULL") == "NULL";
    } else {
      assert s[1..] == EscapeQuoted(e.value) + "\"" + rest;
      QuotedRead(e.value, rest);
    }
  }

  lemma {:induction false} LastElementRead(s: string, e: Element)
    requires ReadElement(s) == Some((e, ""))
    ensures ReadElements(s) == Some([e])
  {
    hide ReadElement;
  }

  lemma {:induction false} NextElementRead(s: string, e: Element, t: string)
    requires ReadElement(s) == Some((e, "," + t))
    ensures ReadElements(s) == ConsElement(e, ReadElements(t))
  {
    hide ReadElement;
    assert ("," + t)[1..] == t;
  }

  lemma {:induction false} WrittenElementsRead(items: seq<Element>)
    requires items != []
    ensures ReadElements(ElementsText(items)) == Some(items)
  {
    hide ElementText, ReadElement, ReadElements;
    if |items| == 1 {
      WrittenElementRead(items[0], "");
      assert ElementText(items[0]) + "" == ElementText(items[0]);
      LastElementRead(ElementsText(items), items[0]);
      assert items == [items[0]];
    } else {
      var tail := ElementsText(items[1..]);
      WrittenElementRead(items[0], "," + tail);
      WrittenElementsRead(items[1..]);
      assert ElementsText(items) == ElementText(items[0]) + ("," + tail);
      NextElementRead(ElementsText(items), items[0], tail);
      assert items == [items[0]] + items[1..];
    }
  }

  // ---- The dimension prefix ----

  lemma {:induction false} SplitFound(before: string, mark: string, after: string)
    requires mark != "" && mark[0] !in before
    ensures SplitOnce(before + mark + after, mark) == Some((before, after))
  {
    var s := before + mark + after;
    if before == "" {
      assert s == mark + after && s[..|mark|] == mark && s[|mark|..] == after;
    } else {
      assert s[0] == before[0] && before[0] != mark[0];
      assert s[..|mark|][0] != mark[0];
      assert s[1..] == before[1..] + mark + after;
      SplitFound(before[1..], mark, after);
      assert [before[0]] + before[1..] == before;
    }
  }

  lemma {:induction false} IntTextIsBound(n: int)
    ensures IsBound(IntText(n)) && ':' !in IntText(n) && ']' !in IntText(n)
  {
    hide Digits;
    var digits := Digits(if n < 0 then -n else n);
    DigitsAreDigits(if n < 0 then -n else n);
    assert n < 0 ==> IntText(n)[1..] == digits;
    assert digits[0] in digits;
  }

  lemma {:induction false} PrefixTail(lo: string, hi: string, body: string)
    ensures ("[" + lo + ":" + hi + "]=" + body)[1..] == (lo + ":" + hi) + "]=" + body
  {
  }

  lemma {:induction false} BoundsStripped(items: seq<Element>, lower: int)
    ensures var body := "{" + ElementsText(items) + "}";
            StripDimensionPrefix(BoundsText(items, lower) + body) == body
  {
    hide ElementsText, SplitOnce, IntText, IsBound;
    var body := "{" + ElementsText(items) + "}";
    if lower != 1 && items != [] {
      var lo, hi := IntText(lower), IntText(lower + |items| - 1);
      IntTextIsBound(lower);
      IntTextIsBound(lower + |items| - 1);
      PrefixTail(lo, hi, body);
      assert ']' !in lo + ":" + hi;
      SplitFound(lo + ":" + hi, "]=", body);
      SplitFound(lo, ":", hi);
    } else {
      assert BoundsText(items, lower) + body == body;
    }
  }

  lemma {:induction false} NotTrimmed(s: string)
    requires s != "" && !IsSpace(s[0]) && !IsSpace(s[|s| - 1])
    ensures TrimStart(TrimEnd(s)) == s
  {
  }

  lemma {:induction false} TrimKeepsInk(s: string, k: nat)
    requires k < |s| && !IsSpace(s[k])
    ensures TrimEnd(s) != "" && k < |TrimEnd(s)| && TrimEnd(s)[k] == s[k]
    ensures TrimStart(TrimEnd(s)) != ""
  {
    if IsSpace(s[|s| - 1]) {
      TrimKeepsInk(s[..|s| - 1], k);
    } else {
      TrimStartKeepsInk(s, k);
    }
  }

  lemma {:induction false} TrimStartKeepsInk(s: string, k: nat)
    requires k < |s| && !IsSpace(s[k])
    ensures TrimStart(s) != ""
  {
    if IsSpace(s[0]) {
      TrimStartKeepsInk(s[1..], k - 1);
    }
  }

  lemma {:induction false} ElementsStartWithInk(items: seq<Element>)
    requires items != []
    ensures ElementsText(items) != "" && !IsSpace(ElementsText(items)[0])
  {
    hide EscapeQuoted;
    var first := ElementText(items[0]);
    assert first != "" && (first[0] == 'N' || first[0] == '"');
    assert ElementsText(items)[0] == first[0];
  }

  /** Every stored array literal is read back as the array's elements. */
  lemma {:induction false} WrittenArrayRead(lib: JsonText, items: seq<Element>, lower: int)
    ensures ParseArray(lib, LiteralText(items, lower)) == Some(items)
  {
    hide ElementsText, StripDimensionPrefix, ReadElements, TrimStart, TrimEnd, BoundsText;
    var body := "{" + ElementsText(items) + "}";
    var s := LiteralText(items, lower);
    assert s == BoundsText(items, lower) + body;
    BoundsStripped(items, lower);
    LiteralInk(items, lower);
    NotTrimmed(s);
    assert body[1..|body| - 1] == ElementsText(items);
    if items == [] {
      NoElements();
      NothingTrims();
    } else {
      ElementsStartWithInk(items);
      TrimKeepsInk(ElementsText(items), 0);
      WrittenElementsRead(items);
    }
  }

  lemma {:induction false} NothingTrims()
    ensures TrimStart(TrimEnd("")) == ""
  {
  }

  lemma {:induction false} LiteralInk(items: seq<Element>, lower: int)
    ensures var s := LiteralText(items, lower); s != "" && !IsSpace(s[0]) && !IsSpace(s[|s| - 1])
  {
    hide ElementsText, IntText;
    var s := LiteralText(items, lower);
    assert s[|s| - 1] == '}';
    assert s[0] == '[' || s[0] == '{';
  }

  // ---- Other spellings ----

  /** The 25 characters that count as white space. */
  lemma {:induction false} SpacesExactly(c: char)
    ensures IsSpace(c) <==>
            c as int in {0x09, 0x0A, 0x0B, 0x0C, 0x0D, 0x20, 0x85, 0xA0, 0x1680, 0x2000, 0x2001, 0x2002, 0x2003, 0x2004,
                         0x2005, 0x2006, 0x2007, 0x2008, 0x2009, 0x200A, 0x2028, 0x2029, 0x202F, 0x205F, 0x3000}
  {
  }

  predicate Blank(s: string) {
    forall c | c in s :: IsSpace(c)
  }

  lemma {:induction false} LeadingBlanks(blanks: string, s: string)
    requires Blank(blanks)
    ensures TrimStart(blanks + s) == TrimStart(s)
  {
    hide IsSpace;
    if blanks == "" {
      assert blanks + s == s;
    } else {
      assert blanks[0] in blanks && forall c | c in blanks[1..] :: c in blanks;
      LeadingBlanks(blanks[1..], s);
      assert (blanks + s)[1..] == blanks[1..] + s;
    }
  }

  lemma {:induction false} TrailingBlanks(s: string, blanks: string)
    requires Blank(blanks)
    ensures TrimEnd(s + blanks) == TrimEnd(s)
  {
    hide IsSpace;
    if blanks == "" {
      assert s + blanks == s;
    } else {
      var n := |blanks| - 1;
      assert blanks[n] in blanks && forall c | c in blanks[..n] :: c in blanks;
      TrailingBlanks(s, blanks[..n]);
      assert (s + blanks)[..|s + blanks| - 1] == s + blanks[..n];
    }
  }

  /** Blanks around a literal do not matter. */
  lemma {:induction false} BlanksAroundArray(lib: JsonText, before: string, s: string, after: string)
    requires Blank(before) && Blank(after) && s != "" && !IsSpace(s[|s| - 1])
    ensures ParseArray(lib, before + s + after) == ParseArray(lib, s)
  {
    hide IsSpace, StripDimensionPrefix, ReadElements;
    TrailingBlanks(before + s, after);
    assert (before + s)[|before + s| - 1] == s[|s| - 1];
    assert TrimEnd(before + s) == before + s && TrimEnd(s) == s;
    LeadingBlanks(before, s);
  }

  /** An element written without quotes, with blanks around it: the word itself, or NULL for that word in any case. */
  lemma {:induction false} BareElementRead(before: string, v: string, after: string, rest: string)
    requires Blank(before) && Blank(after) && (rest == "" || rest[0] == ',')
    requires v != "" && !IsSpace(v[0]) && !IsSpace(v[|v| - 1]) && v[0] != '{' && v[0] != '"'
    requires forall c | c in v :: c != ',' && c != '\\'
    ensures ReadElement(before + (v + after + rest)) == Some((if IsNullWord(v) then None else Some(v), rest))
    ensures v in {"null", "NULL", "Null", "nULL"} ==> IsNullWord(v)
    ensures |v| != 4 || v[0] !in {'n', 'N'} || v[1] !in {'u', 'U'} || v[2] !in {'l', 'L'} || v[3] !in {'l', 'L'} ==>
              !IsNullWord(v)
  {
    hide ReadBare, ReadDouble;
    LeadingBlanks(before, v + after + rest);
    var t := v + after + rest;
    assert TrimStart(t) == t && t[0] == v[0];
    forall c | c in v + after ensures c != ',' && c != '\\' {
      assert c in v || c in after;
    }
    BareRead(v + after, rest);
    assert (v + after) + rest == t;
    TrailingBlanks(v, after);
    assert TrimEnd(v) == v && TrimStart(rest) == rest;
  }

  predicate Occurs(s: string, mark: string, i: nat) {
    i + |mark| <= |s| && s[i..i + |mark|] == mark
  }

  lemma {:induction false} SplitAbsent(s: string, mark: string)
    requires mark != "" && forall i: nat :: !Occurs(s, mark, i)
    ensures SplitOnce(s, mark).None?
  {
    if |s| >= |mark| {
      assert !Occurs(s, mark, 0);
      OccursLater(s, mark);
      SplitAbsent(s[1..], mark);
    }
  }

  lemma {:induction false} OccursLater(s: string, mark: string)
    requires s != "" && forall i: nat :: !Occurs(s, mark, i)
    ensures forall i: nat :: !Occurs(s[1..], mark, i)
  {
    forall i: nat ensures !Occurs(s[1..], mark, i) {
      assert !Occurs(s, mark, i + 1);
      if i + |mark| <= |s[1..]| {
        assert s[1..][i..i + |mark|] == s[i + 1..i + 1 + |mark|];
      }
    }
  }

  /** A bounds prefix is dropped exactly when both bounds are whole numbers, with or without a sign. */
  lemma {:induction false} PrefixExactly(lo: string, hi: string, tail: string)
    requires ']' !in lo + hi && ':' !in lo
    ensures var s := "[" + lo + ":" + hi + "]=" + tail;
            StripDimensionPrefix(s) == if IsWhole(lo) && IsWhole(hi) then tail else s
  {
    hide SplitOnce;
    PrefixTail(lo, hi, tail);
    assert ']' !in lo + ":" + hi by {
      assert forall c | c in lo + ":" + hi :: c in lo + hi || c == ':';
    }
    SplitFound(lo + ":" + hi, "]=", tail);
    SplitFound(lo, ":", hi);
    WholeIsBound(lo);
    WholeIsBound(hi);
  }

  ghost predicate IsWhole(s: string) {
    || (s != "" && forall i | 0 <= i < |s| :: s[i] in "0123456789")
    || (|s| > 1 && s[0] == '-' && forall i | 1 <= i < |s| :: s[i] in "0123456789")
  }

  lemma {:induction false} WholeIsBound(s: string)
    ensures IsWhole(s) <==> IsBound(s)
  {
    forall c: char ensures c in "0123456789" <==> '0' <= c <= '9' {
      TenDigits(c);
    }
    if s != "" && s[0] == '-' {
      assert forall i | 1 <= i < |s| :: s[i] == s[1..][i - 1];
      assert forall i | 0 <= i < |s[1..]| :: s[1..][i] == s[i + 1];
    }
  }

  lemma {:induction false} TenDigits(c: char)
    ensures c in "0123456789" <==> '0' <= c <= '9'
  {
    if '0' <= c <= '9' {
      var i := c as int - '0' as int;
      assert "0123456789"[i] == c;
    }
  }

  /** A JSON array is read element by element: null as NULL, a string as its text, anything else as its JSON text. */
  lemma {:induction false} JsonArrayRead(lib: JsonText, s: string, items: seq<Json>, i: nat)
    requires s != "" && s[0] == '[' && !IsSpace(s[|s| - 1]) && lib.parse(s) == Some(Array(items)) && i < |items|
    requires forall k: nat :: !Occurs(s, "]=", k)
    ensures var r := ParseArray(lib, s);
            && r.Some? && |r.value| == |items|
            && r.value[i] == (if items[i].Null? then None
                              else if items[i].Str? then Some(items[i].text)
                              else Some(lib.show(items[i])))
  {
    hide SplitOnce, ReadElements;
    NotTrimmed(s);
    OccursLater(s, "]=");
    SplitAbsent(s[1..], "]=");
  }

  // ---- The reader as it runs, position by position ----

  lemma {:induction false} TrimStep(chars: string, i: nat)
    requires i <= |chars|
    ensures TrimStart(From(chars, i))
         == if i < |chars| && IsSpace(chars[i]) then TrimStart(From(chars, i + 1)) else From(chars, i)
  {
    hide IsSpace;
    if i < |chars| {
      FromNext(chars, i);
    }
  }

  method SkipSpaces(chars: string, start: nat) returns (i: nat)
    requires start <= |chars|
    ensures start <= i <= |chars| && From(chars, i) == TrimStart(From(chars, start))
  {
    hide IsSpace, TrimStart, From;
    i := start;
    while i < |chars| && IsSpace(chars[i])
      invariant start <= i <= |chars| && TrimStart(From(chars, i)) == TrimStart(From(chars, start))
    {
      TrimStep(chars, i);
      i := i + 1;
    }
    TrimStep(chars, i);
  }

  lemma {:induction false} DoubleStep(chars: string, i: nat, out: string)
    requires i < |chars| && chars[i] != '"' && (chars[i] == '\\' ==> i + 1 < |chars|)
    ensures var n := if chars[i] == '\\' then 2 else 1;
            Extend(out, ReadDouble(From(chars, i))) == Extend(out + [chars[i + n - 1]], ReadDouble(From(chars, i + n)))
  {
    hide Extend, Prepend;
    var n := if chars[i] == '\\' then 2 else 1;
    assert From(chars, i)[n..] == From(chars, i + n);
    ExtendPrepend(out, chars[i + n - 1], ReadDouble(From(chars, i + n)));
  }

  method ReadDoubleAt(chars: string, start: nat) returns (r: Option<(string, nat)>)
    requires start <= |chars|
    ensures r.None? <==> ReadDouble(From(chars, start)).None?
    ensures r.Some? ==> start < r.value.1 <= |chars|
    ensures r.Some? ==> ReadDouble(From(chars, start)) == Some((r.value.0, From(chars, r.value.1)))
  {
    hide ReadDouble, From;
    var value, i := "", start;
    ExtendNothing(ReadDouble(From(chars, start)));
    while i < |chars|
      invariant start <= i <= |chars|
      invariant ReadDouble(From(chars, start)) == Extend(value, ReadDouble(From(chars, i)))
    {
      if chars[i] == '\\' {
        if i + 1 >= |chars| {
          DoubleEnds(chars, i);
          return None;
        }
        DoubleStep(chars, i, value);
        value, i := value + [chars[i + 1]], i + 2;
      } else if chars[i] == '"' {
        DoubleEnds(chars, i);
        assert value + "" == value;
        return Some((value, i + 1));
      } else {
        DoubleStep(chars, i, value);
        value, i := value + [chars[i]], i + 1;
      }
    }
    DoubleEnds(chars, i);
    r := None;
  }

  lemma {:induction false} DoubleEnds(chars: string, i: nat)
    requires i <= |chars| && (i < |chars| ==> chars[i] == '"' || (chars[i] == '\\' && i + 1 == |chars|))
    ensures ReadDouble(From(chars, i))
         == if i < |chars| && chars[i] == '"' then Some(("", From(chars, i + 1))) else None
  {
    if i < |chars| {
      FromNext(chars, i);
    }
  }

  lemma {:induction false} BareStep(chars: string, i: nat, out: string)
    requires i < |chars| && chars[i] != ',' && (chars[i] == '\\' ==> i + 1 < |chars|)
    ensures var n := if chars[i] == '\\' then 2 else 1;
            Extend(out, ReadBare(From(chars, i))) == Extend(out + [chars[i + n - 1]], ReadBare(From(chars, i + n)))
  {
    hide Extend, Prepend;
    var n := if chars[i] == '\\' then 2 else 1;
    assert From(chars, i)[n..] == From(chars, i + n);
    ExtendPrepend(out, chars[i + n - 1], ReadBare(From(chars, i + n)));
  }

  method ReadBareAt(chars: string, start: nat) returns (r: Option<(string, nat)>)
    requires start <= |chars|
    ensures r.None? <==> ReadBare(From(chars, start)).None?
    ensures r.Some? ==> start <= r.value.1 <= |chars|
    ensures r.Some? ==> ReadBare(From(chars, start)) == Some((r.value.0, From(chars, r.value.1)))
  {
    hide ReadBare, From;
    var value, i := "", start;
    ExtendNothing(ReadBare(From(chars, start)));
    while i < |chars| && chars[i] != ','
      invariant start <= i <= |chars|
      invariant ReadBare(From(chars, start)) == Extend(value, ReadBare(From(chars, i)))
    {
      if chars[i] == '\\' {
        if i + 1 >= |chars| {
          BareEnds(chars, i);
          return None;
        }
        BareStep(chars, i, value);
        value, i := value + [chars[i + 1]], i + 2;
      } else {
        BareStep(chars, i, value);
        value, i := value + [chars[i]], i + 1;
      }
    }
    BareEnds(chars, i);
    assert value + "" == value;
    r := Some((value, i));
  }

  lemma {:induction false} BareEnds(chars: string, i: nat)
    requires i <= |chars| && (i < |chars| ==> chars[i] == ',' || (chars[i] == '\\' && i + 1 == |chars|))
    ensures ReadBare(From(chars, i)) == if i < |chars| && chars[i] == '\\' then None else Some(("", From(chars, i)))
  {
    if i < |chars| {
      FromNext(chars, i);
    }
  }

  method ReadElementAt(chars: string, start: nat) returns (r: Option<(Element, nat)>)
    requires start <= |chars|
    ensures r.None? <==> ReadElement(From(chars, start)).None?
    ensures r.Some? ==> start <= r.value.1 <= |chars|
    ensures r.Some? ==> ReadElement(From(chars, start)) == Some((r.value.0, From(chars, r.value.1)))
  {
    hide ReadBare, ReadDouble, TrimStart, TrimEnd;
    var i := SkipSpaces(chars, start);
    if i < |chars| && chars[i] == '{' {
      return None;
    }
    if i < |chars| && chars[i] == '"' {
      FromNext(chars, i);
      var token := ReadDoubleAt(chars, i + 1);
      if token.None? {
        return None;
      }
      var next := SkipSpaces(chars, token.value.1);
      return Some((Some(token.value.0), next));
    }
    var token := ReadBareAt(chars, i);
    if token.None? {
      return None;
    }
    var next := SkipSpaces(chars, token.value.1);
    var value := TrimEnd(token.value.0);
    r := Some((if IsNullWord(value) then None else Some(value), next));
  }

  function JoinElements(items: seq<Element>, rest: Option<seq<Element>>): Option<seq<Element>> {
    if rest.None? then None else Some(items + rest.value)
  }

  lemma {:induction false} JoinCons(items: seq<Element>, e: Element, rest: Option<seq<Element>>)
    ensures JoinElements(items, ConsElement(e, rest)) == JoinElements(items + [e], rest)
  {
    if rest.Some? {
      assert items + ([e] + rest.value) == (items + [e]) + rest.value;
    }
  }

  method ReadElementsOf(inner: string) returns (r: Option<seq<Element>>)
    ensures r == ReadElements(inner)
  {
    hide ReadElement, JoinElements, ConsElement;
    var items: seq<Element> := [];
    var i := 0;
    assert From(inner, 0) == inner;
    JoinEnds([], ReadElements(inner));
    while true
      invariant i <= |inner|
      invariant ReadElements(inner) == JoinElements(items, ReadElements(From(inner, i)))
      decreases |inner| - i
    {
      var element := ReadElementAt(inner, i);
      if element.None? {
        JoinEnds(items, None);
        return None;
      }
      var next := element.value.1;
      if next == |inner| {
        JoinEnds(items, Some([element.value.0]));
        return Some(items + [element.value.0]);
      }
      FromNext(inner, next);
      if inner[next] != ',' {
        JoinEnds(items, None);
        return None;
      }
      JoinCons(items, element.value.0, ReadElements(From(inner, next + 1)));
      items := items + [element.value.0];
      i := next + 1;
    }
  }

  lemma {:induction false} JoinEnds(items: seq<Element>, rest: Option<seq<Element>>)
    ensures JoinElements(items, rest) == if rest.None? then None else Some(items + rest.value)
    ensures items == [] ==> JoinElements(items, rest) == rest
  {
    assert rest.Some? ==> [] + rest.value == rest.value;
  }

  /** Reads a one-dimensional array literal, or a JSON array. */
  method ParseTextArray(lib: JsonText, text: string) returns (r: Option<seq<Element>>)
    ensures r == ParseArray(lib, text)
    ensures forall items, lower | LiteralText(items, lower) == text :: r == Some(items)
  {
    hide StripDimensionPrefix, ReadElements, TrimStart, TrimEnd;
    forall items, lower | LiteralText(items, lower) == text ensures ParseArray(lib, text) == Some(items) {
      WrittenArrayRead(lib, items, lower);
    }
    var trimmed := StripDimensionPrefix(TrimStart(TrimEnd(text)));
    if trimmed != "" && trimmed[0] == '[' {
      var parsed := lib.parse(trimmed);
      if parsed.None? || !parsed.value.Array? {
        return None;
      }
      var items := parsed.value.items;
      return Some(seq(|items|, i requires 0 <= i < |items| => JsonElement(lib, items[i])));
    }
    if |trimmed| < 2 || trimmed[0] != '{' || trimmed[|trimmed| - 1] != '}' {
      return None;
    }
    var inner := trimmed[1..|trimmed| - 1];
    if TrimStart(TrimEnd(inner)) == "" {
      return Some([]);
    }
    r := ReadElementsOf(inner);
  }
}
