/** The term encoding of the per-segment filters, which is persisted inside the bitmaps. */
module Terms {
  import opened Bytes

  type Term = ByteString

  /** A conjunction of clauses, each a disjunction of terms. */
  type Clauses = seq<seq<Term>>

  const TAG_ARRAY_ELEMENT: Byte := 0x01
  const TAG_JSON_KEY: Byte := 0x02
  const TAG_JSON_PAIR: Byte := 0x03
  const TAG_JSON_ELEMENT: Byte := 0x04
  const TAG_TSVECTOR_LEXEME: Byte := 0x05

  function Utf8Char(ch: char): ByteString {
    var c := ch as int;
    if c < 0x80 then [c]
    else if c < 0x800 then [0xC0 + c / 0x40, 0x80 + c % 0x40]
    else if c < 0x10000 then [0xE0 + c / 0x1000, 0x80 + c / 0x40 % 0x40, 0x80 + c % 0x40]
    else [0xF0 + c / 0x40000, 0x80 + c / 0x1000 % 0x40, 0x80 + c / 0x40 % 0x40, 0x80 + c % 0x40]
  }

  function Utf8(text: string): ByteString {
    if text == "" then [] else Utf8Char(text[0]) + Utf8(text[1..])
  }

  /** The order Rust gives strings: that of their UTF-8 bytes. */
  predicate TextLess(a: string, b: string) {
    Less(Utf8(a), Utf8(b))
  }

  function ArrayElementTerm(element: string): Term {
    [TAG_ARRAY_ELEMENT] + Utf8(element)
  }

  function LexemeTerm(lexeme: string): Term {
    [TAG_TSVECTOR_LEXEME] + Utf8(lexeme)
  }

  function JsonKeyTerm(key: string): Term {
    [TAG_JSON_KEY] + Utf8(key)
  }

  function JsonElementTerm(scalar: ByteString): Term {
    [TAG_JSON_ELEMENT] + scalar
  }

  const U32_MAX: int := 0xFFFF_FFFF

  function U32BigEndian(n: nat): ByteString
    requires n <= U32_MAX
  {
    [n / 0x1000000, n / 0x10000 % 0x100, n / 0x100 % 0x100, n % 0x100]
  }

  /** The key is length-prefixed; a key too long for 32 bits is marked with the largest length. */
  function JsonPairTerm(key: string, scalar: ByteString): Term {
    var bytes := Utf8(key);
    [TAG_JSON_PAIR] + U32BigEndian(if |bytes| < U32_MAX then |bytes| else U32_MAX) + bytes + scalar
  }

  /** A row holding `terms` satisfies every clause. */
  ghost predicate Satisfies(terms: set<Term>, clauses: Clauses) {
    forall i | 0 <= i < |clauses| :: Hits(terms, clauses[i])
  }

  ghost predicate Hits(terms: set<Term>, clause: seq<Term>) {
    exists t | t in clause :: t in terms
  }

  lemma {:induction false} SatisfiesConcat(terms: set<Term>, a: Clauses, b: Clauses)
    ensures Satisfies(terms, a + b) <==> Satisfies(terms, a) && Satisfies(terms, b)
  {
    if Satisfies(terms, a + b) {
      forall i | 0 <= i < |a| ensures Hits(terms, a[i]) {
        assert (a + b)[i] == a[i];
      }
      forall i | 0 <= i < |b| ensures Hits(terms, b[i]) {
        assert (a + b)[|a| + i] == b[i];
      }
    }
  }

  // ---- Distinct values have distinct terms ----

  lemma {:induction false} Utf8CharPrefixFree(c: char, d: char, x: ByteString, y: ByteString)
    requires Utf8Char(c) + x == Utf8Char(d) + y
    ensures c == d && x == y
  {
    var a, b := Utf8Char(c), Utf8Char(d);
    assert (a + x)[0] == a[0] && (b + y)[0] == b[0];
    assert |a| == |b|;
    assert a == (a + x)[..|a|] == (b + y)[..|b|] == b;
    assert x == (a + x)[|a|..] && y == (b + y)[|b|..];
    Utf8CharInjective(c, d);
  }

  lemma {:induction false} Utf8CharInjective(c: char, d: char)
    requires Utf8Char(c) == Utf8Char(d)
    ensures c == d
  {
    assert |Utf8Char(c)| == |Utf8Char(d)|;
    var m, n := c as int, d as int;
    if |Utf8Char(c)| == 1 {
      assert Utf8Char(c)[0] == Utf8Char(d)[0];
    } else if |Utf8Char(c)| == 2 {
      assert Utf8Char(c)[0] == Utf8Char(d)[0] && Utf8Char(c)[1] == Utf8Char(d)[1];
    } else if |Utf8Char(c)| == 3 {
      assert Utf8Char(c)[0] == Utf8Char(d)[0] && Utf8Char(c)[1] == Utf8Char(d)[1] && Utf8Char(c)[2] == Utf8Char(d)[2];
      assert m / 0x1000 == m / 0x40 / 0x40 && n / 0x1000 == n / 0x40 / 0x40;
    } else {
      assert Utf8Char(c)[0] == Utf8Char(d)[0] && Utf8Char(c)[1] == Utf8Char(d)[1];
      assert Utf8Char(c)[2] == Utf8Char(d)[2] && Utf8Char(c)[3] == Utf8Char(d)[3];
      assert m / 0x40000 == m / 0x40 / 0x40 / 0x40 && n / 0x40000 == n / 0x40 / 0x40 / 0x40;
      assert m / 0x1000 == m / 0x40 / 0x40 && n / 0x1000 == n / 0x40 / 0x40;
    }
  }

  lemma {:induction false} Utf8Injective(a: string, b: string)
    requires Utf8(a) == Utf8(b)
    ensures a == b
  {
    if a != "" && b != "" {
      Utf8CharPrefixFree(a[0], b[0], Utf8(a[1..]), Utf8(b[1..]));
      Utf8Injective(a[1..], b[1..]);
      assert a == [a[0]] + a[1..] && b == [b[0]] + b[1..];
    }
  }

  lemma {:induction false} TextOrder(a: string, b: string)
    ensures TextLess(a, b) || a == b || TextLess(b, a)
    ensures TextLess(a, b) ==> a != b && !TextLess(b, a)
  {
    LessTotal(Utf8(a), Utf8(b));
    if Utf8(a) == Utf8(b) {
      Utf8Injective(a, b);
    }
    if TextLess(a, b) {
      LessAsymmetric(Utf8(a), Utf8(b));
    }
  }

  /** Two lexemes have one term only if they are the same lexeme. */
  lemma {:induction false} LexemeTermInjective(a: string, b: string)
    requires LexemeTerm(a) == LexemeTerm(b)
    ensures a == b
  {
    assert LexemeTerm(a)[1..] == Utf8(a) && LexemeTerm(b)[1..] == Utf8(b);
    Utf8Injective(a, b);
  }

  /** The length prefix makes a key/value pair readable in one way, for every key shorter than 4 GiB. */
  lemma {:induction false} JsonPairTermInjective(k: string, s: ByteString, k': string, s': ByteString)
    requires |Utf8(k)| < U32_MAX && |Utf8(k')| < U32_MAX && JsonPairTerm(k, s) == JsonPairTerm(k', s')
    ensures k == k' && s == s'
  {
    var t, t' := JsonPairTerm(k, s), JsonPairTerm(k', s');
    var n, n' := |Utf8(k)|, |Utf8(k')|;
    assert U32BigEndian(n) == t[1..5] == t'[1..5] == U32BigEndian(n');
    U32Injective(n, n');
    assert Utf8(k) == t[5..5 + n] == t'[5..5 + n] == Utf8(k');
    assert s == t[5 + n..] && s' == t'[5 + n..];
    Utf8Injective(k, k');
  }

  lemma {:induction false} U32Injective(m: nat, n: nat)
    requires m <= U32_MAX && n <= U32_MAX && U32BigEndian(m) == U32BigEndian(n)
    ensures m == n
  {
    var a, b := U32BigEndian(m), U32BigEndian(n);
    assert a[0] == b[0] && a[1] == b[1] && a[2] == b[2] && a[3] == b[3];
    assert m / 0x10000 == m / 0x100 / 0x100 && n / 0x10000 == n / 0x100 / 0x100;
    assert m / 0x1000000 == m / 0x100 / 0x100 / 0x100 && n / 0x1000000 == n / 0x100 / 0x100 / 0x100;
  }

  /** The persisted form of the terms: a tag byte, then the text; a pair has the key's length in four bytes, high byte
      first, before it. */
  lemma {:induction false} TermLayout(text: string, scalar: ByteString)
    ensures ArrayElementTerm(text) == [1] + Utf8(text) && JsonKeyTerm(text) == [2] + Utf8(text)
    ensures JsonElementTerm(scalar) == [4] + scalar && LexemeTerm(text) == [5] + Utf8(text)
    ensures |Utf8(text)| < 256 ==> JsonPairTerm(text, scalar) == [3, 0, 0, 0, |Utf8(text)|] + Utf8(text) + scalar
    ensures |Utf8(text)| == 0x1020304 ==> JsonPairTerm(text, scalar) == [3, 1, 2, 3, 4] + Utf8(text) + scalar
  {
    hide Utf8;
  }

  /** UTF-8 of one character of each length. */
  lemma {:induction false} Utf8Examples()
    ensures Utf8("A") == [0x41] && Utf8("\U{E9}") == [0xC3, 0xA9]
    ensures Utf8("\U{20AC}") == [0xE2, 0x82, 0xAC] && Utf8("\U{1F600}") == [0xF0, 0x9F, 0x98, 0x80]
  {
  }
}
