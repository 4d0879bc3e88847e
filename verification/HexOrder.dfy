/** Hex-encoded bounds: when comparing them as text agrees with comparing the bytes they stand for. */
module HexOrder {
  import opened Bytes
  import opened Terms

  function Nibble(c: char): Option<nat> {
    if '0' <= c <= '9' then Some(c as int - '0' as int)
    else if 'a' <= c <= 'f' then Some(c as int - 'a' as int + 10)
    else if 'A' <= c <= 'F' then Some(c as int - 'A' as int + 10)
    else None
  }

  /** The digits, and what they stand for. */
  lemma {:induction false} NibbleExactly(c: char, v: nat)
    ensures Nibble(c) == Some(v) <==> v < 16 && (c == "0123456789abcdef"[v] || c == "0123456789ABCDEF"[v])
  {
    if v < 16 {
      assert "0123456789abcdef"[v] as int == if v < 10 then 48 + v else 87 + v;
      assert "0123456789ABCDEF"[v] as int == if v < 10 then 48 + v else 55 + v;
    }
  }

  /** Text a hex decoder accepts: digits of either case, in pairs. */
  predicate IsHex(s: string) {
    |s| % 2 == 0 && forall c | c in s :: Nibble(c).Some?
  }

  function Decoded(s: string): ByteString
    requires IsHex(s)
  {
    if s == "" then [] else [16 * Value(s[0], s) + Value(s[1], s)] + Decoded(s[2..])
  }

  function Value(c: char, s: string): (v: nat)
    requires IsHex(s) && c in s
    ensures v < 16
  {
    Nibble(c).value
  }

  /** Characters and the digits they stand for come in the same order throughout the alphabet. */
  ghost predicate Consistent(alphabet: set<char>)
    requires forall c | c in alphabet :: Nibble(c).Some?
  {
    forall c, d | c in alphabet && d in alphabet :: c < d <==> Nibble(c).value < Nibble(d).value
  }

  ghost predicate Over(s: string, alphabet: set<char>) {
    forall c | c in s :: c in alphabet
  }

  lemma {:induction false} AsciiHead(s: string)
    requires s != "" && Nibble(s[0]).Some?
    ensures Utf8(s) == [s[0] as int] + Utf8(s[1..])
  {
  }

  lemma {:induction false} HexTail(s: string)
    requires IsHex(s) && s != ""
    ensures Nibble(s[0]).Some? && Nibble(s[1]).Some? && IsHex(s[2..])
  {
    hide Nibble;
    assert s[0] in s && s[1] in s;
    assert forall c | c in s[2..] :: c in s;
  }

  lemma {:induction false} AsciiPair(s: string)
    requires IsHex(s) && s != ""
    ensures Utf8(s) == [s[0] as int, s[1] as int] + Utf8(s[2..]) && IsHex(s[2..])
  {
    hide Utf8, Nibble;
    HexTail(s);
    AsciiHead(s);
    AsciiHead(s[1..]);
    assert s[1..][1..] == s[2..];
    assert [s[0] as int] + ([s[1] as int] + Utf8(s[2..])) == [s[0] as int, s[1] as int] + Utf8(s[2..]);
  }

  lemma {:induction false} LessPair(x: Byte, y: Byte, rest: ByteString, x': Byte, y': Byte, rest': ByteString)
    ensures Less([x, y] + rest, [x', y'] + rest') <==> x < x' || (x == x' && (y < y' || (y == y' && Less(rest, rest'))))
  {
    var a, b := [x, y] + rest, [x', y'] + rest';
    assert a[1..] == [y] + rest && b[1..] == [y'] + rest';
    assert a[1..][1..] == rest && b[1..][1..] == rest';
  }

  lemma {:induction false} LessHead(x: Byte, rest: ByteString, x': Byte, rest': ByteString)
    ensures Less([x] + rest, [x'] + rest') <==> x < x' || (x == x' && Less(rest, rest'))
  {
    assert ([x] + rest)[1..] == rest && ([x'] + rest')[1..] == rest';
  }

  /** Over a consistent alphabet the text order is the byte order. */
  lemma {:induction false} ConsistentAgrees(a: string, b: string, alphabet: set<char>)
    requires IsHex(a) && IsHex(b) && Over(a, alphabet) && Over(b, alphabet)
    requires (forall c | c in alphabet :: Nibble(c).Some?) && Consistent(alphabet)
    ensures TextLess(a, b) <==> Less(Decoded(a), Decoded(b))
  {
    hide Consistent, Nibble;
    if a != "" && b != "" {
      AsciiPair(a);
      AsciiPair(b);
      assert forall c | c in a[2..] :: c in a;
      assert forall c | c in b[2..] :: c in b;
      ConsistentAgrees(a[2..], b[2..], alphabet);
      LessPair(a[0] as int, a[1] as int, Utf8(a[2..]), b[0] as int, b[1] as int, Utf8(b[2..]));
      PairAgrees(a, b, alphabet);
    } else if a == "" && b != "" {
      AsciiPair(b);
    }
  }

  lemma {:induction false} PairAgrees(a: string, b: string, alphabet: set<char>)
    requires IsHex(a) && IsHex(b) && a != "" && b != "" && Over(a, alphabet) && Over(b, alphabet)
    requires (forall c | c in alphabet :: Nibble(c).Some?) && Consistent(alphabet)
    requires IsHex(a[2..]) && IsHex(b[2..])
    ensures Less(Decoded(a), Decoded(b))
       <==> a[0] < b[0] || (a[0] == b[0] && (a[1] < b[1] || (a[1] == b[1] && Less(Decoded(a[2..]), Decoded(b[2..])))))
  {
    hide Decoded, Less;
    assert a[0] in a && a[1] in a && b[0] in b && b[1] in b;
    var x, y, x', y' := Value(a[0], a), Value(a[1], a), Value(b[0], b), Value(b[1], b);
    DecodedPair(a);
    DecodedPair(b);
    LessHead(16 * x + y, Decoded(a[2..]), 16 * x' + y', Decoded(b[2..]));
    SameOrder(a[0], b[0], alphabet);
    SameOrder(a[1], b[1], alphabet);
  }

  lemma {:induction false} DecodedPair(s: string)
    requires IsHex(s) && s != "" && s[0] in s && s[1] in s && IsHex(s[2..])
    ensures Decoded(s) == [16 * Value(s[0], s) + Value(s[1], s)] + Decoded(s[2..])
  {
  }

  lemma {:induction false} SameOrder(c: char, d: char, alphabet: set<char>)
    requires (forall c | c in alphabet :: Nibble(c).Some?) && Consistent(alphabet) && c in alphabet && d in alphabet
    ensures c < d <==> Nibble(c).value < Nibble(d).value
    ensures c == d <==> Nibble(c).value == Nibble(d).value
  {
    assert c < d || c == d || d < c;
  }

  /** Comparing hex texts over an alphabet agrees with comparing bytes exactly when the alphabet is consistent. */
  lemma {:induction false} TextOrderIffConsistent(alphabet: set<char>)
    requires forall c | c in alphabet :: Nibble(c).Some?
    ensures Consistent(alphabet)
       <==> forall a, b | IsHex(a) && IsHex(b) && Over(a, alphabet) && Over(b, alphabet) ::
              TextLess(a, b) <==> Less(Decoded(a), Decoded(b))
  {
    hide TextLess, Less, Decoded;
    if Consistent(alphabet) {
      forall a, b | IsHex(a) && IsHex(b) && Over(a, alphabet) && Over(b, alphabet)
        ensures TextLess(a, b) <==> Less(Decoded(a), Decoded(b))
      {
        ConsistentAgrees(a, b, alphabet);
      }
    }
    if forall a, b | IsHex(a) && IsHex(b) && Over(a, alphabet) && Over(b, alphabet) ::
         TextLess(a, b) <==> Less(Decoded(a), Decoded(b))
    {
      forall c, d | c in alphabet && d in alphabet ensures c < d <==> Nibble(c).value < Nibble(d).value {
        var a, b := [c, c], [d, c];
        assert IsHex(a) && IsHex(b) && Over(a, alphabet) && Over(b, alphabet);
        TwoDigits(c, d);
      }
    }
  }

  lemma {:induction false} TwoDigits(c: char, d: char)
    requires Nibble(c).Some? && Nibble(d).Some? && IsHex([c, c]) && IsHex([d, c])
    ensures TextLess([c, c], [d, c]) <==> c < d
    ensures Less(Decoded([c, c]), Decoded([d, c])) <==> Nibble(c).value < Nibble(d).value
  {
    AsciiPair([c, c]);
    AsciiPair([d, c]);
    LessPair(c as int, c as int, Utf8([c, c][2..]), d as int, c as int, Utf8([d, c][2..]));
    LessIrreflexive(Utf8([c, c][2..]));
    assert [c, c][2..] == "" && [d, c][2..] == "";
    assert Decoded([c, c]) == [16 * Nibble(c).value + Nibble(c).value] + Decoded("");
    assert Decoded([d, c]) == [16 * Nibble(d).value + Nibble(c).value] + Decoded("");
    LessHead(16 * Nibble(c).value + Nibble(c).value, Decoded(""), 16 * Nibble(d).value + Nibble(c).value, Decoded(""));
  }

  const LOWER_HEX: set<char> := {'0', '1', '2', '3', '4', '5', '6', '7', '8', '9', 'a', 'b', 'c', 'd', 'e', 'f'}

  /** Lower-case texts, which are what the encoder writes, are ordered like their bytes. */
  lemma {:induction false} LowerHexAgrees(a: string, b: string)
    requires IsHex(a) && IsHex(b) && Over(a, LOWER_HEX) && Over(b, LOWER_HEX)
    ensures TextLess(a, b) <==> Less(Decoded(a), Decoded(b))
  {
    ConsistentAgrees(a, b, LOWER_HEX);
  }

  /** Mixed case is accepted and misjudged: as text "0B" comes before "0a", as bytes after it. */
  lemma {:induction false} MixedCaseDisagrees()
    ensures IsHex("0B") && IsHex("0a") && TextLess("0B", "0a") && Less(Decoded("0a"), Decoded("0B"))
  {
    AsciiPair("0B");
    AsciiPair("0a");
    LessPair('0' as int, 'B' as int, Utf8("0B"[2..]), '0' as int, 'a' as int, Utf8("0a"[2..]));
    assert "0B"[2..] == "" && "0a"[2..] == "";
    assert Decoded("0B") == [11] + Decoded("") && Decoded("0a") == [10] + Decoded("");
    LessHead(10, Decoded(""), 11, Decoded(""));
  }
}
