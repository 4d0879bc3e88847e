/** Reading text character by character, and decimal numbers. */
module Chars {
  import opened Bytes

  // ---- Text still to be read ----

  /** The text from `pos` on; nothing once the position has run past the end. */
  function From(chars: string, pos: nat): string {
    if pos <= |chars| then chars[pos..] else ""
  }

  lemma {:induction false} FromNext(chars: string, pos: nat)
    requires pos < |chars|
    ensures From(chars, pos) == [chars[pos]] + From(chars, pos + 1)
    ensures From(chars, pos)[0] == chars[pos] && From(chars, pos)[1..] == From(chars, pos + 1)
  {
  }

  predicate StartsWith(s: string, c: char) {
    s != "" && s[0] == c
  }

  /** A token and the text after it; `None` when there is no token to read. */
  type Token = Option<(string, string)>

  function Prepend(c: char, r: Token): Token {
    if r.None? then None else Some(([c] + r.value.0, r.value.1))
  }

  /** The unread part of a token extends what was read so far. */
  function Extend(out: string, r: Token): Token {
    if r.None? then None else Some((out + r.value.0, r.value.1))
  }

  lemma {:induction false} ExtendPrepend(out: string, c: char, r: Token)
    ensures Extend(out, Prepend(c, r)) == Extend(out + [c], r)
  {
    if r.Some? {
      assert out + ([c] + r.value.0) == (out + [c]) + r.value.0;
    }
  }

  lemma {:induction false} ExtendNothing(r: Token)
    ensures Extend("", r) == r
  {
    assert r.Some? ==> "" + r.value.0 == r.value.0;
  }

  lemma {:induction false} FourParts(a: string, b: string, c: string, d: string)
    ensures (a + b) + c + d == a + (b + c + d)
  {
  }

  // ---- Decimal numbers ----

  function Digits(n: nat): string {
    if n < 10 then [('0' as int + n) as char] else Digits(n / 10) + [('0' as int + n % 10) as char]
  }

  function IntText(n: int): string {
    if n < 0 then "-" + Digits(-n) else Digits(n)
  }

  lemma {:induction false} DigitsAreDigits(n: nat)
    ensures Digits(n) != "" && forall c | c in Digits(n) :: '0' <= c <= '9'
  {
    if n >= 10 {
      DigitsAreDigits(n / 10);
    }
  }

  lemma {:induction false} IntTextNotEmpty(n: int)
    ensures IntText(n) != ""
  {
    hide Digits;
    DigitsAreDigits(if n < 0 then -n else n);
  }
}
