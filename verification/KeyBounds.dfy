/** Tuple-level bounds of a composite primary key: each column's bytes are framed and concatenated,
    and the smallest and largest framed key of a segment are kept. */
module KeyBounds {
  import opened Bytes

  type KeyTuple = seq<ByteString>

  const ESCAPE: Byte := 0xFF
  const TERMINATOR: ByteString := [0x00, 0x01]

  /** One column's frame: every zero byte is followed by `ESCAPE`, then comes the terminator. */
  function Frame(bytes: ByteString): ByteString {
    if bytes == [] then TERMINATOR
    else (if bytes[0] == 0 then [0, ESCAPE] else [bytes[0]]) + Frame(bytes[1..])
  }

  function FrameTuple(key: KeyTuple): ByteString {
    if key == [] then [] else Frame(key[0]) + FrameTuple(key[1..])
  }

  /** Lexicographic order of tuples; a tuple comes before its proper extensions. */
  predicate TupleLess(s: KeyTuple, t: KeyTuple) {
    t != [] && (s == [] || Less(s[0], t[0]) || (s[0] == t[0] && TupleLess(s[1..], t[1..])))
  }

  /** `s` and `t` agree up to `i`, where `s` ends or has the smaller component. */
  predicate TupleDiffersAt(s: KeyTuple, t: KeyTuple, i: nat) {
    && i <= |s| && i < |t| && s[..i] == t[..i]
    && (i == |s| || Less(s[i], t[i]))
  }

  lemma {:induction false} TupleLessExactly(s: KeyTuple, t: KeyTuple)
    ensures TupleLess(s, t) <==> exists i: nat :: TupleDiffersAt(s, t, i)
  {
    if TupleLess(s, t) {
      if s == [] || Less(s[0], t[0]) {
        assert TupleDiffersAt(s, t, 0);
      } else {
        TupleLessExactly(s[1..], t[1..]);
        var i: nat :| TupleDiffersAt(s[1..], t[1..], i);
        assert s[..i + 1] == [s[0]] + s[1..][..i] && t[..i + 1] == [t[0]] + t[1..][..i];
        assert TupleDiffersAt(s, t, i + 1);
      }
    }
    if i: nat :| TupleDiffersAt(s, t, i) {
      if i > 0 {
        assert s[0] == s[..i][0] == t[..i][0] == t[0];
        assert s[1..][..i - 1] == s[..i][1..] && t[1..][..i - 1] == t[..i][1..];
        assert TupleDiffersAt(s[1..], t[1..], i - 1);
        TupleLessExactly(s[1..], t[1..]);
      }
    }
  }

  /** The persisted form: a zero byte is followed by 0xFF, and 0x00 0x01 end a component. */
  lemma {:induction false} FrameLayout(a: ByteString, b: ByteString)
    requires 0 !in a && 0 !in b
    ensures Frame(a) == a + [0, 1]
    ensures Frame(a + [0] + b) == a + [0, 0xFF] + b + [0, 1]
  {
    FramePlain(a, []);
    FramePlain(b, []);
    FramePlain(a, [0] + b);
    assert a + [] == a && b + [] == b && a + ([0] + b) == a + [0] + b;
    assert ([0] + b)[1..] == b;
    assert Frame([]) == [0, 1];
    assert Frame([0] + b) == [0, 0xFF] + Frame(b);
    assert a + ([0, 0xFF] + (b + [0, 1])) == a + [0, 0xFF] + b + [0, 1];
  }

  lemma {:induction false} FramePlain(a: ByteString, rest: ByteString)
    requires 0 !in a
    ensures Frame(a + rest) == a + Frame(rest)
  {
    if a == [] {
      assert a + rest == rest;
    } else {
      FramePlain(a[1..], rest);
      assert (a + rest)[0] == a[0] && (a + rest)[1..] == a[1..] + rest;
      assert a[0] in a && a == [a[0]] + a[1..];
    }
  }

  // ---- The frame preserves order ----

  lemma {:induction false} FrameUnfold(a: ByteString, x: ByteString)
    requires a != []
    ensures Frame(a) + x == (if a[0] == 0 then [0, ESCAPE] else [a[0]]) + (Frame(a[1..]) + x)
  {
  }

  lemma {:induction false} LessSharedPrefix(p: ByteString, x: ByteString, y: ByteString)
    ensures Less(p + x, p + y) <==> Less(x, y)
  {
    if p == [] {
      assert p + x == x && p + y == y;
    } else {
      assert (p + x)[1..] == p[1..] + x && (p + y)[1..] == p[1..] + y;
      LessSharedPrefix(p[1..], x, y);
    }
  }

  /** Two framed components followed by anything compare first by component, then by what follows.
      No assumption relates the lengths of `a` and `b`. */
  lemma {:induction false} FrameOrder(a: ByteString, b: ByteString, x: ByteString, y: ByteString)
    ensures Less(Frame(a) + x, Frame(b) + y) <==> Less(a, b) || (a == b && Less(x, y))
  {
    LessIrreflexive(a);
    if a != [] {
      FrameUnfold(a, x);
    }
    if b != [] {
      FrameUnfold(b, y);
    }
    if a == [] && b == [] {
      LessSharedPrefix(TERMINATOR, x, y);
    } else if a == [] {
      FrameFirstStep(b, y, x);
    } else if b == [] {
      FrameFirstStep(a, x, y);
    } else if a[0] == b[0] {
      var head := if a[0] == 0 then [0, ESCAPE] else [a[0]];
      LessSharedPrefix(head, Frame(a[1..]) + x, Frame(b[1..]) + y);
      FrameOrder(a[1..], b[1..], x, y);
      assert a == [a[0]] + a[1..] && b == [b[0]] + b[1..];
    }
  }

  /** An empty component's frame is below the frame of any non-empty one. */
  lemma {:induction false} FrameFirstStep(a: ByteString, x: ByteString, y: ByteString)
    requires a != []
    ensures Less(TERMINATOR + y, Frame(a) + x) && !Less(Frame(a) + x, TERMINATOR + y)
  {
    FrameUnfold(a, x);
    var framed, ended := Frame(a) + x, TERMINATOR + y;
    if a[0] == 0 {
      assert framed[0] == 0 && framed[1..][0] == ESCAPE;
      assert ended[0] == 0 && ended[1..][0] == 1;
    } else {
      assert framed[0] == a[0] && ended[0] == 0;
    }
  }

  /** Byte order of framed tuples is exactly the lexicographic order of the tuples, whatever the
      widths of the components. */
  lemma {:induction false} FramedTupleOrder(s: KeyTuple, t: KeyTuple)
    ensures Less(FrameTuple(s), FrameTuple(t)) <==> TupleLess(s, t)
  {
    if s != [] && t != [] {
      FrameOrder(s[0], t[0], FrameTuple(s[1..]), FrameTuple(t[1..]));
      FramedTupleOrder(s[1..], t[1..]);
    } else if s != [] {
      FrameNonEmpty(s[0]);
    } else if t != [] {
      FrameNonEmpty(t[0]);
    }
  }

  lemma {:induction false} FrameNonEmpty(a: ByteString)
    ensures |Frame(a)| >= 2
  {
  }

  // ---- The frame is uniquely decodable ----

  /** A frame can be read off the front of any continuation in only one way, so framing is injective
      and no frame is a proper prefix of another. */
  lemma {:induction false} FramePrefixFree(a: ByteString, b: ByteString, x: ByteString, y: ByteString)
    requires Frame(a) + x == Frame(b) + y
    ensures a == b && x == y
  {
    LessIrreflexive(Frame(a) + x);
    FrameOrder(a, b, x, y);
    FrameOrder(b, a, y, x);
    LessTotal(a, b);
    LessTotal(x, y);
  }

  lemma {:induction false} FrameTupleInjective(s: KeyTuple, t: KeyTuple)
    requires FrameTuple(s) == FrameTuple(t)
    ensures s == t
  {
    if s != [] {
      FrameNonEmpty(s[0]);
    }
    if t != [] {
      FrameNonEmpty(t[0]);
    }
    if s != [] && t != [] {
      FramePrefixFree(s[0], t[0], FrameTuple(s[1..]), FrameTuple(t[1..]));
      FrameTupleInjective(s[1..], t[1..]);
      assert s == [s[0]] + s[1..] && t == [t[0]] + t[1..];
    }
  }

  // ---- Building the bounds ----

  /** Appends one column's encoding to a tuple key. */
  method FrameComponent(out: ByteString, bytes: ByteString) returns (framed: ByteString)
    ensures framed == out + Frame(bytes)
  {
    framed := out;
    for i := 0 to |bytes|
      invariant framed + Frame(bytes[i..]) == out + Frame(bytes)
    {
      framed := framed + [bytes[i]];
      if bytes[i] == 0 {
        framed := framed + [ESCAPE];
      }
      assert bytes[i..][1..] == bytes[i + 1..];
    }
    framed := framed + TERMINATOR;
  }

  /** What encoding one column of one row can give: bytes, a NULL, or a failure. */
  datatype Cell = Encoded(bytes: ByteString) | NullCell | Unencodable

  /** The columns of one record batch by name, each `numRows` long. */
  datatype Batch = Batch(columns: map<string, seq<Cell>>, numRows: nat) {
    predicate Valid() {
      forall name | name in columns :: |columns[name]| == numRows
    }

    predicate HasKey(key: seq<string>) {
      forall name | name in key :: name in columns
    }

    /** Row `i` has a usable value in every key column. */
    predicate Usable(key: seq<string>, i: nat)
      requires Valid() && HasKey(key) && i < numRows
    {
      forall name | name in key :: columns[name][i].Encoded?
    }

    function KeyOf(key: seq<string>, i: nat): (t: KeyTuple)
      requires Valid() && HasKey(key) && i < numRows && Usable(key, i)
      ensures |t| == |key|
      ensures forall c | 0 <= c < |key| :: t[c] == columns[key[c]][i].bytes
    {
      seq(|key|, c requires 0 <= c < |key| => columns[key[c]][i].bytes)
    }

    predicate AllUsable(key: seq<string>, n: nat)
      requires Valid() && HasKey(key) && n <= numRows
    {
      forall i | 0 <= i < n :: Usable(key, i)
    }

    /** The key tuples of the first `n` rows, in row order. */
    function Keys(key: seq<string>, n: nat): (ts: seq<KeyTuple>)
      requires Valid() && HasKey(key) && n <= numRows && AllUsable(key, n)
      ensures |ts| == n
    {
      if n == 0 then [] else Keys(key, n - 1) + [KeyOf(key, n - 1)]
    }
  }

  lemma {:induction false} FrameTupleSnoc(t: KeyTuple, last: ByteString)
    ensures FrameTuple(t + [last]) == FrameTuple(t) + Frame(last)
  {
    if t == [] {
      assert t + [last] == [last];
      assert FrameTuple([last]) == Frame(last) + FrameTuple([]);
    } else {
      assert (t + [last])[1..] == t[1..] + [last];
      FrameTupleSnoc(t[1..], last);
      assert FrameTuple(t) == Frame(t[0]) + FrameTuple(t[1..]);
    }
  }

  /** Smallest and largest of the keys added to a segment. */
  ghost predicate Extremes(keys: seq<KeyTuple>, lo: ByteString, hi: ByteString) {
    && (exists t | t in keys :: FrameTuple(t) == lo)
    && (exists t | t in keys :: FrameTuple(t) == hi)
    && (forall t | t in keys :: AtMost(lo, FrameTuple(t)) && AtMost(FrameTuple(t), hi))
  }

  class KeyBoundsBuilder {
    var min: Option<ByteString>
    var max: Option<ByteString>
    var rows: nat
    ghost var keys: seq<KeyTuple>

    ghost predicate Valid()
      reads this
    {
      && rows == |keys|
      && min.Some? == max.Some? == (keys != [])
      && (keys != [] ==> Extremes(keys, min.value, max.value))
    }

    constructor ()
      ensures Valid() && keys == []
    {
      min, max, rows, keys := None, None, 0, [];
    }

    /** Builds one row's framed key column by column; `None` when a column is NULL or unencodable. */
    method RowKey(batch: Batch, key: seq<string>, i: nat) returns (framed: Option<ByteString>)
      requires batch.Valid() && batch.HasKey(key) && i < batch.numRows
      ensures framed.Some? <==> batch.Usable(key, i)
      ensures framed.Some? ==> framed.value == FrameTuple(batch.KeyOf(key, i))
    {
      var out: ByteString := [];
      ghost var done: KeyTuple := [];
      for c := 0 to |key|
        invariant |done| == c
        invariant forall d | 0 <= d < c :: batch.columns[key[d]][i].Encoded?
        invariant forall d | 0 <= d < c :: done[d] == batch.columns[key[d]][i].bytes
        invariant out == FrameTuple(done)
      {
        var cell := batch.columns[key[c]][i];
        if !cell.Encoded? {
          return None;
        }
        out := FrameComponent(out, cell.bytes);
        FrameTupleSnoc(done, cell.bytes);
        done := done + [cell.bytes];
      }
      assert done == batch.KeyOf(key, i);
      framed := Some(out);
    }

    /** Widens the bounds by one key. */
    method Push(framed: ByteString, ghost key: KeyTuple)
      requires Valid() && framed == FrameTuple(key)
      modifies this
      ensures Valid() && keys == old(keys) + [key]
    {
      if min.Some? {
        ExtendExtremes(keys, min.value, max.value, key);
      } else {
        assert key in keys + [key];
      }
      if min.None? || Less(framed, min.value) {
        min := Some(framed);
      }
      if max.None? || Less(max.value, framed) {
        max := Some(framed);
      }
      rows := rows + 1;
      keys := keys + [key];
    }

    method AddRow(batch: Batch, key: seq<string>, i: nat) returns (ok: bool)
      requires Valid() && batch.Valid() && batch.HasKey(key) && i < batch.numRows
      modifies this
      ensures Valid()
      ensures ok <==> batch.Usable(key, i)
      ensures keys == if ok then old(keys) + [batch.KeyOf(key, i)] else old(keys)
    {
      var framed := RowKey(batch, key, i);
      if framed.None? {
        return false;
      }
      Push(framed.value, batch.KeyOf(key, i));
      ok := true;
    }

    /** Adds every row of `batch`. A missing column, an empty key or a row without a usable key is an
        error; rows before the failing one have then been added, and the caller drops the builder. */
    method AddBatch(batch: Batch, key: seq<string>) returns (ok: bool)
      requires Valid() && batch.Valid()
      modifies this
      ensures Valid()
      ensures ok <==> key != [] && batch.HasKey(key) && batch.AllUsable(key, batch.numRows)
      ensures ok ==> keys == old(keys) + batch.Keys(key, batch.numRows)
      ensures old(keys) <= keys
    {
      hide KeyBoundsBuilder.Valid;
      if key == [] || !batch.HasKey(key) {
        return false;
      }
      for i := 0 to batch.numRows
        invariant Valid()
        invariant batch.AllUsable(key, i)
        invariant keys == old(keys) + batch.Keys(key, i)
      {
        ghost var before := keys;
        var added := AddRow(batch, key, i);
        if !added {
          return false;
        }
        assert keys == before + [batch.KeyOf(key, i)] == old(keys) + batch.Keys(key, i + 1);
      }
      ok := true;
    }

    /** The bounds, trusted only when exactly `rowCount` keys contributed. */
    method Finish(rowCount: nat) returns (bounds: Option<(ByteString, ByteString)>)
      requires Valid()
      ensures bounds.Some? <==> rowCount == |keys| && keys != []
      ensures bounds.Some? ==> Extremes(keys, bounds.value.0, bounds.value.1)
    {
      if rows != rowCount || min.None? {
        return None;
      }
      bounds := Some((min.value, max.value));
    }
  }

  lemma {:induction false} ExtendExtremes(keys: seq<KeyTuple>, lo: ByteString, hi: ByteString, added: KeyTuple)
    requires Extremes(keys, lo, hi)
    ensures var f := FrameTuple(added);
            Extremes(keys + [added], if Less(f, lo) then f else lo, if Less(hi, f) then f else hi)
  {
    var f, grown := FrameTuple(added), keys + [added];
    AtMostTotal(lo, f);
    AtMostTotal(f, hi);
    var wLo, wHi :| wLo in keys && FrameTuple(wLo) == lo && wHi in keys && FrameTuple(wHi) == hi;
    assert wLo in grown && wHi in grown && added in grown;
    forall t | t in grown
      ensures AtMost(if Less(f, lo) then f else lo, FrameTuple(t))
      ensures AtMost(FrameTuple(t), if Less(hi, f) then f else hi)
    {
      if t in keys {
        if Less(f, lo) {
          AtMostTransitive(f, lo, FrameTuple(t));
        }
        if Less(hi, f) {
          AtMostTransitive(FrameTuple(t), hi, f);
        }
      }
    }
  }

  /** Tuple bounds are exact: two segments whose bounds are the extremes of their keys hold a common
      interval of tuples iff neither maximum is below the other minimum, and every shared key forces it. */
  lemma {:induction false} SharedKeyMeetsExtremes(ks: seq<KeyTuple>, lo: ByteString, hi: ByteString,
                               ks': seq<KeyTuple>, lo': ByteString, hi': ByteString, key: KeyTuple)
    requires Extremes(ks, lo, hi) && Extremes(ks', lo', hi')
    requires key in ks && key in ks'
    ensures AtMost(lo, hi') && AtMost(lo', hi)
  {
    AtMostTransitive(lo, FrameTuple(key), hi');
    AtMostTransitive(lo', FrameTuple(key), hi);
  }
}
