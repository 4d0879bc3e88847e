/** Mirror rows as the flush reads them, and grouping a pass by scope. */
module FlushRows {
  import opened Bytes
  import opened Chars
  import opened Grouping
  import opened Terms

  datatype Cell = NullCell | TextCell(text: string) | IntCell(n: int) | BoolCell(b: bool) | OtherCell

  /** `pk` is the primary key in its sort-key encoding; `op` 3 marks a delete. */
  datatype Row = Row(seqId: int, op: int, pk: ByteString, values: seq<Cell>, orderKey: Option<ByteString>,
                     scope: Option<string>)

  const DELETE_OP := 3

  function NonEmpty(text: string): Option<string> {
    if text == "" then None else Some(text)
  }

  /** The scope a row belongs to; `None` is the table-wide group. */
  function RowScope(row: Row, scopeColumn: nat): Option<string> {
    if row.op == DELETE_OP then (if row.scope.None? then None else NonEmpty(row.scope.value))
    else if scopeColumn >= |row.values| then None
    else
      match row.values[scopeColumn]
      case TextCell(text) => NonEmpty(text)
      case IntCell(n) => NonEmpty(IntText(n))
      case BoolCell(b) => Some(if b then "true" else "false")
      case _ => None
  }

  // ---- The order of scopes ----

  predicate ScopeLess(a: Option<string>, b: Option<string>) {
    b.Some? && (a.None? || TextLess(a.value, b.value))
  }

  lemma {:induction false} ScopeOrder(a: Option<string>, b: Option<string>)
    ensures ScopeLess(a, b) || a == b || ScopeLess(b, a)
    ensures ScopeLess(a, b) ==> a != b && !ScopeLess(b, a)
  {
    if a.Some? && b.Some? {
      TextOrder(a.value, b.value);
    }
  }

  lemma {:induction false} ScopeLessTransitive(a: Option<string>, b: Option<string>, c: Option<string>)
    requires ScopeLess(a, b) && ScopeLess(b, c)
    ensures ScopeLess(a, c)
  {
    if a.Some? {
      LessTransitive(Utf8(a.value), Utf8(b.value), Utf8(c.value));
    }
  }

  lemma {:induction false} ScopeOrderIsStrict()
    ensures StrictOrder(ScopeLess)
  {
    hide ScopeLess;
    forall a, b ensures ScopeLess(a, b) || a == b || ScopeLess(b, a) {
      ScopeOrder(a, b);
    }
    forall a, b ensures ScopeLess(a, b) ==> a != b && !ScopeLess(b, a) {
      ScopeOrder(a, b);
    }
    forall a, b, c | ScopeLess(a, b) && ScopeLess(b, c) ensures ScopeLess(a, c) {
      ScopeLessTransitive(a, b, c);
    }
  }

  // ---- Grouping ----

  /** Stable-groups a pass's rows by scope, so that one segment can be closed per scope: each scope's rows stand
      together, in their order, and scopes ascend. */
  method GroupRowsByScope(rows: seq<Row>, column: nat) returns (out: seq<Row>)
    ensures StableGrouping(rows, (r: Row) => RowScope(r, column), ScopeLess, out)
    ensures multiset(out) == multiset(rows)
  {
    hide ScopeLess, RowScope;
    ScopeOrderIsStrict();
    var scope := (r: Row) => RowScope(r, column);
    var keys, groups := GroupBy(rows, scope, ScopeLess);
    ConcatIsStableGrouping(rows, scope, ScopeLess, keys, groups);
    out := [];
    for i := 0 to |keys|
      invariant (forall k | k in keys[..i] :: k in groups) && out == Concat(keys[..i], groups)
    {
      assert keys[i] in keys;
      assert keys[..i + 1][..i] == keys[..i];
      out := out + groups[keys[i]];
    }
    assert keys[..|keys|] == keys;
    Permutes(rows, scope, ScopeLess, out);
  }

  /** The order of the groups: rows without a scope first, then the scopes in the order of their UTF-8 bytes. */
  lemma {:induction false} ScopesAscend(rows: seq<Row>, column: nat, out: seq<Row>, i: nat, j: nat)
    requires StableGrouping(rows, (r: Row) => RowScope(r, column), ScopeLess, out) && i < j < |out|
    ensures var a, b := RowScope(out[i], column), RowScope(out[j], column);
            a.None? || (b.Some? && (a == b || Less(Utf8(a.value), Utf8(b.value))))
  {
    hide RowScope;
    var a, b := RowScope(out[i], column), RowScope(out[j], column);
    var scope := (r: Row) => RowScope(r, column);
    assert !ScopeLess(scope(out[j]), scope(out[i]));
    ScopeOrder(a, b);
  }
}
