/** The per-segment term filter: collecting the hashed terms of a column and storing them as a bitmap. */
module TermFilter {
  import opened Bytes
  import opened Terms
  import opened JsonTerms
  import opened ArrayLiteral
  import opened ValueSummary
  import TsVector

  datatype Kind = TextArray | Jsonb | Tsvector

  /** The library functions the filter relies on; the term hash is arbitrary. */
  datatype Lib = Lib(json: JsonText, bits: FloatBits, hash: Term -> nat)

  // ---- Terms of stored values ----

  ghost function ElementTerms(items: seq<Element>): set<Term> {
    set e | e in items && e.Some? :: ArrayElementTerm(e.value)
  }

  ghost function LexemeTermsOf(lexemes: seq<string>): set<Term> {
    set x | x in lexemes :: LexemeTerm(x)
  }

  /** The terms of one stored value; `None` when the value cannot be read. */
  ghost function ValueTerms(lib: Lib, kind: Kind, text: string): Option<set<Term>> {
    match kind
    case TextArray =>
      var items := ParseArray(lib.json, text);
      if items.None? then None else Some(ElementTerms(items.value))
    case Jsonb =>
      var v := lib.json.parse(text);
      if v.None? || !Canonical(lib.bits, v.value) then None else Some(TermsOf(lib.bits, v.value))
    case Tsvector =>
      var lexemes := TsVector.ParseLexemes(text);
      if lexemes.None? then None else Some(LexemeTermsOf(lexemes.value))
  }

  ghost function Hashed(lib: Lib, terms: set<Term>): set<nat> {
    set t | t in terms :: lib.hash(t)
  }

  lemma {:induction false} HashedUnion(lib: Lib, a: set<Term>, b: set<Term>)
    ensures Hashed(lib, a + b) == Hashed(lib, a) + Hashed(lib, b)
  {
  }

  /** The hashes of every term of every value are in `hashes`, and no others. */
  ghost predicate Collected(lib: Lib, kind: Kind, values: seq<Option<string>>, hashes: set<nat>) {
    && (forall i | 0 <= i < |values| && values[i].Some? ::
          ValueTerms(lib, kind, values[i].value).Some? &&
          Hashed(lib, ValueTerms(lib, kind, values[i].value).value) <= hashes)
    && (forall h | h in hashes :: FromSomeValue(lib, kind, values, h))
  }

  ghost predicate FromSomeValue(lib: Lib, kind: Kind, values: seq<Option<string>>, h: nat) {
    exists i | 0 <= i < |values| && values[i].Some? ::
      ValueTerms(lib, kind, values[i].value).Some? && h in Hashed(lib, ValueTerms(lib, kind, values[i].value).value)
  }

  lemma {:induction false} CollectedMore(lib: Lib, kind: Kind, values: seq<Option<string>>, hashes: set<nat>,
                                         v: Option<string>, more: set<nat>)
    requires Collected(lib, kind, values, hashes)
    requires if v.None? then more == {}
             else ValueTerms(lib, kind, v.value).Some? && more == Hashed(lib, ValueTerms(lib, kind, v.value).value)
    ensures Collected(lib, kind, values + [v], hashes + more)
  {
    hide ValueTerms, Hashed;
    var all := values + [v];
    forall h | h in hashes + more ensures FromSomeValue(lib, kind, all, h) {
      if h in hashes {
        assert FromSomeValue(lib, kind, values, h);
        var i :| 0 <= i < |values| && values[i].Some? &&
                 ValueTerms(lib, kind, values[i].value).Some?
                   && h in Hashed(lib, ValueTerms(lib, kind, values[i].value).value);
        assert all[i] == values[i];
      } else {
        assert all[|values|] == v;
      }
    }
  }

  // ---- The builder ----

  class TermFilterBuilder {
    const lib: Lib
    const kind: Kind
    var hashes: set<nat>
    var rows: nat
    var complete: bool

    constructor (lib: Lib, kind: Kind)
      ensures this.lib == lib && this.kind == kind && Covers([]) && complete
    {
      this.lib := lib;
      this.kind := kind;
      hashes := {};
      rows := 0;
      complete := true;
    }

    /** The builder has seen exactly these values, or has given up. */
    ghost predicate Covers(values: seq<Option<string>>)
      reads this
    {
      complete ==> rows == |values| && Collected(lib, kind, values, hashes)
    }

    /** Adds the column's values in one batch; `None` is a batch without a string column of that name. */
    method AddBatch(batch: Option<seq<Option<string>>>, ghost values: seq<Option<string>>)
      requires Covers(values)
      modifies this
      ensures batch.Some? ==> Covers(values + batch.value)
      ensures complete ==> old(complete) && batch.Some?
      ensures old(complete) && batch.Some? && Readable(lib, kind, batch.value) ==> complete
    {
      hide Collected, ValueTerms, Hashed;
      if !complete {
        return;
      }
      if batch.None? {
        complete := false;
        return;
      }
      var column := batch.value;
      assert values + column[..0] == values;
      for i := 0 to |column|
        invariant complete && Covers(values + column[..i])
      {
        rows := rows + 1;
        ghost var before, seen := hashes, values + column[..i];
        assert values + column[..i + 1] == seen + [column[i]];
        if column[i].Some? {
          var ok := AddValue(column[i].value);
          if !ok {
            complete := false;
            return;
          }
          CollectedMore(lib, kind, seen, before, column[i], Hashed(lib, ValueTerms(lib, kind, column[i].value).value));
        } else {
          CollectedMore(lib, kind, seen, before, None, {});
          assert before + {} == hashes;
        }
      }
      assert column[..|column|] == column;
    }

    method AddValue(text: string) returns (ok: bool)
      modifies this`hashes
      ensures ok <==> ValueTerms(lib, kind, text).Some?
      ensures ok ==> hashes == old(hashes) + Hashed(lib, ValueTerms(lib, kind, text).value)
    {
      hide Hashed, ParseArray, TsVector.ParseLexemes, TermsOf, Canonical;
      match kind
      case TextArray =>
        var items := ParseTextArray(lib.json, text);
        ok := items.Some?;
        if ok {
          EmitElements(items.value);
        }
      case Jsonb =>
        var v := lib.json.parse(text);
        ok := v.Some?;
        if ok {
          ok := EmitJson(v.value);
        }
      case Tsvector =>
        var lexemes := TsVector.ParseTsvectorLexemes(text);
        ok := lexemes.Some?;
        if ok {
          EmitLexemes(lexemes.value);
        }
    }

    method Emit(term: Term)
      modifies this`hashes
      ensures hashes == old(hashes) + Hashed(lib, {term})
    {
      hashes := hashes + {lib.hash(term)};
    }

    method EmitElements(items: seq<Element>)
      modifies this`hashes
      ensures hashes == old(hashes) + Hashed(lib, ElementTerms(items))
    {
      hide Hashed, ArrayElementTerm;
      NothingHashed(lib);
      assert ElementTerms(items[..0]) == {};
      for i := 0 to |items|
        invariant hashes == old(hashes) + Hashed(lib, ElementTerms(items[..i]))
      {
        if items[i].Some? {
          Emit(ArrayElementTerm(items[i].value));
          HashedUnion(lib, ElementTerms(items[..i]), {ArrayElementTerm(items[i].value)});
          assert ElementTerms(items[..i + 1]) == ElementTerms(items[..i]) + {ArrayElementTerm(items[i].value)};
        } else {
          assert ElementTerms(items[..i + 1]) == ElementTerms(items[..i]);
        }
      }
      assert items[..|items|] == items;
    }

    method EmitLexemes(lexemes: seq<string>)
      modifies this`hashes
      ensures hashes == old(hashes) + Hashed(lib, LexemeTermsOf(lexemes))
    {
      hide Hashed, LexemeTerm;
      NothingHashed(lib);
      assert LexemeTermsOf(lexemes[..0]) == {};
      for i := 0 to |lexemes|
        invariant hashes == old(hashes) + Hashed(lib, LexemeTermsOf(lexemes[..i]))
      {
        Emit(LexemeTerm(lexemes[i]));
        HashedUnion(lib, LexemeTermsOf(lexemes[..i]), {LexemeTerm(lexemes[i])});
        assert LexemeTermsOf(lexemes[..i + 1]) == LexemeTermsOf(lexemes[..i]) + {LexemeTerm(lexemes[i])};
      }
      assert lexemes[..|lexemes|] == lexemes;
    }

    /** Emits every term of a document; false when a number cannot be canonicalized. */
    method EmitJson(v: Json) returns (ok: bool)
      modifies this`hashes
      ensures ok <==> Canonical(lib.bits, v)
      ensures ok ==> hashes == old(hashes) + Hashed(lib, TermsOf(lib.bits, v))
      decreases v, 2
    {
      hide Hashed;
      match v
      case Object(members) => ok := EmitMembers(members);
      case Array(items) => ok := EmitItems(items);
      case _ =>
        var canon := ScalarCanon(lib.bits, v);
        ok := canon.Some?;
        if ok {
          Emit(JsonElementTerm(canon.value));
        }
    }

    method EmitMembers(members: seq<Member>) returns (ok: bool)
      modifies this`hashes
      ensures ok <==> AllCanonical(lib.bits, members)
      ensures ok ==> hashes == old(hashes) + Hashed(lib, MemberTerms(lib.bits, members))
      decreases members, 1
    {
      hide Hashed, JsonKeyTerm, JsonPairTerm, TermsOf;
      NothingHashed(lib);
      for i := 0 to |members|
        invariant AllCanonical(lib.bits, members[..i])
        invariant hashes == old(hashes) + Hashed(lib, MemberTerms(lib.bits, members[..i]))
      {
        var m := members[i];
        ghost var before := MemberTerms(lib.bits, members[..i]);
        Emit(JsonKeyTerm(m.key));
        HashedUnion(lib, before, {JsonKeyTerm(m.key)});
        var scalar := ScalarCanon(lib.bits, m.value);
        if scalar.Some? {
          Emit(JsonPairTerm(m.key, scalar.value));
          HashedUnion(lib, before + {JsonKeyTerm(m.key)}, {JsonPairTerm(m.key, scalar.value)});
        } else {
          var child := EmitJson(m.value);
          if !child {
            return false;
          }
          HashedUnion(lib, before + {JsonKeyTerm(m.key)}, TermsOf(lib.bits, m.value));
        }
        assert members[..i + 1][..i] == members[..i] && members[..i + 1][i] == m;
      }
      assert members[..|members|] == members;
      ok := true;
    }

    method EmitItems(items: seq<Json>) returns (ok: bool)
      modifies this`hashes
      ensures ok <==> ItemsCanonical(lib.bits, items)
      ensures ok ==> hashes == old(hashes) + Hashed(lib, ItemTerms(lib.bits, items))
      decreases items, 1
    {
      hide Hashed, JsonElementTerm;
      NothingHashed(lib);
      for i := 0 to |items|
        invariant ItemsCanonical(lib.bits, items[..i])
        invariant hashes == old(hashes) + Hashed(lib, ItemTerms(lib.bits, items[..i]))
      {
        var scalar := ScalarCanon(lib.bits, items[i]);
        if scalar.Some? {
          Emit(JsonElementTerm(scalar.value));
        } else {
          var child := EmitJson(items[i]);
          if !child {
            return false;
          }
        }
        HashedUnion(lib, ItemTerms(lib.bits, items[..i]), TermsOf(lib.bits, items[i]));
        assert items[..i + 1][..i] == items[..i] && items[..i + 1][i] == items[i];
      }
      assert items[..|items|] == items;
      ok := true;
    }

    /** The bitmap, only if it covered exactly `rowCount` rows and fits the cap. */
    method Finish(rowCount: nat) returns (r: Option<Bitmap>)
      ensures r.Some? <==> complete && rows == rowCount && 0 < |hashes| <= SUMMARY_MAX_ROWS
      ensures r.Some? ==> HoldsExactly(r.value, hashes)
    {
      if !complete || rows != rowCount || hashes == {} {
        return None;
      }
      var builder := new ValueSummaryBuilder();
      var left := hashes;
      while left != {}
        invariant left <= hashes
        invariant builder.Holds(hashes - left)
        invariant |hashes| - |left| <= SUMMARY_MAX_ROWS ==> !builder.overflowed
        invariant |hashes| - |left| > SUMMARY_MAX_ROWS ==> builder.overflowed
        invariant !builder.overflowed ==> |builder.hashes| == |hashes| - |left|
      {
        var h :| h in left;
        assert hashes - (left - {h}) == (hashes - left) + {h};
        left := left - {h};
        builder.InsertHash(h);
      }
      assert hashes - left == hashes;
      r := builder.Finish();
      assert r.Some? ==> Elements(builder.hashes) == hashes;
    }
  }

  ghost predicate Readable(lib: Lib, kind: Kind, values: seq<Option<string>>) {
    forall i | 0 <= i < |values| && values[i].Some? :: ValueTerms(lib, kind, values[i].value).Some?
  }

  lemma {:induction false} NothingHashed(lib: Lib)
    ensures Hashed(lib, {}) == {}
  {
  }
}
