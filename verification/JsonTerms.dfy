/** The path-free terms of a `jsonb` document, the clauses of a probe, and why containment implies them. */
module JsonTerms {
  import opened Bytes
  import opened Terms

  datatype Json =
    | Null
    | Bool(truth: bool)
    | Number(value: real)
    | Str(text: string)
    | Array(items: seq<Json>)
    | Object(members: seq<Member>)

  datatype Member = Member(key: string, value: Json)

  /** The big-endian bits of a number as a 64-bit float, a function of its numeric value; `None` when the number has no
      such form. */
  type FloatBits = real -> Option<ByteString>

  predicate Scalar(v: Json) {
    !v.Array? && !v.Object?
  }

  // ---- Containment and existence ----

  /** `doc @> probe` below the top level: objects by key, arrays by element, scalars by equality. */
  ghost predicate Contains(doc: Json, probe: Json)
    decreases probe, 0
  {
    match probe
    case Object(members) =>
      doc.Object? && forall i | 0 <= i < |members| :: HasMember(doc.members, members[i])
    case Array(items) =>
      doc.Array? && forall i | 0 <= i < |items| :: HasItem(doc.items, items[i])
    case _ => doc == probe
  }

  ghost predicate HasMember(members: seq<Member>, m: Member)
    decreases m
  {
    exists j | 0 <= j < |members| :: members[j].key == m.key && Contains(members[j].value, m.value)
  }

  ghost predicate HasItem(items: seq<Json>, probe: Json)
    decreases probe, 1
  {
    exists j | 0 <= j < |items| :: Contains(items[j], probe)
  }

  lemma {:induction false} ContainsItself(doc: Json)
    ensures Contains(doc, doc)
  {
    match doc
    case Object(members) =>
      forall i | 0 <= i < |members| ensures HasMember(members, members[i]) {
        ContainsItself(members[i].value);
      }
    case Array(items) =>
      forall i | 0 <= i < |items| ensures HasItem(items, items[i]) {
        ContainsItself(items[i]);
      }
    case _ =>
  }

  /** As in the examples of section 8.14.3 of the PostgreSQL documentation, members are contained in any order, but not
      from another level of nesting, */
  lemma {:induction false} ObjectExamples(m: Member, n: Member)
    requires m.key != n.key && Scalar(m.value)
    ensures ContainedIn(Object([n, m]), Object([m])) && !ContainedIn(Object([n]), Object([m]))
    ensures !Contains(Object([Member(n.key, Object([m]))]), Object([m]))
  {
    var both := [n, m];
    assert both[1] == m && [m][0] == m;
    assert Contains(m.value, m.value);
    assert HasMember(both, m);
    assert !HasMember([n], [m][0]);
    assert !HasMember([Member(n.key, Object([m]))], [m][0]);
  }

  /** and so are elements; an array also contains a scalar, but not the other way round. */
  lemma {:induction false} ArrayExamples(a: Json, b: Json)
    requires a.Str? && b.Str? && a != b
    ensures Contains(Array([a, b]), Array([b, a, a])) && !Contains(Array([a, Array([b])]), Array([b]))
    ensures Contains(Array([a, Array([b])]), Array([Array([b])]))
    ensures ContainedIn(Array([a, b]), b) && !ContainedIn(b, Array([b])) && !ContainedIn(Array([a]), b)
  {
    assert [a, b][0] == a && [a, b][1] == b;
    assert HasItem([a, b], a) && HasItem([a, b], b);
    var nested := [a, Array([b])];
    assert !HasItem(nested, [b][0]);
    assert nested[1] == Array([b]);
    assert Contains(Array([b]), Array([b])) by {
      ContainsItself(Array([b]));
    }
    assert HasItem(nested, Array([b]));
  }

  /** `doc @> probe`: at the top level an array also contains a scalar that is one of its elements. */
  ghost predicate ContainedIn(doc: Json, probe: Json) {
    Contains(doc, probe) || (doc.Array? && Scalar(probe) && probe in doc.items)
  }

  /** `doc ? key`. */
  ghost predicate KeyExists(doc: Json, key: string) {
    match doc
    case Object(members) => exists j | 0 <= j < |members| :: members[j].key == key
    case Array(items) => Str(key) in items
    case _ => doc == Str(key)
  }

  /** The key of a member exists, and so does a string that is an element or the whole document; a value does not. */
  lemma {:induction false} KeyExamples(m: Member, key: string)
    ensures KeyExists(Object([m]), key) <==> key == m.key
    ensures KeyExists(Array([m.value]), key) <==> m.value == Str(key)
    ensures Scalar(m.value) ==> (KeyExists(m.value, key) <==> m.value == Str(key))
  {
    assert [m][0] == m;
  }

  // ---- Terms of a document ----

  function ScalarCanon(bits: FloatBits, v: Json): Option<ByteString> {
    match v
    case Str(text) => Some([0x73] + Utf8(text))
    case Number(value) => if bits(value).None? then None else Some([0x6E] + bits(value).value)
    case Bool(truth) => Some([if truth then 0x74 else 0x66])
    case Null => Some([0x7A])
    case Array(_) => None
    case Object(_) => None
  }

  /** Every scalar but a number without float form has canonical bytes: a letter for its kind, then its text or float.
      Different scalars have different bytes, unless they are numbers with the same float. */
  lemma {:induction false} CanonExactly(bits: FloatBits, a: Json, b: Json)
    requires Scalar(a) && Scalar(b)
    ensures ScalarCanon(bits, a).None? <==> a.Number? && bits(a.value).None?
    ensures ScalarCanon(bits, a).Some? && ScalarCanon(bits, b).Some? ==>
              (ScalarCanon(bits, a) == ScalarCanon(bits, b) <==>
               a == b || (a.Number? && b.Number? && bits(a.value) == bits(b.value)))
    ensures ScalarCanon(bits, a).Some? ==>
              var out := ScalarCanon(bits, a).value;
              match a
              case Str(text) => out == Utf8("s") + Utf8(text)
              case Number(value) => out == Utf8("n") + bits(value).value
              case Bool(truth) => out == if truth then Utf8("t") else Utf8("f")
              case _ => out == Utf8("z")
  {
    hide Utf8;
    Letters();
    if ScalarCanon(bits, a).Some? && ScalarCanon(bits, a) == ScalarCanon(bits, b) {
      assert ScalarCanon(bits, a).value[0] == ScalarCanon(bits, b).value[0];
    }
    if a.Str? && b.Str? && ScalarCanon(bits, a) == ScalarCanon(bits, b) {
      assert ScalarCanon(bits, a).value[1..] == Utf8(a.text) && ScalarCanon(bits, b).value[1..] == Utf8(b.text);
      Utf8Injective(a.text, b.text);
    }
    if a.Number? && b.Number? && ScalarCanon(bits, a) == ScalarCanon(bits, b) && bits(a.value).Some? {
      assert ScalarCanon(bits, a).value[1..] == bits(a.value).value;
      assert ScalarCanon(bits, b).value[1..] == bits(b.value).value;
    }
  }

  lemma {:induction false} Letters()
    ensures Utf8("s") == [0x73] && Utf8("n") == [0x6E] && Utf8("t") == [0x74] && Utf8("f") == [0x66]
    ensures Utf8("z") == [0x7A]
  {
  }

  /** Every number of the value has a float form. */
  ghost predicate Canonical(bits: FloatBits, v: Json) {
    match v
    case Object(members) => forall i | 0 <= i < |members| :: Canonical(bits, members[i].value)
    case Array(items) => forall i | 0 <= i < |items| :: Canonical(bits, items[i])
    case _ => ScalarCanon(bits, v).Some?
  }

  /** Keys, key/scalar pairs and scalar array elements found at any depth. */
  ghost function TermsOf(bits: FloatBits, v: Json): set<Term>
    requires Canonical(bits, v)
    decreases v, 1
  {
    match v
    case Object(members) => MemberTerms(bits, members)
    case Array(items) => ItemTerms(bits, items)
    case _ => {JsonElementTerm(ScalarCanon(bits, v).value)}
  }

  ghost predicate AllCanonical(bits: FloatBits, members: seq<Member>) {
    forall i | 0 <= i < |members| :: Canonical(bits, members[i].value)
  }

  ghost predicate ItemsCanonical(bits: FloatBits, items: seq<Json>) {
    forall i | 0 <= i < |items| :: Canonical(bits, items[i])
  }

  ghost function MemberTerms(bits: FloatBits, members: seq<Member>): set<Term>
    requires AllCanonical(bits, members)
    decreases members, 0
  {
    if members == [] then {}
    else
      var m := members[|members| - 1];
      MemberTerms(bits, members[..|members| - 1]) + {JsonKeyTerm(m.key)} +
      if Scalar(m.value) then {JsonPairTerm(m.key, ScalarCanon(bits, m.value).value)} else TermsOf(bits, m.value)
  }

  ghost function ItemTerms(bits: FloatBits, items: seq<Json>): set<Term>
    requires ItemsCanonical(bits, items)
    decreases items, 0
  {
    if items == [] then {} else ItemTerms(bits, items[..|items| - 1]) + TermsOf(bits, items[|items| - 1])
  }

  /** What one member of an object contributes is there whatever stands around it. */
  lemma {:induction false} MemberTermsAt(bits: FloatBits, members: seq<Member>, i: nat)
    requires AllCanonical(bits, members) && i < |members|
    ensures JsonKeyTerm(members[i].key) in MemberTerms(bits, members)
    ensures if Scalar(members[i].value)
            then JsonPairTerm(members[i].key, ScalarCanon(bits, members[i].value).value) in MemberTerms(bits, members)
            else TermsOf(bits, members[i].value) <= MemberTerms(bits, members)
    decreases |members|
  {
    if i < |members| - 1 {
      MemberTermsAt(bits, members[..|members| - 1], i);
    }
  }

  lemma {:induction false} ItemTermsAt(bits: FloatBits, items: seq<Json>, i: nat)
    requires ItemsCanonical(bits, items) && i < |items|
    ensures TermsOf(bits, items[i]) <= ItemTerms(bits, items)
    decreases |items|
  {
    if i < |items| - 1 {
      ItemTermsAt(bits, items[..|items| - 1], i);
    }
  }

  // ---- What the terms are, without the recursion ----

  /** `v` is the document or stands somewhere inside it. */
  ghost predicate Inside(v: Json, doc: Json)
    decreases doc
  {
    || v == doc
    || (doc.Object? && exists i | 0 <= i < |doc.members| :: Inside(v, doc.members[i].value))
    || (doc.Array? && exists i | 0 <= i < |doc.items| :: Inside(v, doc.items[i]))
  }

  /** The term is that of a key of `o`, or of one of its key/scalar pairs. */
  ghost predicate TermOfMember(bits: FloatBits, o: Json, t: Term) {
    o.Object? && exists i | 0 <= i < |o.members| ::
      || t == JsonKeyTerm(o.members[i].key)
      || (ScalarCanon(bits, o.members[i].value).Some?
          && t == JsonPairTerm(o.members[i].key, ScalarCanon(bits, o.members[i].value).value))
  }

  /** The term is that of a scalar element of the array `a`. */
  ghost predicate TermOfItem(bits: FloatBits, a: Json, t: Term) {
    a.Array? && exists i | 0 <= i < |a.items| ::
      ScalarCanon(bits, a.items[i]).Some? && t == JsonElementTerm(ScalarCanon(bits, a.items[i]).value)
  }

  ghost predicate OwnTerm(bits: FloatBits, v: Json, t: Term) {
    TermOfMember(bits, v, t) || TermOfItem(bits, v, t)
  }

  ghost predicate IsTermOf(bits: FloatBits, doc: Json, t: Term) {
    || (ScalarCanon(bits, doc).Some? && t == JsonElementTerm(ScalarCanon(bits, doc).value))
    || exists v | Inside(v, doc) :: OwnTerm(bits, v, t)
  }

  /** A document's terms are those of the keys, key/scalar pairs and scalar elements at any depth, and of a scalar at
      the top, and no others. */
  lemma {:induction false} TermsExactly(bits: FloatBits, doc: Json, t: Term)
    requires Canonical(bits, doc)
    ensures t in TermsOf(bits, doc) <==> IsTermOf(bits, doc, t)
    decreases doc, 1
  {
    hide JsonElementTerm, JsonKeyTerm, JsonPairTerm;
    match doc
    case Object(members) =>
      MemberTermsExactly(bits, members, t);
      ObjectTerms(bits, doc, t);
    case Array(items) =>
      ItemTermsExactly(bits, items, t);
      ArrayTerms(bits, doc, t);
    case _ =>
  }

  /** A member contributes its key, its pair if it is a scalar, and otherwise the terms of its value. */
  ghost predicate FromMember(bits: FloatBits, m: Member, t: Term)
    requires Canonical(bits, m.value)
    decreases m, 0
  {
    || t == JsonKeyTerm(m.key)
    || (if Scalar(m.value) then t == JsonPairTerm(m.key, ScalarCanon(bits, m.value).value)
        else IsTermOf(bits, m.value, t))
  }

  lemma {:induction false} MemberTermsExactly(bits: FloatBits, members: seq<Member>, t: Term)
    requires AllCanonical(bits, members)
    ensures t in MemberTerms(bits, members) <==> exists i | 0 <= i < |members| :: FromMember(bits, members[i], t)
    decreases members, 0
  {
    hide JsonKeyTerm, JsonPairTerm, IsTermOf;
    if members != [] {
      var n := |members| - 1;
      var init, last := members[..n], members[n];
      MemberTermsExactly(bits, init, t);
      if !Scalar(last.value) {
        TermsExactly(bits, last.value, t);
      }
      assert t in MemberTerms(bits, members) <==> t in MemberTerms(bits, init) || FromMember(bits, last, t);
      if i :| 0 <= i < |init| && FromMember(bits, init[i], t) {
        assert members[i] == init[i];
      }
      if i :| 0 <= i < |members| && FromMember(bits, members[i], t) {
        assert i < n ==> init[i] == members[i];
      }
    }
  }

  lemma {:induction false} ItemTermsExactly(bits: FloatBits, items: seq<Json>, t: Term)
    requires ItemsCanonical(bits, items)
    ensures t in ItemTerms(bits, items) <==> exists i | 0 <= i < |items| :: IsTermOf(bits, items[i], t)
    decreases items, 0
  {
    hide IsTermOf;
    if items != [] {
      var n := |items| - 1;
      var init, last := items[..n], items[n];
      ItemTermsExactly(bits, init, t);
      TermsExactly(bits, last, t);
      assert t in ItemTerms(bits, items) <==> t in ItemTerms(bits, init) || IsTermOf(bits, last, t);
      if i :| 0 <= i < |init| && IsTermOf(bits, init[i], t) {
        assert items[i] == init[i];
      }
      if i :| 0 <= i < |items| && IsTermOf(bits, items[i], t) {
        assert i < n ==> init[i] == items[i];
      }
    }
  }

  lemma {:induction false} ObjectTerms(bits: FloatBits, doc: Json, t: Term)
    requires doc.Object? && Canonical(bits, doc)
    ensures (exists i | 0 <= i < |doc.members| :: FromMember(bits, doc.members[i], t)) <==> IsTermOf(bits, doc, t)
  {
    hide JsonElementTerm, JsonKeyTerm, JsonPairTerm;
    if i :| 0 <= i < |doc.members| && FromMember(bits, doc.members[i], t) {
      var m := doc.members[i];
      if t == JsonKeyTerm(m.key) || Scalar(m.value) {
        assert Inside(doc, doc) && TermOfMember(bits, doc, t);
      } else {
        var v :| Inside(v, m.value) && OwnTerm(bits, v, t);
        assert Inside(v, doc);
      }
    }
    if IsTermOf(bits, doc, t) {
      var v :| Inside(v, doc) && OwnTerm(bits, v, t);
      if v == doc {
        var i :| 0 <= i < |doc.members| &&
                 (t == JsonKeyTerm(doc.members[i].key) ||
                  (ScalarCanon(bits, doc.members[i].value).Some?
                   && t == JsonPairTerm(doc.members[i].key, ScalarCanon(bits, doc.members[i].value).value)));
        assert FromMember(bits, doc.members[i], t);
      } else {
        var i :| 0 <= i < |doc.members| && Inside(v, doc.members[i].value);
        assert !Scalar(doc.members[i].value);
        assert IsTermOf(bits, doc.members[i].value, t);
        assert FromMember(bits, doc.members[i], t);
      }
    }
  }

  lemma {:induction false} ArrayTerms(bits: FloatBits, doc: Json, t: Term)
    requires doc.Array? && Canonical(bits, doc)
    ensures (exists i | 0 <= i < |doc.items| :: IsTermOf(bits, doc.items[i], t)) <==> IsTermOf(bits, doc, t)
  {
    hide JsonElementTerm, JsonKeyTerm, JsonPairTerm;
    if i :| 0 <= i < |doc.items| && IsTermOf(bits, doc.items[i], t) {
      if v :| Inside(v, doc.items[i]) && OwnTerm(bits, v, t) {
        assert Inside(v, doc);
      } else {
        assert TermOfItem(bits, doc, t) && Inside(doc, doc);
      }
    }
    if IsTermOf(bits, doc, t) {
      var v :| Inside(v, doc) && OwnTerm(bits, v, t);
      if v == doc {
        var i :| 0 <= i < |doc.items| && ScalarCanon(bits, doc.items[i]).Some?
                 && t == JsonElementTerm(ScalarCanon(bits, doc.items[i]).value);
        assert IsTermOf(bits, doc.items[i], t);
      } else {
        var i :| 0 <= i < |doc.items| && Inside(v, doc.items[i]);
        assert IsTermOf(bits, doc.items[i], t);
      }
    }
  }

  // ---- Clauses of a probe ----

  ghost function ClausesOf(bits: FloatBits, v: Json): Clauses
    requires Canonical(bits, v)
    decreases v, 1
  {
    match v
    case Object(members) => MemberClauses(bits, members)
    case Array(items) => ItemClauses(bits, items)
    case _ => [[JsonElementTerm(ScalarCanon(bits, v).value)]]
  }

  ghost function MemberClauses(bits: FloatBits, members: seq<Member>): Clauses
    requires AllCanonical(bits, members)
    decreases members, 1
  {
    if members == [] then []
    else MemberClauses(bits, members[..|members| - 1]) + OwnClauses(bits, members[|members| - 1])
  }

  ghost function OwnClauses(bits: FloatBits, m: Member): Clauses
    requires Canonical(bits, m.value)
    decreases m, 0
  {
    [[JsonKeyTerm(m.key)]] +
    if Scalar(m.value) then [[JsonPairTerm(m.key, ScalarCanon(bits, m.value).value)]] else ClausesOf(bits, m.value)
  }

  ghost function ItemClauses(bits: FloatBits, items: seq<Json>): Clauses
    requires ItemsCanonical(bits, items)
    decreases items, 0
  {
    if items == [] then [] else ItemClauses(bits, items[..|items| - 1]) + ClausesOf(bits, items[|items| - 1])
  }

  /** The clauses of a probe are its own terms, one each, so a document satisfies them exactly when it has them all. */
  lemma {:induction false} ClausesAreTerms(bits: FloatBits, v: Json, c: seq<Term>)
    requires Canonical(bits, v)
    ensures c in ClausesOf(bits, v) <==> |c| == 1 && c[0] in TermsOf(bits, v)
    decreases v, 1
  {
    hide JsonElementTerm, JsonKeyTerm, JsonPairTerm;
    match v
    case Object(members) => MemberClausesAreTerms(bits, members, c);
    case Array(items) => ItemClausesAreTerms(bits, items, c);
    case _ =>
      var own := [JsonElementTerm(ScalarCanon(bits, v).value)];
      assert ClausesOf(bits, v) == [own] && (|c| == 1 && c[0] == own[0] ==> c == own);
  }

  lemma {:induction false} MemberClausesAreTerms(bits: FloatBits, members: seq<Member>, c: seq<Term>)
    requires AllCanonical(bits, members)
    ensures c in MemberClauses(bits, members) <==> |c| == 1 && c[0] in MemberTerms(bits, members)
    decreases members, 0
  {
    hide JsonElementTerm, JsonKeyTerm, JsonPairTerm, TermsOf, ClausesOf;
    if members != [] {
      var init, m := members[..|members| - 1], members[|members| - 1];
      MemberClausesAreTerms(bits, init, c);
      assert |c| == 1 ==> c == [c[0]];
      if !Scalar(m.value) {
        ClausesAreTerms(bits, m.value, c);
      }
      assert c in MemberClauses(bits, members) <==> c in MemberClauses(bits, init) || c in OwnClauses(bits, m);
    }
  }

  lemma {:induction false} ItemClausesAreTerms(bits: FloatBits, items: seq<Json>, c: seq<Term>)
    requires ItemsCanonical(bits, items)
    ensures c in ItemClauses(bits, items) <==> |c| == 1 && c[0] in ItemTerms(bits, items)
    decreases items, 0
  {
    hide TermsOf, ClausesOf;
    if items != [] {
      var init, last := items[..|items| - 1], items[|items| - 1];
      ItemClausesAreTerms(bits, init, c);
      ClausesAreTerms(bits, last, c);
      assert c in ItemClauses(bits, items) <==> c in ItemClauses(bits, init) || c in ClausesOf(bits, last);
    }
  }

  lemma {:induction false} ProbeSatisfiedExactly(bits: FloatBits, terms: set<Term>, probe: Json)
    requires Canonical(bits, probe)
    ensures Satisfies(terms, ClausesOf(bits, probe)) <==> TermsOf(bits, probe) <= terms
  {
    hide TermsOf, ClausesOf;
    var clauses := ClausesOf(bits, probe);
    if Satisfies(terms, clauses) {
      forall t | t in TermsOf(bits, probe) ensures t in terms {
        ClausesAreTerms(bits, probe, [t]);
        var i :| 0 <= i < |clauses| && clauses[i] == [t];
        assert Hits(terms, clauses[i]);
      }
    }
    if TermsOf(bits, probe) <= terms {
      forall i | 0 <= i < |clauses| ensures Hits(terms, clauses[i]) {
        assert clauses[i] in clauses;
        ClausesAreTerms(bits, probe, clauses[i]);
        assert clauses[i][0] in clauses[i];
      }
    }
  }

  /** `doc @> probe`: the clauses of an object or array probe are pushed onto `clauses`; `None` when a number has no
      float form. */
  method CollectProbeClauses(bits: FloatBits, v: Json, clauses: Clauses) returns (r: Option<Clauses>)
    requires !Scalar(v) || ScalarCanon(bits, v).None?
    ensures r.Some? <==> Canonical(bits, v)
    ensures r.Some? ==> r.value == clauses + ClausesOf(bits, v)
    decreases v, 2
  {
    match v
    case Object(members) => r := CollectMembers(bits, members, clauses);
    case Array(items) => r := CollectItems(bits, items, clauses);
    case _ => r := None;
  }

  method CollectMembers(bits: FloatBits, members: seq<Member>, clauses: Clauses) returns (r: Option<Clauses>)
    ensures r.Some? <==> AllCanonical(bits, members)
    ensures r.Some? ==> r.value == clauses + MemberClauses(bits, members)
    decreases members, 1
  {
    hide OwnClauses;
    var out := clauses;
    assert clauses + MemberClauses(bits, []) == clauses;
    for i := 0 to |members|
      invariant AllCanonical(bits, members[..i])
      invariant out == clauses + MemberClauses(bits, members[..i])
    {
      ghost var before := MemberClauses(bits, members[..i]);
      var more := CollectMember(bits, members[i], out);
      if more.None? {
        return None;
      }
      assert members[..i + 1][..i] == members[..i] && members[..i + 1][i] == members[i];
      assert (clauses + before) + OwnClauses(bits, members[i]) == clauses + (before + OwnClauses(bits, members[i]));
      out := more.value;
    }
    assert members[..|members|] == members;
    r := Some(out);
  }

  method CollectMember(bits: FloatBits, m: Member, clauses: Clauses) returns (r: Option<Clauses>)
    ensures r.Some? <==> Canonical(bits, m.value)
    ensures r.Some? ==> r.value == clauses + OwnClauses(bits, m)
    decreases m, 0
  {
    hide ClausesOf, JsonKeyTerm, JsonPairTerm;
    var out := clauses + [[JsonKeyTerm(m.key)]];
    var scalar := ScalarCanon(bits, m.value);
    if scalar.Some? {
      return Some(out + [[JsonPairTerm(m.key, scalar.value)]]);
    }
    r := CollectProbeClauses(bits, m.value, out);
  }

  method CollectItems(bits: FloatBits, items: seq<Json>, clauses: Clauses) returns (r: Option<Clauses>)
    ensures r.Some? <==> ItemsCanonical(bits, items)
    ensures r.Some? ==> r.value == clauses + ItemClauses(bits, items)
    decreases items, 1
  {
    hide ClausesOf;
    var out := clauses;
    assert clauses + ItemClauses(bits, []) == clauses;
    for i := 0 to |items|
      invariant ItemsCanonical(bits, items[..i])
      invariant out == clauses + ItemClauses(bits, items[..i])
    {
      ghost var before := ItemClauses(bits, items[..i]);
      var more := CollectItem(bits, items[i], out);
      if more.None? {
        return None;
      }
      assert items[..i + 1][..i] == items[..i] && items[..i + 1][i] == items[i];
      assert (clauses + before) + ClausesOf(bits, items[i]) == clauses + (before + ClausesOf(bits, items[i]));
      out := more.value;
    }
    assert items[..|items|] == items;
    r := Some(out);
  }

  method CollectItem(bits: FloatBits, item: Json, clauses: Clauses) returns (r: Option<Clauses>)
    ensures r.Some? <==> Canonical(bits, item)
    ensures r.Some? ==> r.value == clauses + ClausesOf(bits, item)
    decreases item, 3
  {
    var scalar := ScalarCanon(bits, item);
    if scalar.Some? {
      return Some(clauses + [[JsonElementTerm(scalar.value)]]);
    }
    r := CollectProbeClauses(bits, item, clauses);
  }

  // ---- Containment implies every clause ----

  lemma {:induction false} SatisfiesMore(few: set<Term>, many: set<Term>, clauses: Clauses)
    requires Satisfies(few, clauses) && few <= many
    ensures Satisfies(many, clauses)
  {
    forall i | 0 <= i < |clauses| ensures Hits(many, clauses[i]) {
      assert Hits(few, clauses[i]);
    }
  }

  lemma {:induction false} SatisfiesSingle(terms: set<Term>, t: Term)
    requires t in terms
    ensures Satisfies(terms, [[t]])
  {
    assert t in [[t]][0];
  }

  /** Equal values below the top level have the same terms, wherever they stand. */
  lemma {:induction false} ContainedTerms(bits: FloatBits, doc: Json, probe: Json)
    requires Canonical(bits, doc) && Canonical(bits, probe) && Contains(doc, probe)
    ensures Satisfies(TermsOf(bits, doc), ClausesOf(bits, probe))
    decreases probe, 1
  {
    match probe
    case Object(members) => ContainedMembers(bits, doc, members);
    case Array(items) => ContainedItems(bits, doc, items);
    case _ => SatisfiesSingle(TermsOf(bits, doc), JsonElementTerm(ScalarCanon(bits, probe).value));
  }

  ghost predicate HasMembers(doc: Json, members: seq<Member>) {
    doc.Object? && forall i | 0 <= i < |members| :: HasMember(doc.members, members[i])
  }

  lemma {:induction false} ContainedMembers(bits: FloatBits, doc: Json, members: seq<Member>)
    requires Canonical(bits, doc) && AllCanonical(bits, members) && HasMembers(doc, members)
    ensures Satisfies(TermsOf(bits, doc), MemberClauses(bits, members))
    decreases members, 1
  {
    hide OwnClauses, TermsOf;
    if members != [] {
      var init, m := members[..|members| - 1], members[|members| - 1];
      ContainedMembers(bits, doc, init);
      assert HasMember(doc.members, m);
      var j :| 0 <= j < |doc.members| && doc.members[j].key == m.key && Contains(doc.members[j].value, m.value);
      ContainedMember(bits, doc, j, m);
      SatisfiesConcat(TermsOf(bits, doc), MemberClauses(bits, init), OwnClauses(bits, m));
    }
  }

  lemma {:induction false} ContainedMember(bits: FloatBits, doc: Json, j: nat, m: Member)
    requires Canonical(bits, doc) && doc.Object? && j < |doc.members| && Canonical(bits, m.value)
    requires doc.members[j].key == m.key && Contains(doc.members[j].value, m.value)
    ensures Satisfies(TermsOf(bits, doc), OwnClauses(bits, m))
    decreases m, 0
  {
    var terms := TermsOf(bits, doc);
    MemberTermsAt(bits, doc.members, j);
    SatisfiesSingle(terms, JsonKeyTerm(m.key));
    var value := if Scalar(m.value) then [[JsonPairTerm(m.key, ScalarCanon(bits, m.value).value)]]
                 else ClausesOf(bits, m.value);
    if Scalar(m.value) {
      SatisfiesSingle(terms, JsonPairTerm(m.key, ScalarCanon(bits, m.value).value));
    } else {
      ContainedTerms(bits, doc.members[j].value, m.value);
      SatisfiesMore(TermsOf(bits, doc.members[j].value), terms, value);
    }
    SatisfiesConcat(terms, [[JsonKeyTerm(m.key)]], value);
  }

  ghost predicate HasItems(doc: Json, items: seq<Json>) {
    doc.Array? && forall i | 0 <= i < |items| :: HasItem(doc.items, items[i])
  }

  lemma {:induction false} ContainedItems(bits: FloatBits, doc: Json, items: seq<Json>)
    requires Canonical(bits, doc) && ItemsCanonical(bits, items) && HasItems(doc, items)
    ensures Satisfies(TermsOf(bits, doc), ItemClauses(bits, items))
    decreases items, 0
  {
    if items != [] {
      var init, last := items[..|items| - 1], items[|items| - 1];
      ContainedItems(bits, doc, init);
      assert HasItem(doc.items, last);
      var j :| 0 <= j < |doc.items| && Contains(doc.items[j], last);
      ContainedTerms(bits, doc.items[j], last);
      ItemTermsAt(bits, doc.items, j);
      SatisfiesMore(TermsOf(bits, doc.items[j]), TermsOf(bits, doc), ClausesOf(bits, last));
      SatisfiesConcat(TermsOf(bits, doc), ItemClauses(bits, init), ClausesOf(bits, last));
    }
  }

  /** The clauses of `doc @> json`; `None` for text that is not JSON, scalar probes and probes that ask for nothing. */
  method JsonbContainsClauses(bits: FloatBits, parsed: Option<Json>) returns (r: Option<Clauses>)
    ensures r.Some? ==> parsed.Some? && Canonical(bits, parsed.value) && r.value == ClausesOf(bits, parsed.value) != []
    ensures r.Some? ==> forall doc | Canonical(bits, doc) && ContainedIn(doc, parsed.value) ::
                          Satisfies(TermsOf(bits, doc), r.value)
    ensures r.None? <==> parsed.None? || Scalar(parsed.value) || !Canonical(bits, parsed.value)
                         || ClausesOf(bits, parsed.value) == []
  {
    if parsed.None? || Scalar(parsed.value) {
      return None;
    }
    var clauses := CollectProbeClauses(bits, parsed.value, []);
    if clauses.None? {
      return None;
    }
    assert [] + ClausesOf(bits, parsed.value) == ClausesOf(bits, parsed.value);
    if clauses.value == [] {
      return None;
    }
    forall doc | Canonical(bits, doc) && ContainedIn(doc, parsed.value)
      ensures Satisfies(TermsOf(bits, doc), clauses.value)
    {
      ContainedTerms(bits, doc, parsed.value);
    }
    r := clauses;
  }

  // ---- Key existence ----

  function KeyClause(key: string): seq<Term> {
    [JsonKeyTerm(key), JsonElementTerm([0x73] + Utf8(key))]
  }

  /** A document hits the clause of a key exactly when it has the key, or the string as an array element or on its own,
      at some depth. */
  lemma {:induction false} KeyClauseExactly(bits: FloatBits, doc: Json, key: string)
    requires Canonical(bits, doc)
    ensures Hits(TermsOf(bits, doc), KeyClause(key))
       <==> IsTermOf(bits, doc, [0x02] + Utf8(key)) || IsTermOf(bits, doc, [0x04, 0x73] + Utf8(key))
  {
    hide IsTermOf, TermsOf;
    var clause := KeyClause(key);
    assert clause[0] == [0x02] + Utf8(key) && clause[1] == [0x04, 0x73] + Utf8(key);
    assert clause[0] in clause && clause[1] in clause;
    TermsExactly(bits, doc, clause[0]);
    TermsExactly(bits, doc, clause[1]);
  }

  /** A key found as an object key, an array element or a top-level string is among the document's terms. */
  lemma {:induction false} KeyExistsHits(bits: FloatBits, doc: Json, key: string)
    requires Canonical(bits, doc) && KeyExists(doc, key)
    ensures Hits(TermsOf(bits, doc), KeyClause(key))
  {
    var clause := KeyClause(key);
    match doc
    case Object(members) =>
      var j :| 0 <= j < |members| && members[j].key == key;
      MemberTermsAt(bits, members, j);
      assert clause[0] in clause;
    case Array(items) =>
      var j :| 0 <= j < |items| && items[j] == Str(key);
      ItemTermsAt(bits, items, j);
      assert clause[1] in TermsOf(bits, items[j]);
      assert clause[1] in clause;
    case Str(_) => assert clause[1] in clause;
    case _ =>
  }

  /** `doc ? k`, `doc ?| keys` and, with `all`, `doc ?& keys`. */
  method JsonbExistsClauses(keys: seq<string>, all: bool) returns (r: Option<Clauses>)
    ensures r.None? <==> keys == []
    ensures r.Some? && all ==> |r.value| == |keys| && forall i | 0 <= i < |keys| :: r.value[i] == KeyClause(keys[i])
    ensures r.Some? && !all ==> |r.value| == 1
    ensures r.Some? && !all ==> forall t | t in r.value[0] :: exists k | k in keys :: t in KeyClause(k)
    ensures r.Some? && !all ==> forall k, t | k in keys && t in KeyClause(k) :: t in r.value[0]
  {
    if keys == [] {
      return None;
    }
    if all {
      return Some(seq(|keys|, i requires 0 <= i < |keys| => KeyClause(keys[i])));
    }
    var clause: seq<Term> := [];
    for i := 0 to |keys|
      invariant forall t | t in clause :: exists k | k in keys :: t in KeyClause(k)
      invariant forall j, t | 0 <= j < i && t in KeyClause(keys[j]) :: t in clause
    {
      assert keys[i] in keys;
      clause := clause + KeyClause(keys[i]);
    }
    r := Some([clause]);
  }

  /** A document with all the keys (`?&`), or one of them (`?|`), satisfies the clauses. */
  lemma {:induction false} ExistsClausesSound(bits: FloatBits, doc: Json, keys: seq<string>, all: bool,
                                              clauses: Clauses)
    requires Canonical(bits, doc)
    requires all ==> |clauses| == |keys| && forall i | 0 <= i < |keys| :: clauses[i] == KeyClause(keys[i])
    requires !all ==> |clauses| == 1 && forall k, t | k in keys && t in KeyClause(k) :: t in clauses[0]
    requires if all then forall k | k in keys :: KeyExists(doc, k) else exists k | k in keys :: KeyExists(doc, k)
    ensures Satisfies(TermsOf(bits, doc), clauses)
  {
    if all {
      forall i | 0 <= i < |clauses| ensures Hits(TermsOf(bits, doc), clauses[i]) {
        KeyExistsHits(bits, doc, keys[i]);
      }
    } else {
      var k :| k in keys && KeyExists(doc, k);
      KeyExistsHits(bits, doc, k);
      var t :| t in KeyClause(k) && t in TermsOf(bits, doc);
      assert t in clauses[0];
    }
  }
}
