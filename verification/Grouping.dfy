/** Grouping a sequence by key in an ordered map: every group keeps the items' order, groups come in key order. */
module Grouping {

  ghost predicate StrictOrder<K(!new)>(less: (K, K) -> bool) {
    && (forall a, b :: less(a, b) || a == b || less(b, a))
    && (forall a, b :: less(a, b) ==> a != b && !less(b, a))
    && (forall a, b, c :: less(a, b) && less(b, c) ==> less(a, c))
  }

  /** The items with one key, in their order. */
  ghost function Of<T, K>(items: seq<T>, key: T -> K, k: K): seq<T> {
    if items == [] then []
    else Of(items[..|items| - 1], key, k) + (if key(items[|items| - 1]) == k then [items[|items| - 1]] else [])
  }

  ghost predicate Ascends<T, K>(items: seq<T>, key: T -> K, less: (K, K) -> bool) {
    forall i, j | 0 <= i < j < |items| :: !less(key(items[j]), key(items[i]))
  }

  /** Every key keeps its items in their order, and keys come one after another in ascending order. */
  ghost predicate StableGrouping<T, K(!new)>(items: seq<T>, key: T -> K, less: (K, K) -> bool, out: seq<T>) {
    (forall k: K :: Of(out, key, k) == Of(items, key, k)) && Ascends(out, key, less)
  }

  // ---- Facts about selections ----

  lemma {:induction false} OfConcat<T, K>(a: seq<T>, b: seq<T>, key: T -> K, k: K)
    ensures Of(a + b, key, k) == Of(a, key, k) + Of(b, key, k)
  {
    if b == [] {
      assert a + b == a;
    } else {
      OfConcat(a, b[..|b| - 1], key, k);
      assert (a + b)[..|a + b| - 1] == a + b[..|b| - 1];
    }
  }

  lemma {:induction false} OfOnly<T, K>(items: seq<T>, key: T -> K, k: K)
    ensures forall x | x in Of(items, key, k) :: key(x) == k
  {
    if items != [] {
      OfOnly(items[..|items| - 1], key, k);
    }
  }

  lemma {:induction false} OfAll<T, K>(items: seq<T>, key: T -> K, k: K)
    requires forall x | x in items :: key(x) == k
    ensures Of(items, key, k) == items
  {
    if items != [] {
      var init, last := items[..|items| - 1], items[|items| - 1];
      assert last in items && forall x | x in init :: x in items;
      OfAll(init, key, k);
    }
  }

  lemma {:induction false} OfNone<T, K>(items: seq<T>, key: T -> K, k: K)
    requires forall x | x in items :: key(x) != k
    ensures Of(items, key, k) == []
  {
    if items != [] {
      assert forall x | x in items[..|items| - 1] :: x in items;
      OfNone(items[..|items| - 1], key, k);
    }
  }

  lemma {:induction false} OfNext<T, K>(items: seq<T>, key: T -> K, i: nat, k: K)
    requires i < |items|
    ensures Of(items[..i + 1], key, k) == Of(items[..i], key, k) + (if key(items[i]) == k then [items[i]] else [])
  {
    assert items[..i + 1][..i] == items[..i];
  }

  /** How often an item occurs is how often it occurs among the items of its key. */
  lemma {:induction false} CountOf<T, K>(items: seq<T>, key: T -> K, x: T)
    ensures multiset(items)[x] == multiset(Of(items, key, key(x)))[x]
  {
    if items != [] {
      var init, last := items[..|items| - 1], items[|items| - 1];
      CountOf(init, key, x);
      assert items == init + [last];
    }
  }

  /** A stable grouping is a permutation. */
  lemma {:induction false} Permutes<T(!new), K(!new)>(items: seq<T>, key: T -> K, less: (K, K) -> bool, out: seq<T>)
    requires StableGrouping(items, key, less, out)
    ensures multiset(out) == multiset(items)
  {
    forall x: T ensures multiset(out)[x] == multiset(items)[x] {
      CountOf(out, key, x);
      CountOf(items, key, x);
    }
  }

  // ---- The ordered map ----

  ghost predicate KeysAscend<K(!new)>(keys: seq<K>, less: (K, K) -> bool) {
    forall i, j | 0 <= i < j < |keys| :: less(keys[i], keys[j])
  }

  /** An ordered map from keys to groups that holds exactly these items. */
  ghost predicate Grouped<T, K(!new)>(items: seq<T>, key: T -> K, less: (K, K) -> bool, keys: seq<K>,
                                      groups: map<K, seq<T>>) {
    && KeysAscend(keys, less)
    && (forall k :: k in keys <==> k in groups)
    && (forall k | k in groups :: groups[k] == Of(items, key, k) && groups[k] != [])
    && (forall x | x in items :: key(x) in groups)
  }

  lemma {:induction false} KeysUnique<K(!new)>(keys: seq<K>, keys': seq<K>, less: (K, K) -> bool)
    requires StrictOrder(less) && KeysAscend(keys, less) && KeysAscend(keys', less)
    requires forall k :: k in keys <==> k in keys'
    ensures keys == keys'
  {
    assert |keys'| > 0 ==> keys'[0] in keys';
    if keys != [] {
      assert keys[0] in keys && keys[|keys| - 1] in keys;
      var n, n' := |keys| - 1, |keys'| - 1;
      var last, last' := keys[n], keys'[n'];
      assert last' in keys';
      var at :| 0 <= at <= n && keys[at] == last';
      var at' :| 0 <= at' <= n' && keys'[at'] == last;
      assert last == last';
      forall k ensures k in keys[..n] <==> k in keys'[..n'] {
        assert k in keys[..n] ==> k in keys && k != last;
        assert k in keys'[..n'] ==> k in keys' && k != last;
      }
      KeysUnique(keys[..n], keys'[..n'], less);
      assert keys == keys[..n] + [last] && keys' == keys'[..n'] + [last];
    }
  }

  lemma {:induction false} HasItem<T, K>(items: seq<T>, key: T -> K, k: K)
    requires Of(items, key, k) != []
    ensures exists x | x in items :: key(x) == k
  {
    if forall x | x in items :: key(x) != k {
      OfNone(items, key, k);
    }
  }

  /** The ordered map of a grouping is determined by the items. */
  lemma {:induction false} GroupedUnique<T, K(!new)>(items: seq<T>, key: T -> K, less: (K, K) -> bool, keys: seq<K>,
                                                     groups: map<K, seq<T>>, keys': seq<K>, groups': map<K, seq<T>>)
    requires StrictOrder(less)
    requires Grouped(items, key, less, keys, groups) && Grouped(items, key, less, keys', groups')
    ensures keys == keys' && groups == groups'
  {
    forall k ensures k in groups <==> k in groups' {
      if k in groups || k in groups' {
        HasItem(items, key, k);
      }
    }
    KeysUnique(keys, keys', less);
  }

  /** Adds a key to an ordered map's keys at its place. */
  method InsertKey<K(==, !new)>(keys: seq<K>, key: K, less: (K, K) -> bool) returns (out: seq<K>)
    requires StrictOrder(less) && KeysAscend(keys, less) && key !in keys
    ensures KeysAscend(out, less)
    ensures forall k :: k in out <==> k in keys || k == key
  {
    var at := 0;
    while at < |keys| && less(keys[at], key)
      invariant at <= |keys| && forall i | 0 <= i < at :: less(keys[i], key)
    {
      at := at + 1;
    }
    out := keys[..at] + [key] + keys[at..];
    forall j | at <= j < |keys| ensures less(key, keys[j]) {
      assert keys[at] in keys;
      assert j > at ==> less(keys[at], keys[j]);
    }
  }

  method GroupBy<T, K(==, !new)>(items: seq<T>, key: T -> K, less: (K, K) -> bool)
    returns (keys: seq<K>, groups: map<K, seq<T>>)
    requires StrictOrder(less)
    ensures Grouped(items, key, less, keys, groups)
  {
    keys, groups := [], map[];
    for i := 0 to |items|
      invariant Grouped(items[..i], key, less, keys, groups)
    {
      ghost var keys0, groups0 := keys, groups;
      var k := key(items[i]);
      if k !in groups {
        keys := InsertKey(keys, k, less);
      }
      groups := groups[k := (if k in groups then groups[k] else []) + [items[i]]];
      GroupedMore(items, key, less, i, keys0, groups0, keys, groups);
    }
    assert items[..|items|] == items;
  }

  lemma {:induction false} GroupedMore<T, K(!new)>(items: seq<T>, key: T -> K, less: (K, K) -> bool, i: nat,
                                                   keys: seq<K>, groups: map<K, seq<T>>, keys': seq<K>,
                                                   groups': map<K, seq<T>>)
    requires i < |items| && Grouped(items[..i], key, less, keys, groups) && KeysAscend(keys', less)
    requires var k := key(items[i]);
             && (forall x :: x in keys' <==> x in keys || x == k)
             && groups' == groups[k := (if k in groups then groups[k] else []) + [items[i]]]
    ensures Grouped(items[..i + 1], key, less, keys', groups')
  {
    hide KeysAscend, Of;
    var k := key(items[i]);
    if k !in groups {
      assert forall x | x in items[..i] :: key(x) != k;
      OfNone(items[..i], key, k);
    }
    forall x | x in groups' ensures groups'[x] == Of(items[..i + 1], key, x) && groups'[x] != [] {
      OfNext(items, key, i, x);
    }
    forall x | x in items[..i + 1] ensures key(x) in groups' {
      assert x in items[..i] || x == items[i];
    }
  }

  // ---- The groups one after another ----

  ghost function Concat<T, K>(keys: seq<K>, groups: map<K, seq<T>>): seq<T>
    requires forall k | k in keys :: k in groups
  {
    if keys == [] then [] else Concat(keys[..|keys| - 1], groups) + groups[keys[|keys| - 1]]
  }

  /** The first `n` groups one after another are grouped as they should be. */
  lemma {:induction false} ConcatGroups<T, K(!new)>(items: seq<T>, key: T -> K, less: (K, K) -> bool, keys: seq<K>,
                                                        groups: map<K, seq<T>>, n: nat)
    requires StrictOrder(less) && Grouped(items, key, less, keys, groups) && n <= |keys|
    requires forall k | k in keys[..n] :: k in groups
    ensures forall k | k in keys[..n] :: Of(Concat(keys[..n], groups), key, k) == groups[k]
    ensures forall x | x in Concat(keys[..n], groups) :: key(x) in keys[..n]
    ensures Ascends(Concat(keys[..n], groups), key, less)
  {
    if n > 0 {
      assert keys[..n][..n - 1] == keys[..n - 1];
      assert forall k | k in keys[..n - 1] :: k in keys[..n];
      ConcatGroups(items, key, less, keys, groups, n - 1);
      ConcatStep(items, key, less, keys, groups, n - 1, Concat(keys[..n - 1], groups));
    }
  }

  lemma {:induction false} ConcatStep<T, K(!new)>(items: seq<T>, key: T -> K, less: (K, K) -> bool, keys: seq<K>,
                                                  groups: map<K, seq<T>>, i: nat, out: seq<T>)
    requires StrictOrder(less) && Grouped(items, key, less, keys, groups) && i < |keys|
    requires forall k | k in keys[..i] :: k in groups && Of(out, key, k) == groups[k]
    requires (forall x | x in out :: key(x) in keys[..i]) && Ascends(out, key, less)
    ensures keys[i] in groups
    ensures forall k | k in keys[..i + 1] :: k in groups && Of(out + groups[keys[i]], key, k) == groups[k]
    ensures forall x | x in out + groups[keys[i]] :: key(x) in keys[..i + 1]
    ensures Ascends(out + groups[keys[i]], key, less)
  {
    var own := keys[i];
    assert own in keys;
    var group := groups[own];
    OfOnly(items, key, own);
    assert forall k | k in keys[..i] :: less(k, own);
    forall k | k in keys[..i + 1] ensures k in groups && Of(out + group, key, k) == groups[k] {
      OfConcat(out, group, key, k);
      if k == own {
        OfNone(out, key, k);
        OfAll(group, key, k);
      } else {
        assert k in keys[..i];
        OfNone(group, key, k);
      }
    }
    forall x | x in out + group ensures key(x) in keys[..i + 1] {
      if x in group {
        assert keys[..i + 1][i] == own;
      } else {
        assert key(x) in keys[..i];
      }
    }
    AscendStep(key, less, out, group, own);
  }

  lemma {:induction false} AscendStep<T, K(!new)>(key: T -> K, less: (K, K) -> bool, out: seq<T>, group: seq<T>, own: K)
    requires StrictOrder(less) && Ascends(out, key, less) && forall x | x in group :: key(x) == own
    requires forall x | x in out :: less(key(x), own)
    ensures Ascends(out + group, key, less)
  {
    var all := out + group;
    forall i, j | 0 <= i < j < |all| ensures !less(key(all[j]), key(all[i])) {
      if j >= |out| {
        assert all[j] in group;
        if i < |out| {
          assert all[i] in out;
        } else {
          assert all[i] in group;
        }
      }
    }
  }

  /** The groups one after another are a stable grouping of the items. */
  lemma {:induction false} ConcatIsStableGrouping<T, K(!new)>(items: seq<T>, key: T -> K, less: (K, K) -> bool,
                                                              keys: seq<K>, groups: map<K, seq<T>>)
    requires StrictOrder(less) && Grouped(items, key, less, keys, groups)
    ensures (forall k | k in keys :: k in groups) && StableGrouping(items, key, less, Concat(keys, groups))
  {
    assert keys[..|keys|] == keys;
    ConcatGroups(items, key, less, keys, groups, |keys|);
    var out := Concat(keys, groups);
    forall k: K ensures Of(out, key, k) == Of(items, key, k) {
      if k !in keys {
        OfNone(out, key, k);
        OfNone(items, key, k);
      }
    }
  }
}
