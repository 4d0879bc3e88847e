/** Cold row versions: which one a read shows, and what a compaction rewrite may drop. */
module ColdVersions {
  import opened Bytes
  import opened KeyBounds

  datatype Op = Insert | Update | Delete

  type Image = string

  /** One version of a row in a cold segment. A delete marker has no image. */
  datatype ColdRow = ColdRow(key: KeyTuple, seqId: int, op: Op, image: Option<Image>)

  /** No version of its key in `rows` is newer. Versions with equal sequence numbers tie. */
  ghost predicate Newest(rows: set<ColdRow>, r: ColdRow) {
    r in rows && forall o | o in rows && o.key == r.key :: o.seqId <= r.seqId
  }

  function Shown(r: ColdRow): Option<Image> {
    if r.op.Delete? then None else r.image
  }

  ghost predicate HasKey(rows: set<ColdRow>, key: KeyTuple) {
    exists r | r in rows :: r.key == key
  }

  /** Whatever newest version of `key` a reader picks, it shows `answer`. */
  ghost predicate ColdSays(rows: set<ColdRow>, key: KeyTuple, answer: Option<Image>) {
    && (!HasKey(rows, key) ==> answer == None)
    && (forall r | Newest(rows, r) && r.key == key :: Shown(r) == answer)
  }

  /** What the merge reads from the cold side: the newest version, unless it is a delete marker. */
  ghost function ColdAnswer(rows: set<ColdRow>, key: KeyTuple): Option<Image> {
    if HasKey(rows, key) then
      NewestExists(rows, key);
      var r :| Newest(rows, r) && r.key == key;
      Shown(r)
    else None
  }

  lemma {:induction false} NewestExists(rows: set<ColdRow>, key: KeyTuple)
    requires HasKey(rows, key)
    ensures exists r :: Newest(rows, r) && r.key == key
  {
    var r :| r in rows && r.key == key;
    var rest := rows - {r};
    if HasKey(rest, key) {
      NewestExists(rest, key);
      var n :| Newest(rest, n) && n.key == key;
      var best := if n.seqId < r.seqId then r else n;
      assert Newest(rows, best) by {
        forall o | o in rows && o.key == best.key ensures o.seqId <= best.seqId {
          assert o == r || o in rest;
        }
      }
    } else {
      assert Newest(rows, r) by {
        forall o | o in rows && o.key == r.key ensures o.seqId <= r.seqId {
          assert o != r ==> o in rest;
        }
      }
    }
  }

  lemma {:induction false} ColdSaysAnswer(rows: set<ColdRow>, key: KeyTuple, answer: Option<Image>)
    requires ColdSays(rows, key, answer)
    ensures ColdAnswer(rows, key) == answer
  {
    if HasKey(rows, key) {
      NewestExists(rows, key);
    }
  }

  // ---- Rewriting a unit ----

  /** `kept` holds, for each key of `unit`, one newest version; with `dropMarkers` a key whose newest
      version is a delete marker is gone altogether. */
  ghost predicate IsRewrite(unit: set<ColdRow>, kept: set<ColdRow>, dropMarkers: bool) {
    && (forall r | r in kept :: Newest(unit, r))
    && (forall r, o | r in kept && o in kept && r.key == o.key :: r == o)
    && (forall u | u in unit :: Represented(unit, kept, dropMarkers, u.key))
  }

  ghost predicate Represented(unit: set<ColdRow>, kept: set<ColdRow>, dropMarkers: bool, key: KeyTuple) {
    exists w :: Newest(unit, w) && w.key == key &&
                if dropMarkers && w.op.Delete? then !HasKey(kept, key) else w in kept
  }

  ghost predicate NoSharedKey(a: set<ColdRow>, b: set<ColdRow>) {
    forall r, o | r in a && o in b :: r.key != o.key
  }

  /** Replacing a unit by its rewrite leaves the cold answer for every key as it was. Dropping delete
      markers needs the rest of the cold side to hold none of the unit's keys. */
  lemma {:induction false} RewriteKeepsAnswers(outside: set<ColdRow>, unit: set<ColdRow>, kept: set<ColdRow>,
                                               dropMarkers: bool, key: KeyTuple, answer: Option<Image>)
    requires IsRewrite(unit, kept, dropMarkers) && (dropMarkers ==> NoSharedKey(outside, unit))
    requires ColdSays(outside + unit, key, answer)
    ensures ColdSays(outside + kept, key, answer)
  {
    var before, after := outside + unit, outside + kept;
    if HasKey(unit, key) {
      var u :| u in unit && u.key == key;
      assert Represented(unit, kept, dropMarkers, u.key);
      var w :| Newest(unit, w) && w.key == key &&
               if dropMarkers && w.op.Delete? then !HasKey(kept, key) else w in kept;
      if dropMarkers && w.op.Delete? {
        assert Newest(before, w);
      } else {
        forall r | Newest(after, r) && r.key == key ensures Shown(r) == answer {
          assert w in after && w.seqId <= r.seqId;
          assert Newest(before, r);
        }
        assert w in after;
      }
    } else {
      forall r: ColdRow | r.key == key ensures r in before <==> r in after {
      }
      forall r | Newest(after, r) && r.key == key ensures Shown(r) == answer {
        assert Newest(before, r);
      }
    }
  }

  /** Without that condition a dropped marker brings back the version it was hiding. */
  lemma {:induction false} DroppedMarkerResurrects(key: KeyTuple, image: Image)
    ensures var hidden := ColdRow(key, 1, Insert, Some(image));
            var marker := ColdRow(key, 2, Delete, None);
            && ColdSays({hidden} + {marker}, key, None)
            && IsRewrite({marker}, {}, true)
            && ColdSays({hidden} + {}, key, Some(image))
  {
    var hidden := ColdRow(key, 1, Insert, Some(image));
    var marker := ColdRow(key, 2, Delete, None);
    assert Newest({marker}, marker);
    assert Newest({hidden} + {marker}, marker);
    assert marker in {hidden} + {marker};
    assert hidden in {hidden} + {};
  }

  /** The rows of a list as a set. */
  ghost function RowSet(rows: seq<ColdRow>): set<ColdRow> {
    set r | r in rows
  }

  /** Dropped versions recent enough are kept as history; `floor` is the newest one that is not. */
  ghost predicate Settled(history: multiset<ColdRow>, gone: multiset<ColdRow>, retainFrom: int, floor: int) {
    && (forall r | r in history :: r.seqId >= retainFrom)
    && (forall r | r in gone :: r.seqId < retainFrom && r.seqId <= floor)
    && floor >= 0 && (floor == 0 || exists r | r in gone :: r.seqId == floor)
  }

  /** Each winner is filed under its own key and is a newest version of it. */
  ghost predicate Winners(seen: set<ColdRow>, winners: map<KeyTuple, ColdRow>) {
    && (forall k | k in winners :: winners[k].key == k && Newest(seen, winners[k]))
    && (forall r | r in seen :: r.key in winners)
  }

  /** A dropped version goes to history or is gone for good. */
  method DropVersion(r: ColdRow, retainFrom: int, history: multiset<ColdRow>, floor: int, ghost gone: multiset<ColdRow>)
    returns (history': multiset<ColdRow>, floor': int, ghost gone': multiset<ColdRow>)
    requires Settled(history, gone, retainFrom, floor)
    ensures Settled(history', gone', retainFrom, floor')
    ensures history' + gone' == history + gone + multiset{r}
  {
    history', floor', gone' := history, floor, gone;
    if r.seqId >= retainFrom {
      history' := history + multiset{r};
    } else {
      gone' := gone + multiset{r};
      assert r in gone' && forall g | g in gone :: g in gone';
      if floor < r.seqId {
        floor' := r.seqId;
      }
    }
  }

  lemma {:induction false} ValuesAfterUpdate(winners: map<KeyTuple, ColdRow>, r: ColdRow)
    requires forall k | k in winners :: winners[k].key == k
    ensures var before := winners.Values - (if r.key in winners then {winners[r.key]} else {});
            winners[r.key := r].Values == before + {r} && r !in before
  {
    var after := winners[r.key := r];
    var before := winners.Values - (if r.key in winners then {winners[r.key]} else {});
    forall v ensures v in after.Values <==> v in before + {r} {
      if v in before {
        assert after[v.key] == v;
      }
      assert after[r.key] == r;
    }
  }

  lemma {:induction false} ValuesAfterRemoval(winners: map<KeyTuple, ColdRow>, key: KeyTuple)
    requires (forall k | k in winners :: winners[k].key == k) && key in winners
    ensures (winners - {key}).Values == winners.Values - {winners[key]}
  {
    var after := winners - {key};
    forall v ensures v in after.Values <==> v in winners.Values - {winners[key]} {
      if v in winners.Values - {winners[key]} {
        assert after[v.key] == v;
      }
    }
  }

  lemma {:induction false} WinnersStep(seen: seq<ColdRow>, winners: map<KeyTuple, ColdRow>, r: ColdRow)
    requires Winners(RowSet(seen), winners)
    ensures r.key in winners && winners[r.key].seqId >= r.seqId ==> Winners(RowSet(seen + [r]), winners)
    ensures !(r.key in winners && winners[r.key].seqId >= r.seqId) ==> Winners(RowSet(seen + [r]), winners[r.key := r])
  {
    var grown := RowSet(seen + [r]);
    assert grown == RowSet(seen) + {r};
  }

  /** Every row seen is a winner, in history, or gone. */
  ghost predicate Accounted(seen: multiset<ColdRow>, winners: set<ColdRow>,
                            history: multiset<ColdRow>, gone: multiset<ColdRow>) {
    seen == multiset(winners) + (history + gone)
  }

  /** Rows `added` come in, rows `dropped` leave the winners for history or for good. */
  lemma {:induction false} AccountStep(seen: multiset<ColdRow>, winners: set<ColdRow>, history: multiset<ColdRow>,
                                       gone: multiset<ColdRow>, added: multiset<ColdRow>, dropped: multiset<ColdRow>,
                                       winners': set<ColdRow>, history': multiset<ColdRow>, gone': multiset<ColdRow>)
    requires Accounted(seen, winners, history, gone)
    requires multiset(winners') + dropped == multiset(winners) + added
    requires history' + gone' == history + gone + dropped
    ensures Accounted(seen + added, winners', history', gone')
  {
    forall r ensures (seen + added)[r] == (multiset(winners') + (history' + gone'))[r] {
      assert (multiset(winners') + dropped)[r] == (multiset(winners) + added)[r];
      assert (history' + gone')[r] == (history + gone + dropped)[r];
    }
  }

  lemma {:induction false} TakeOut(values: set<ColdRow>, r: ColdRow)
    requires r in values
    ensures multiset(values) == multiset(values - {r}) + multiset{r}
  {
    assert values == (values - {r}) + {r};
  }

  lemma {:induction false} AccountForUpdate(winners: map<KeyTuple, ColdRow>, r: ColdRow)
    requires forall k | k in winners :: winners[k].key == k
    ensures multiset(winners[r.key := r].Values) + (if r.key in winners then multiset{winners[r.key]} else multiset{})
         == multiset(winners.Values) + multiset{r}
  {
    ValuesAfterUpdate(winners, r);
    var before := winners.Values - (if r.key in winners then {winners[r.key]} else {});
    assert (before + {r}) - {r} == before;
    TakeOut(before + {r}, r);
    if r.key in winners {
      TakeOut(winners.Values, winners[r.key]);
    }
  }

  lemma {:induction false} AccountForRemoval(winners: map<KeyTuple, ColdRow>, key: KeyTuple)
    requires (forall k | k in winners :: winners[k].key == k) && key in winners
    ensures multiset(winners.Values) == multiset((winners - {key}).Values) + multiset{winners[key]}
  {
    ValuesAfterRemoval(winners, key);
    TakeOut(winners.Values, winners[key]);
  }

  /** One more version of a key: the newer one wins, the earlier one met wins a tie. */
  method ResolveRow(ghost seen: seq<ColdRow>, row: ColdRow, winners: map<KeyTuple, ColdRow>, retainFrom: int,
                    history: multiset<ColdRow>, floor: int, ghost gone: multiset<ColdRow>)
    returns (winners': map<KeyTuple, ColdRow>, history': multiset<ColdRow>, floor': int, ghost gone': multiset<ColdRow>)
    requires Winners(RowSet(seen), winners) && Accounted(multiset(seen), winners.Values, history, gone)
    requires Settled(history, gone, retainFrom, floor)
    ensures Winners(RowSet(seen + [row]), winners')
    ensures Accounted(multiset(seen + [row]), winners'.Values, history', gone')
    ensures Settled(history', gone', retainFrom, floor')
  {
    winners', history', floor', gone' := winners, history, floor, gone;
    WinnersStep(seen, winners, row);
    AccountForUpdate(winners, row);
    assert multiset(seen + [row]) == multiset(seen) + multiset{row};
    hide Winners, Settled, RowSet, Accounted;
    ghost var dropped := multiset{};
    if row.key in winners && winners[row.key].seqId >= row.seqId {
      history', floor', gone' := DropVersion(row, retainFrom, history, floor, gone);
      dropped := multiset{row};
    } else {
      if row.key in winners {
        history', floor', gone' := DropVersion(winners[row.key], retainFrom, history, floor, gone);
        dropped := multiset{winners[row.key]};
      }
      winners' := winners[row.key := row];
    }
    AccountStep(multiset(seen), winners.Values, history, gone, multiset{row}, dropped, winners'.Values, history',
                gone');
  }

  /** Keeps the newest version of every key of a unit. Every input row is accounted for exactly once:
      kept, kept as history, or gone with a sequence number not above the floor. */
  method ResolveVersions(rows: seq<ColdRow>, dropMarkers: bool, retainFrom: int)
    returns (kept: set<ColdRow>, history: multiset<ColdRow>, floor: int, ghost gone: multiset<ColdRow>)
    ensures IsRewrite(RowSet(rows), kept, dropMarkers)
    ensures Accounted(multiset(rows), kept, history, gone)
    ensures Settled(history, gone, retainFrom, floor)
  {
    var winners: map<KeyTuple, ColdRow> := map[];
    history, floor, gone := multiset{}, 0, multiset{};
    assert Winners(RowSet(rows[..0]), winners) && Accounted(multiset(rows[..0]), winners.Values, history, gone);
    assert Settled(history, gone, retainFrom, floor);
    hide *;
    for i := 0 to |rows|
      invariant Winners(RowSet(rows[..i]), winners) && Accounted(multiset(rows[..i]), winners.Values, history, gone)
      invariant Settled(history, gone, retainFrom, floor)
    {
      winners, history, floor, gone := ResolveRow(rows[..i], rows[i], winners, retainFrom, history, floor, gone);
      assert rows[..i + 1] == rows[..i] + [rows[i]];
    }
    assert rows[..|rows|] == rows;
    if dropMarkers {
      winners, history, floor, gone := DropMarkers(rows, winners, retainFrom, history, floor, gone);
    } else {
      WinnersRewrite(RowSet(rows), winners, winners, false);
    }
    kept := winners.Values;
  }

  /** Removes the winning delete markers, one key at a time. */
  method DropMarkers(ghost rows: seq<ColdRow>, winners: map<KeyTuple, ColdRow>, retainFrom: int,
                     history: multiset<ColdRow>, floor: int, ghost gone: multiset<ColdRow>)
    returns (live: map<KeyTuple, ColdRow>, history': multiset<ColdRow>, floor': int, ghost gone': multiset<ColdRow>)
    requires Winners(RowSet(rows), winners) && Accounted(multiset(rows), winners.Values, history, gone)
    requires Settled(history, gone, retainFrom, floor)
    ensures IsRewrite(RowSet(rows), live.Values, true) && Accounted(multiset(rows), live.Values, history', gone')
    ensures Settled(history', gone', retainFrom, floor')
  {
    var markers := set k | k in winners && winners[k].op.Delete?;
    live, history', floor', gone' := winners, history, floor, gone;
    assert forall k | k in winners :: winners[k].key == k;
    hide Winners, Settled, RowSet, Accounted;
    while markers != {}
      invariant markers <= live.Keys <= winners.Keys
      invariant forall k | k in live :: live[k] == winners[k]
      invariant forall k | k in winners :: k !in live || k in markers ==> winners[k].op.Delete?
      invariant forall k | k in live && winners[k].op.Delete? :: k in markers
      invariant Accounted(multiset(rows), live.Values, history', gone')
      invariant Settled(history', gone', retainFrom, floor')
      decreases |markers|
    {
      var k :| k in markers;
      AccountForRemoval(live, k);
      ghost var before := (live, history', gone');
      history', floor', gone' := DropVersion(live[k], retainFrom, history', floor', gone');
      live := live - {k};
      AccountStep(multiset(rows), before.0.Values, before.1, before.2, multiset{}, multiset{before.0[k]},
                  live.Values, history', gone');
      assert multiset(rows) + multiset{} == multiset(rows);
      markers := markers - {k};
    }
    WinnersRewrite(RowSet(rows), winners, live, true);
  }

  lemma {:induction false} WinnersRewrite(unit: set<ColdRow>, winners: map<KeyTuple, ColdRow>,
                                          live: map<KeyTuple, ColdRow>, dropMarkers: bool)
    requires Winners(unit, winners) && live.Keys <= winners.Keys
    requires forall k | k in live :: live[k] == winners[k]
    requires forall k | k in winners :: k in live <==> !(dropMarkers && winners[k].op.Delete?)
    ensures IsRewrite(unit, live.Values, dropMarkers)
  {
    forall u | u in unit ensures Represented(unit, live.Values, dropMarkers, u.key) {
      var w := winners[u.key];
      if dropMarkers && w.op.Delete? {
        assert !HasKey(live.Values, u.key);
      } else {
        assert live[u.key] == w;
      }
    }
  }
}
