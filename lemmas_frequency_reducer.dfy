/** LemmasFrequencyReducer: when a page is re-indexed, every lemma it carried
    loses one page of document frequency; lemmas still on some page are saved
    back, lemmas on no page any more are deleted by id. */
module LemmasFrequencyReducer {
  import opened Util
  import opened Entities
  import opened Store

  // ---------------------------------------------------------------------------
  // Iteration order of a HashMap
  // ---------------------------------------------------------------------------

  /** `ks` lists every key of `m` exactly once: an order in which
      `m.values()` may be iterated. Java fixes no particular order. */
  predicate IsIterationOrder<K(==), V>(m: map<K, V>, ks: seq<K>) {
    (forall i, j :: 0 <= i < j < |ks| ==> ks[i] != ks[j]) &&
    (forall k :: k in ks ==> k in m) && (forall k :: k in m ==> k in ks)
  }

  /** Some iteration order of `m` (which one is left open, as in Java). */
  method IterationOrder<K(==), V>(m: map<K, V>) returns (ks: seq<K>)
    ensures IsIterationOrder(m, ks)
  {
    var rest := m.Keys;
    ks := [];
    while rest != {}
      invariant forall i, j :: 0 <= i < j < |ks| ==> ks[i] != ks[j]
      invariant forall k :: k in ks ==> k in m && k !in rest
      invariant forall k :: k in m ==> k in ks || k in rest
      invariant rest <= m.Keys
      decreases rest
    {
      var k :| k in rest;
      ks := ks + [k];
      rest := rest - {k};
    }
  }

  // ---------------------------------------------------------------------------
  // What the two streams compute
  // ---------------------------------------------------------------------------

  /** The first stream's filter: the lemma is still on some page. */
  predicate StillUsed(l: Lemma) { l.frequency > 0 }

  /** `lemmasToUpdate`: the values in iteration order, each after
      `peek(Lemma::decreaseFrequency)`, that are still used. */
  function ToUpdate(m: map<string, Lemma>, ks: seq<string>): seq<Lemma>
    requires forall i :: 0 <= i < |ks| ==> ks[i] in m
  {
    if ks == [] then []
    else
      var l := DecreaseFrequency(m[ks[|ks| - 1]]);
      ToUpdate(m, ks[..|ks| - 1]) + (if StillUsed(l) then [l] else [])
  }

  /** `lemmasToDelete`: the ids of the decremented values that are no longer used. */
  function ToDelete(m: map<string, Lemma>, ks: seq<string>): seq<int>
    requires forall i :: 0 <= i < |ks| ==> ks[i] in m
  {
    if ks == [] then []
    else
      var l := DecreaseFrequency(m[ks[|ks| - 1]]);
      ToDelete(m, ks[..|ks| - 1]) + (if !StillUsed(l) then [l.id] else [])
  }

  /** One more key in the iteration order extends both lists at the end. */
  lemma SplitSnoc(m: map<string, Lemma>, ks: seq<string>, i: nat)
    requires i < |ks| && forall j :: 0 <= j < |ks| ==> ks[j] in m
    ensures ToUpdate(m, ks[..i + 1]) ==
      ToUpdate(m, ks[..i]) + (if StillUsed(DecreaseFrequency(m[ks[i]])) then [DecreaseFrequency(m[ks[i]])] else [])
    ensures ToDelete(m, ks[..i + 1]) ==
      ToDelete(m, ks[..i]) + (if !StillUsed(DecreaseFrequency(m[ks[i]])) then [m[ks[i]].id] else [])
  {
    assert ks[..i + 1][..i] == ks[..i];
  }

  /** The repository calls made for the two lists, each only when its list is non-empty. */
  function ReduceActions(toUpdate: seq<Lemma>, toDelete: seq<int>): seq<Action> {
    (if toUpdate != [] then [LemmasSaved(toUpdate)] else []) +
    (if toDelete != [] then [LemmasDeleted(toDelete)] else [])
  }

  /** The lemma table after those calls. */
  function ReducedTable(rows: seq<Lemma>, toUpdate: seq<Lemma>, toDelete: seq<int>): seq<Lemma> {
    var saved := if toUpdate != [] then SaveAll(rows, toUpdate, LemmaKey, WithLemmaId) else rows;
    if toDelete != [] then DeleteKeys(saved, IdSet(toDelete), LemmaKey) else saved
  }

  // ---------------------------------------------------------------------------
  // The operation
  // ---------------------------------------------------------------------------

  /** The first stream: `peek(Lemma::decreaseFrequency)` changes every value
      of the map once, in place (`dec` is the map afterwards), and the values
      still used are collected. */
  method DecrementAndCollect(m: map<string, Lemma>, ks: seq<string>) returns (dec: map<string, Lemma>, toUpdate: seq<Lemma>)
    requires forall j :: 0 <= j < |ks| ==> ks[j] in m
    requires forall k :: k in m ==> k in ks
    ensures forall k :: k in m ==> k in dec && dec[k] == DecreaseFrequency(m[k])
    ensures toUpdate == ToUpdate(m, ks)
  {
    dec := map[];
    toUpdate := [];
    for i := 0 to |ks|
      invariant forall k :: k in dec ==> k in m && dec[k] == DecreaseFrequency(m[k])
      invariant forall j :: 0 <= j < i ==> ks[j] in dec
      invariant toUpdate == ToUpdate(m, ks[..i])
    {
      var l := DecreaseFrequency(m[ks[i]]);
      dec := dec[ks[i] := l];
      SplitSnoc(m, ks, i);
      if l.frequency > 0 {
        toUpdate := toUpdate + [l];
      }
    }
    assert ks[..|ks|] == ks;
    forall k | k in m ensures k in dec && dec[k] == DecreaseFrequency(m[k]) {
      var j :| 0 <= j < |ks| && ks[j] == k;
    }
  }

  /** The second stream: it reads the values as the first one left them and
      does not decrement again. */
  method CollectExhausted(m: map<string, Lemma>, ks: seq<string>, dec: map<string, Lemma>) returns (toDelete: seq<int>)
    requires forall j :: 0 <= j < |ks| ==> ks[j] in m
    requires forall k :: k in m ==> k in dec && dec[k] == DecreaseFrequency(m[k])
    ensures toDelete == ToDelete(m, ks)
  {
    toDelete := [];
    for i := 0 to |ks|
      invariant toDelete == ToDelete(m, ks[..i])
    {
      var l := dec[ks[i]];
      SplitSnoc(m, ks, i);
      if l.frequency <= 0 {
        toDelete := toDelete + [l.id];
      }
    }
    assert ks[..|ks|] == ks;
  }

  /** The two streams over the same iteration order. */
  method SplitByFrequency(m: map<string, Lemma>, ks: seq<string>) returns (toUpdate: seq<Lemma>, toDelete: seq<int>)
    requires IsIterationOrder(m, ks)
    ensures toUpdate == ToUpdate(m, ks)
    ensures toDelete == ToDelete(m, ks)
  {
    var dec;
    dec, toUpdate := DecrementAndCollect(m, ks);
    toDelete := CollectExhausted(m, ks, dec);
  }

  /** The two repository calls: `saveAll` of the lemmas still used, then
      `deleteAllByIdInBatch` of the exhausted ids, each only when its list
      is non-empty. */
  method SaveAndDelete(db: Database, toUpdate: seq<Lemma>, toDelete: seq<int>)
    requires db.Valid()
    modifies db`lemmas, db`trace
    ensures db.Valid()
    ensures db.lemmas == ReducedTable(old(db.lemmas), toUpdate, toDelete)
    ensures db.trace == old(db.trace) + ReduceActions(toUpdate, toDelete)
  {
    ghost var rows, history := db.lemmas, db.trace;
    ghost var saved := if toUpdate != [] then SaveAll(rows, toUpdate, LemmaKey, WithLemmaId) else rows;
    if toUpdate != [] {
      var _ := db.SaveLemmas(toUpdate);
    }
    assert db.lemmas == saved;
    assert db.trace == history + (if toUpdate != [] then [LemmasSaved(toUpdate)] else []);
    if toDelete != [] {
      db.DeleteLemmasById(toDelete);
    }
  }

  /** `reduceLemmasFrequency(existingLemmas)`. */
  method ReduceLemmasFrequency(db: Database, existingLemmas: map<string, Lemma>) returns (ghost ks: seq<string>)
    requires db.Valid()
    modifies db`lemmas, db`trace
    ensures db.Valid()
    ensures IsIterationOrder(existingLemmas, ks)
    ensures db.lemmas == ReducedTable(old(db.lemmas), ToUpdate(existingLemmas, ks), ToDelete(existingLemmas, ks))
    ensures db.trace == old(db.trace) + ReduceActions(ToUpdate(existingLemmas, ks), ToDelete(existingLemmas, ks))
  {
    var order := IterationOrder(existingLemmas);
    ks := order;
    var toUpdate, toDelete := SplitByFrequency(existingLemmas, order);
    SaveAndDelete(db, toUpdate, toDelete);
  }

  // ---------------------------------------------------------------------------
  // Properties
  // ---------------------------------------------------------------------------

  /** Every saved lemma is a value of the map decremented once, and still used. */
  lemma {:induction false} UpdatedFromMap(m: map<string, Lemma>, ks: seq<string>, l: Lemma)
    requires forall j :: 0 <= j < |ks| ==> ks[j] in m
    requires l in ToUpdate(m, ks)
    ensures l.frequency > 0
    ensures exists k :: k in m && l == DecreaseFrequency(m[k])
  {
    var last := DecreaseFrequency(m[ks[|ks| - 1]]);
    if l != last || !StillUsed(last) {
      UpdatedFromMap(m, ks[..|ks| - 1], l);
    }
  }

  /** Every deleted id is the id of a value of the map that is no longer used
      once decremented. */
  lemma {:induction false} DeletedFromMap(m: map<string, Lemma>, ks: seq<string>, id: int)
    requires forall j :: 0 <= j < |ks| ==> ks[j] in m
    requires id in ToDelete(m, ks)
    ensures exists k :: k in m && m[k].id == id && m[k].frequency <= 1
  {
    var k := ks[|ks| - 1];
    if id != m[k].id || StillUsed(DecreaseFrequency(m[k])) {
      DeletedFromMap(m, ks[..|ks| - 1], id);
    }
  }

  /** A value goes to the save list exactly when its frequency was above one,
      i.e. decremented by one it is still positive. */
  lemma {:induction false} SavedIffStillUsed(m: map<string, Lemma>, ks: seq<string>, k: string)
    requires forall j :: 0 <= j < |ks| ==> ks[j] in m
    requires k in ks
    ensures DecreaseFrequency(m[k]) in ToUpdate(m, ks) <==> m[k].frequency > 1
  {
    if DecreaseFrequency(m[k]) in ToUpdate(m, ks) {
      UpdatedFromMap(m, ks, DecreaseFrequency(m[k]));
    }
    if m[k].frequency > 1 && k != ks[|ks| - 1] {
      var i :| 0 <= i < |ks| && ks[i] == k;
      assert ks[..|ks| - 1][i] == k;
      SavedIffStillUsed(m, ks[..|ks| - 1], k);
    }
  }

  /** An id goes to the delete list exactly when some value with that id had
      frequency at most one. */
  lemma {:induction false} DeletedIffExhausted(m: map<string, Lemma>, ks: seq<string>, id: int)
    requires IsIterationOrder(m, ks)
    ensures id in ToDelete(m, ks) <==> exists k :: k in m && m[k].id == id && m[k].frequency <= 1
  {
    if id in ToDelete(m, ks) {
      DeletedFromMap(m, ks, id);
    }
    if exists k :: k in m && m[k].id == id && m[k].frequency <= 1 {
      var k :| k in m && m[k].id == id && m[k].frequency <= 1;
      var i :| 0 <= i < |ks| && ks[i] == k;
      DeletedWhenExhausted(m, ks, i);
    }
  }

  lemma {:induction false} DeletedWhenExhausted(m: map<string, Lemma>, ks: seq<string>, i: nat)
    requires forall j :: 0 <= j < |ks| ==> ks[j] in m
    requires i < |ks| && m[ks[i]].frequency <= 1
    ensures m[ks[i]].id in ToDelete(m, ks)
  {
    if i < |ks| - 1 {
      assert ks[..|ks| - 1][i] == ks[i];
      DeletedWhenExhausted(m, ks[..|ks| - 1], i);
    }
  }

  /** Every value lands in exactly one of the two lists: together the lists
      are exactly as long as the map. */
  lemma SplitIsPartition(m: map<string, Lemma>, ks: seq<string>)
    requires IsIterationOrder(m, ks)
    ensures |ToUpdate(m, ks)| + |ToDelete(m, ks)| == |m|
  {
    SplitLength(m, ks);
    DistinctLength(m, ks);
  }

  lemma {:induction false} SplitLength(m: map<string, Lemma>, ks: seq<string>)
    requires forall j :: 0 <= j < |ks| ==> ks[j] in m
    ensures |ToUpdate(m, ks)| + |ToDelete(m, ks)| == |ks|
  {
    if ks != [] {
      SplitLength(m, ks[..|ks| - 1]);
    }
  }

  /** The keys listed in `ks`. */
  ghost function Listed<K>(ks: seq<K>): set<K> {
    set k | k in ks
  }

  /** A duplicate-free sequence lists as many keys as it is long. */
  lemma {:induction false} DistinctCard<K>(ks: seq<K>)
    requires forall i, j :: 0 <= i < j < |ks| ==> ks[i] != ks[j]
    ensures |Listed(ks)| == |ks|
    decreases |ks|
  {
    if ks != [] {
      var k := ks[|ks| - 1];
      var ks' := ks[..|ks| - 1];
      forall i, j | 0 <= i < j < |ks'| ensures ks'[i] != ks'[j] {
        assert ks'[i] == ks[i] && ks'[j] == ks[j];
      }
      DistinctCard(ks');
      assert k !in Listed(ks');
      assert ks == ks' + [k];
      assert Listed(ks) == Listed(ks') + {k};
    }
  }

  /** A duplicate-free listing of the keys is exactly as long as the map. */
  lemma DistinctLength<K, V>(m: map<K, V>, ks: seq<K>)
    requires IsIterationOrder(m, ks)
    ensures |ks| == |m|
  {
    DistinctCard(ks);
    assert m.Keys == Listed(ks);
  }

  /** The ids of the values of `m`. */
  ghost function ValueIds(m: map<string, Lemma>): set<int> {
    set k | k in m :: m[k].id
  }

  /** Rows whose id belongs to no value of the map are neither saved nor deleted. */
  lemma OthersUntouched(rows: seq<Lemma>, m: map<string, Lemma>, ks: seq<string>, y: Lemma)
    requires IsIterationOrder(m, ks)
    requires y in rows && y.id !in ValueIds(m)
    ensures y in ReducedTable(rows, ToUpdate(m, ks), ToDelete(m, ks))
  {
    var up := ToUpdate(m, ks);
    var del := ToDelete(m, ks);
    var stored := SavedRows(rows, up, LemmaKey, WithLemmaId);
    var saved := if up != [] then UpsertAll(rows, stored, LemmaKey) else rows;
    assert y.id !in Keys(stored, LemmaKey) by {
      if y.id in Keys(stored, LemmaKey) {
        var i :| 0 <= i < |stored| && LemmaKey(stored[i]) == y.id;
        assert SetsKey(LemmaKey, WithLemmaId);
        SavedRowsAssigned(rows, up, LemmaKey, WithLemmaId, i);
        if up[i].id != 0 {
          UpdatedFromMap(m, ks, up[i]);
        }
      }
    }
    assert y in saved;
    assert y.id !in IdSet(del) by {
      if y.id in del {
        DeletedFromMap(m, ks, y.id);
      }
    }
  }

  /** Every row afterwards is an old row or a decremented value of the map,
      with its own id unless it had none (id 0) and was given one. */
  lemma ReducedRowsOrigin(rows: seq<Lemma>, m: map<string, Lemma>, ks: seq<string>, y: Lemma)
    requires IsIterationOrder(m, ks)
    requires y in ReducedTable(rows, ToUpdate(m, ks), ToDelete(m, ks))
    ensures y in rows ||
      exists k :: k in m && y == DecreaseFrequency(m[k]).(id := y.id) && (y.id == m[k].id || m[k].id == 0)
  {
    var up := ToUpdate(m, ks);
    var stored := SavedRows(rows, up, LemmaKey, WithLemmaId);
    var saved := if up != [] then UpsertAll(rows, stored, LemmaKey) else rows;
    assert y in saved;
    if y !in rows {
      var i :| 0 <= i < |stored| && stored[i] == y;
      assert SetsKey(LemmaKey, WithLemmaId);
      SavedRowsAssigned(rows, up, LemmaKey, WithLemmaId, i);
      UpdatedFromMap(m, ks, up[i]);
      var k :| k in m && up[i] == DecreaseFrequency(m[k]);
      assert y == DecreaseFrequency(m[k]).(id := y.id);
    }
  }

  /** When every value drops out, nothing is saved; when every value stays,
      nothing is deleted. */
  lemma EmptyListsSkipCalls(toUpdate: seq<Lemma>, toDelete: seq<int>)
    ensures LemmasSaved(toUpdate) in ReduceActions(toUpdate, toDelete) <==> toUpdate != []
    ensures LemmasDeleted(toDelete) in ReduceActions(toUpdate, toDelete) <==> toDelete != []
    ensures |ReduceActions(toUpdate, toDelete)| <= 2
  {
  }
}
