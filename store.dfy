/** The database behind the Spring Data repositories, as far as the indexing
    core uses it. A table is the sequence of its rows in storage order; a
    derived query returns the matching rows in that order. Writes follow
    `CrudRepository`: `save`/`saveAll` replace the row with the same id or
    append the row, `delete*` remove rows by id. Every write and every call
    into the site condition manager is also appended to `trace`, the
    observable history of the pipeline. Ids are generated: an entity saved
    with id 0 is new and takes an id above every stored one. */
module Store {
  import opened Util
  import opened Entities

  /** The calls of SiteConditionsChanger made by the orchestrator
      (`cloneSiteConditionPageIndexing`, `changeSiteConditions*`). */
  datatype Condition =
    | PageIndexing
    | EmptyPages | EmptyLemmas | EmptyLemmasOnPage
    | SuccessIndexed | EmptyIndex | EmptyIndexOnPage

  datatype Action =
    | PagesSaved(pages: seq<Page>)
    | PageSaved(page: Page)
    | LemmasSaved(lemmas: seq<Lemma>)
    | LemmasDeleted(ids: seq<int>)
    | IndexesSaved(rows: seq<Index>)
    | IndexesDeleted(removed: set<Index>)
    | ConditionChanged(siteId: int, condition: Condition)

  /** `save` of one row: the stored row with the same id is replaced in place,
      a row with a new id is appended. */
  function Upsert<T>(rows: seq<T>, x: T, key: T -> int): (r: seq<T>)
    ensures x in r
    ensures forall y :: y in r ==> y == x || y in rows
    ensures forall y :: y in rows && key(y) != key(x) ==> y in r
    ensures forall y :: y in r ==> key(y) == key(x) || y in rows
  {
    if rows == [] then [x]
    else if key(rows[0]) == key(x) then [x] + rows[1..]
    else [rows[0]] + Upsert(rows[1..], x, key)
  }

  /** The set of ids of a sequence of rows. */
  ghost function Keys<T>(xs: seq<T>, key: T -> int): set<int> {
    set x | x in xs :: key(x)
  }

  /** `saveAll`: the rows are saved one after the other. */
  function UpsertAll<T>(rows: seq<T>, xs: seq<T>, key: T -> int): (r: seq<T>)
    ensures forall y :: y in r ==> y in rows || y in xs
    ensures forall y :: y in rows && key(y) !in Keys(xs, key) ==> y in r
    decreases |xs|
  {
    if xs == [] then rows
    else
      var r := UpsertAll(Upsert(rows, xs[0], key), xs[1..], key);
      assert forall y :: y in rows && key(y) !in Keys(xs, key) ==>
        key(y) !in Keys(xs[1..], key) && y in Upsert(rows, xs[0], key);
      r
  }

  /** The id the database generates for a new row: one above every stored id. */
  function NextKey<T>(rows: seq<T>, key: T -> int): (n: int)
    ensures n > 0
    ensures forall y :: y in rows ==> key(y) < n
  {
    if rows == [] then 1
    else
      var rest := NextKey(rows[1..], key);
      if key(rows[0]) < rest then rest else key(rows[0]) + 1
  }

  /** `withKey(x, n)` is `x` with the id `n`. */
  ghost predicate SetsKey<T(!new)>(key: T -> int, withKey: (T, int) -> T) {
    forall x, n :: key(withKey(x, n)) == n
  }

  /** The entity as `save` leaves it: a new one (id 0) takes the generated
      id, any other keeps its own. */
  function Assigned<T(!new)>(rows: seq<T>, x: T, key: T -> int, withKey: (T, int) -> T): (r: T)
    ensures key(x) != 0 ==> r == x
    ensures key(x) == 0 && SetsKey(key, withKey) ==>
      r == withKey(x, key(r)) && key(r) > 0 && forall y :: y in rows ==> key(y) < key(r)
  {
    if key(x) == 0 then withKey(x, NextKey(rows, key)) else x
  }

  /** The entities as `saveAll` leaves them: each is saved in turn, so a
      new one takes the id generated against the rows saved before it. */
  function SavedRows<T(!new)>(rows: seq<T>, xs: seq<T>, key: T -> int, withKey: (T, int) -> T): (r: seq<T>)
    ensures |r| == |xs|
    decreases |xs|
  {
    if xs == [] then []
    else
      var a := Assigned(rows, xs[0], key, withKey);
      [a] + SavedRows(Upsert(rows, a, key), xs[1..], key, withKey)
  }

  /** `saveAll`: the table after each entity, as saved, has replaced the row
      with its id or been appended. */
  function SaveAll<T(!new)>(rows: seq<T>, xs: seq<T>, key: T -> int, withKey: (T, int) -> T): seq<T> {
    UpsertAll(rows, SavedRows(rows, xs, key, withKey), key)
  }

  /** Every entity `saveAll` stores is the one passed in or, for a new one,
      the same entity with an id that no row had before the call. */
  lemma {:induction false} SavedRowsAssigned<T(!new)>(rows: seq<T>, xs: seq<T>, key: T -> int,
                                                withKey: (T, int) -> T, i: nat)
    requires SetsKey(key, withKey) && i < |xs|
    ensures var s := SavedRows(rows, xs, key, withKey)[i];
      (key(xs[i]) != 0 ==> s == xs[i]) &&
      (key(xs[i]) == 0 ==> s == withKey(xs[i], key(s)) && forall y :: y in rows ==> key(y) < key(s))
    decreases i
  {
    if i > 0 {
      var a := Assigned(rows, xs[0], key, withKey);
      var next := Upsert(rows, a, key);
      var s := SavedRows(rows, xs, key, withKey)[i];
      SavedRowsAssigned(next, xs[1..], key, withKey, i - 1);
      assert s == SavedRows(next, xs[1..], key, withKey)[i - 1];
      assert xs[1..][i - 1] == xs[i];
      if key(xs[i]) == 0 {
        forall y | y in rows ensures key(y) < key(s) {
          if key(y) != key(a) {
            assert y in next;
          } else {
            assert a in next;
          }
        }
      }
    }
  }

  /** Saving only entities that are not new is an upsert of them as they are. */
  lemma {:induction false} SaveAllOfStored<T(!new)>(rows: seq<T>, xs: seq<T>, key: T -> int, withKey: (T, int) -> T)
    requires forall x :: x in xs ==> key(x) != 0
    ensures SavedRows(rows, xs, key, withKey) == xs
    ensures SaveAll(rows, xs, key, withKey) == UpsertAll(rows, xs, key)
    decreases |xs|
  {
    if xs != [] {
      assert Assigned(rows, xs[0], key, withKey) == xs[0];
      SaveAllOfStored(Upsert(rows, xs[0], key), xs[1..], key, withKey);
      assert xs == [xs[0]] + xs[1..];
    }
  }

  /** `deleteAllByIdInBatch` / `deleteAll`: the rows whose id is in `ids` go. */
  function DeleteKeys<T>(rows: seq<T>, ids: set<int>, key: T -> int): (r: seq<T>)
    ensures forall y :: y in r ==> y in rows && key(y) !in ids
    ensures forall y :: y in rows && key(y) !in ids ==> y in r
  {
    if rows == [] then []
    else (if key(rows[0]) in ids then [] else [rows[0]]) + DeleteKeys(rows[1..], ids, key)
  }

  /** The ids listed in `ids`, as the set `deleteAllByIdInBatch` removes. */
  function IdSet(ids: seq<int>): set<int> {
    set id | id in ids
  }

  /** The tail of a sequence with unique keys has unique keys, none of them the head's. */
  lemma UniqueKeysTail<T>(rows: seq<T>, key: T -> int)
    requires rows != [] && UniqueKeys(rows, key)
    ensures UniqueKeys(rows[1..], key)
    ensures forall y :: y in rows[1..] ==> key(y) != key(rows[0])
  {
    forall i, j | 0 <= i < j < |rows[1..]| ensures key(rows[1..][i]) != key(rows[1..][j]) {
      assert rows[1..][i] == rows[i + 1] && rows[1..][j] == rows[j + 1];
    }
    forall y | y in rows[1..] ensures key(y) != key(rows[0]) {
      var k :| 0 <= k < |rows[1..]| && rows[1..][k] == y;
      assert rows[k + 1] == y;
    }
  }

  /** A head whose key is not among the unique keys of the tail keeps them unique. */
  lemma UniqueKeysCons<T>(h: T, t: seq<T>, key: T -> int)
    requires UniqueKeys(t, key)
    requires forall y :: y in t ==> key(y) != key(h)
    ensures UniqueKeys([h] + t, key)
  {
    var r := [h] + t;
    forall i, j | 0 <= i < j < |r| ensures key(r[i]) != key(r[j]) {
      assert r[j] == t[j - 1];
      if i > 0 {
        assert r[i] == t[i - 1];
      } else {
        assert r[j] in t;
      }
    }
  }

  lemma {:induction false} UpsertKeepsKeysUnique<T>(rows: seq<T>, x: T, key: T -> int)
    requires UniqueKeys(rows, key)
    ensures UniqueKeys(Upsert(rows, x, key), key)
  {
    if rows != [] {
      UniqueKeysTail(rows, key);
      if key(rows[0]) == key(x) {
        UniqueKeysCons(x, rows[1..], key);
      } else {
        var u := Upsert(rows[1..], x, key);
        UpsertKeepsKeysUnique(rows[1..], x, key);
        UniqueKeysCons(rows[0], u, key);
      }
    }
  }

  lemma {:induction false} UpsertAllKeepsKeysUnique<T>(rows: seq<T>, xs: seq<T>, key: T -> int)
    requires UniqueKeys(rows, key)
    ensures UniqueKeys(UpsertAll(rows, xs, key), key)
    decreases |xs|
  {
    if xs != [] {
      UpsertKeepsKeysUnique(rows, xs[0], key);
      UpsertAllKeepsKeysUnique(Upsert(rows, xs[0], key), xs[1..], key);
    }
  }

  lemma {:induction false} DeleteKeysKeepsKeysUnique<T>(rows: seq<T>, ids: set<int>, key: T -> int)
    requires UniqueKeys(rows, key)
    ensures UniqueKeys(DeleteKeys(rows, ids, key), key)
  {
    if rows != [] {
      DeleteKeysKeepsKeysUnique(rows[1..], ids, key);
      var r := DeleteKeys(rows, ids, key);
      if key(rows[0]) !in ids {
        assert r == [rows[0]] + DeleteKeys(rows[1..], ids, key);
        forall j | 0 < j < |r| ensures key(r[0]) != key(r[j]) {
          assert r[j] in rows[1..];
        }
      }
    }
  }

  class Database {
    var sites: seq<Site>
    var pages: seq<Page>
    var lemmas: seq<Lemma>
    var indexes: seq<Index>
    var fields: seq<Field>
    var trace: seq<Action>

    ghost predicate Valid()
      reads this
    {
      UniqueKeys(sites, SiteKey) && UniqueKeys(pages, PageKey) &&
      UniqueKeys(lemmas, LemmaKey) && UniqueKeys(indexes, IndexKey)
    }

    constructor (sites: seq<Site>, pages: seq<Page>, lemmas: seq<Lemma>, indexes: seq<Index>, fields: seq<Field>)
      requires UniqueKeys(sites, SiteKey) && UniqueKeys(pages, PageKey)
      requires UniqueKeys(lemmas, LemmaKey) && UniqueKeys(indexes, IndexKey)
      ensures Valid()
      ensures this.sites == sites && this.pages == pages && this.lemmas == lemmas
      ensures this.indexes == indexes && this.fields == fields && trace == []
    {
      this.sites, this.pages, this.lemmas := sites, pages, lemmas;
      this.indexes, this.fields, trace := indexes, fields, [];
    }

    /** `pageRepository.saveAll`; `saved` are the page objects afterwards,
        the new ones holding their generated ids. */
    method SavePages(ps: seq<Page>) returns (saved: seq<Page>)
      requires Valid()
      modifies this`pages, this`trace
      ensures Valid()
      ensures saved == SavedRows(old(pages), ps, PageKey, WithPageId)
      ensures pages == SaveAll(old(pages), ps, PageKey, WithPageId)
      ensures trace == old(trace) + [PagesSaved(ps)]
    {
      saved := SavedRows(pages, ps, PageKey, WithPageId);
      UpsertAllKeepsKeysUnique(pages, saved, PageKey);
      pages := UpsertAll(pages, saved, PageKey);
      trace := trace + [PagesSaved(ps)];
    }

    /** `pageRepository.save`; `saved` is the page object afterwards. */
    method SavePage(p: Page) returns (saved: Page)
      requires Valid()
      modifies this`pages, this`trace
      ensures Valid()
      ensures saved == Assigned(old(pages), p, PageKey, WithPageId)
      ensures pages == Upsert(old(pages), saved, PageKey)
      ensures trace == old(trace) + [PageSaved(p)]
    {
      saved := Assigned(pages, p, PageKey, WithPageId);
      UpsertKeepsKeysUnique(pages, saved, PageKey);
      pages := Upsert(pages, saved, PageKey);
      trace := trace + [PageSaved(p)];
    }

    /** `lemmaRepository.saveAll`; `saved` are the lemma objects afterwards. */
    method SaveLemmas(ls: seq<Lemma>) returns (saved: seq<Lemma>)
      requires Valid()
      modifies this`lemmas, this`trace
      ensures Valid()
      ensures saved == SavedRows(old(lemmas), ls, LemmaKey, WithLemmaId)
      ensures lemmas == SaveAll(old(lemmas), ls, LemmaKey, WithLemmaId)
      ensures trace == old(trace) + [LemmasSaved(ls)]
    {
      saved := SavedRows(lemmas, ls, LemmaKey, WithLemmaId);
      UpsertAllKeepsKeysUnique(lemmas, saved, LemmaKey);
      lemmas := UpsertAll(lemmas, saved, LemmaKey);
      trace := trace + [LemmasSaved(ls)];
    }

    /** `lemmaRepository.deleteAllByIdInBatch`. */
    method DeleteLemmasById(ids: seq<int>)
      requires Valid()
      modifies this`lemmas, this`trace
      ensures Valid()
      ensures lemmas == DeleteKeys(old(lemmas), IdSet(ids), LemmaKey)
      ensures trace == old(trace) + [LemmasDeleted(ids)]
    {
      DeleteKeysKeepsKeysUnique(lemmas, IdSet(ids), LemmaKey);
      lemmas := DeleteKeys(lemmas, IdSet(ids), LemmaKey);
      trace := trace + [LemmasDeleted(ids)];
    }

    /** `indexRepository.saveAll`. */
    method SaveIndexes(rows: seq<Index>)
      requires Valid()
      modifies this`indexes, this`trace
      ensures Valid()
      ensures indexes == SaveAll(old(indexes), rows, IndexKey, WithIndexId)
      ensures trace == old(trace) + [IndexesSaved(rows)]
    {
      UpsertAllKeepsKeysUnique(indexes, SavedRows(indexes, rows, IndexKey, WithIndexId), IndexKey);
      indexes := SaveAll(indexes, rows, IndexKey, WithIndexId);
      trace := trace + [IndexesSaved(rows)];
    }

    /** `indexRepository.deleteAll(entities)`: deletion by the entities' ids. */
    method DeleteIndexes(removed: set<Index>)
      requires Valid()
      modifies this`indexes, this`trace
      ensures Valid()
      ensures indexes == DeleteKeys(old(indexes), set r | r in removed :: r.id, IndexKey)
      ensures trace == old(trace) + [IndexesDeleted(removed)]
    {
      DeleteKeysKeepsKeysUnique(indexes, set r | r in removed :: r.id, IndexKey);
      indexes := DeleteKeys(indexes, set r | r in removed :: r.id, IndexKey);
      trace := trace + [IndexesDeleted(removed)];
    }

    /** A call into SiteConditionsChanger; its effect on the site row is not modelled. */
    method ChangeCondition(siteId: int, condition: Condition)
      modifies this`trace
      ensures trace == old(trace) + [ConditionChanged(siteId, condition)]
    {
      trace := trace + [ConditionChanged(siteId, condition)];
    }
  }
}
