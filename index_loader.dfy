/** IndexLoader: the index rows of a page keyed by lemma, and the rows of a
    list that belong to a set of search lemmas. */
module IndexLoader {
  import opened Util
  import opened Entities

  /** `indexRepository.findByPageId`. */
  function FindByPageId(indexes: seq<Index>, pageId: int): seq<Index> {
    Filter(indexes, (r: Index) => r.pageId == pageId)
  }

  /** `loadIndexFromDB`: `put(index.getLemmaId(), index)` for every row of the
      page, so on a repeated lemma id the row met last stays. */
  method LoadIndexFromDB(indexes: seq<Index>, pageId: int) returns (existingIndexes: map<int, Index>)
    ensures forall k :: k in existingIndexes ==>
      existingIndexes[k].lemmaId == k && existingIndexes[k].pageId == pageId && existingIndexes[k] in indexes
    ensures forall r :: r in indexes && r.pageId == pageId ==> r.lemmaId in existingIndexes
    ensures forall k :: k in existingIndexes ==> LastWithLemma(FindByPageId(indexes, pageId), k, existingIndexes[k])
  {
    var rows := FindByPageId(indexes, pageId);
    existingIndexes := map[];
    for i := 0 to |rows|
      invariant forall k :: k in existingIndexes ==> LastWithLemma(rows[..i], k, existingIndexes[k])
      invariant forall p :: 0 <= p < i ==> rows[p].lemmaId in existingIndexes
    {
      var index := rows[i];
      forall k | k in existingIndexes && k != index.lemmaId
        ensures LastWithLemma(rows[..i + 1], k, existingIndexes[k])
      {
        LastWithLemmaSnoc(rows, i, k, existingIndexes[k]);
      }
      LastWithLemmaTop(rows, i);
      existingIndexes := existingIndexes[index.lemmaId := index];
    }
    assert rows[..|rows|] == rows;
    forall k | k in existingIndexes
      ensures existingIndexes[k].lemmaId == k && existingIndexes[k].pageId == pageId && existingIndexes[k] in indexes
    {
      LastWithLemmaIn(rows, k, existingIndexes[k]);
    }
    forall r | r in indexes && r.pageId == pageId ensures r.lemmaId in existingIndexes {
      var p :| 0 <= p < |rows| && rows[p] == r;
    }
  }

  /** A row with another lemma id after the last one with `k` keeps it the last. */
  lemma LastWithLemmaSnoc(rows: seq<Index>, i: nat, k: int, r: Index)
    requires i < |rows| && rows[i].lemmaId != k && LastWithLemma(rows[..i], k, r)
    ensures LastWithLemma(rows[..i + 1], k, r)
  {
    var p :| 0 <= p < i && rows[..i][p] == r && rows[..i][p].lemmaId == k &&
      forall q :: p < q < i ==> rows[..i][q].lemmaId != k;
    assert rows[..i + 1][p] == rows[..i][p];
    assert rows[..i + 1][i] == rows[i];
  }

  /** The row just met is the last with its lemma id. */
  lemma LastWithLemmaTop(rows: seq<Index>, i: nat)
    requires i < |rows|
    ensures LastWithLemma(rows[..i + 1], rows[i].lemmaId, rows[i])
  {
    assert rows[..i + 1][i] == rows[i];
  }

  /** The last row with `k` is a row with `k`. */
  lemma LastWithLemmaIn(rows: seq<Index>, k: int, r: Index)
    requires LastWithLemma(rows, k, r)
    ensures r in rows && r.lemmaId == k
  {
  }

  /** `r` is the last row of `rows` whose lemma id is `k`. */
  predicate LastWithLemma(rows: seq<Index>, k: int, r: Index) {
    exists p :: 0 <= p < |rows| && rows[p] == r && rows[p].lemmaId == k &&
      forall q :: p < q < |rows| ==> rows[q].lemmaId != k
  }

  /** Of two rows of a page with the same lemma id, the earlier one is never kept. */
  lemma LastOneWins(rows: seq<Index>, k: int, p: nat, q: nat)
    requires p < q < |rows| && rows[p].lemmaId == k && rows[q].lemmaId == k && rows[p] != rows[q]
    ensures !LastWithLemma(rows[..q + 1], k, rows[p])
    ensures LastWithLemma(rows[..q + 1], k, rows[q])
  {
    var pre := rows[..q + 1];
    assert pre[q] == rows[q];
  }

  // ---------------------------------------------------------------------------
  // loadIndexFromListByLemmas
  // ---------------------------------------------------------------------------

  /** The ids of the search lemmas (`searchLemmasId`). */
  ghost function LemmaIds(lemmas: seq<Lemma>): set<int> {
    set l | l in lemmas :: l.id
  }

  /** The rows of `indexList` whose lemma id is in `ids`, in list order. */
  function SelectByLemmaIds(indexList: seq<Index>, ids: set<int>): seq<Index> {
    Filter(indexList, (r: Index) => r.lemmaId in ids)
  }

  /** `loadIndexFromListByLemmas`. */
  method LoadIndexFromListByLemmas(indexList: seq<Index>, searchLemmas: seq<Lemma>) returns (existingIndexes: seq<Index>)
    ensures existingIndexes == SelectByLemmaIds(indexList, LemmaIds(searchLemmas))
  {
    var searchLemmasId: set<int> := {};
    for i := 0 to |searchLemmas|
      invariant searchLemmasId == LemmaIds(searchLemmas[..i])
    {
      assert searchLemmas[..i + 1] == searchLemmas[..i] + [searchLemmas[i]];
      searchLemmasId := searchLemmasId + {searchLemmas[i].id};
    }
    assert searchLemmas[..|searchLemmas|] == searchLemmas;

    existingIndexes := [];
    for i := 0 to |indexList|
      invariant existingIndexes == SelectByLemmaIds(indexList[..i], searchLemmasId)
    {
      var indexFromDB := indexList[i];
      assert indexList[..i + 1] == indexList[..i] + [indexFromDB];
      FilterSnoc(indexList[..i], indexFromDB, (r: Index) => r.lemmaId in searchLemmasId);
      if indexFromDB.lemmaId in searchLemmasId {
        existingIndexes := existingIndexes + [indexFromDB];
      }
    }
    assert indexList[..|indexList|] == indexList;
  }

  /** A row is selected exactly when it is in the list and some search lemma has its lemma id. */
  lemma SelectedIff(indexList: seq<Index>, searchLemmas: seq<Lemma>, r: Index)
    ensures r in SelectByLemmaIds(indexList, LemmaIds(searchLemmas)) <==>
      r in indexList && exists l :: l in searchLemmas && l.id == r.lemmaId
  {
  }

  /** The selection keeps the list order and duplicates. */
  lemma SelectedIsSubsequence(indexList: seq<Index>, ids: set<int>)
    ensures IsSubsequence(SelectByLemmaIds(indexList, ids), indexList)
  {
    FilterIsSubsequence(indexList, (r: Index) => r.lemmaId in ids);
  }

  /** No search lemmas, no rows. */
  lemma {:induction false} NoSearchLemmasNoRows(indexList: seq<Index>)
    ensures SelectByLemmaIds(indexList, LemmaIds([])) == []
  {
    if indexList != [] {
      NoSearchLemmasNoRows(indexList[1..]);
    }
  }
}
