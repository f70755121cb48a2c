/** IndexingPageClone: finds the stored page that the page being indexed
    denotes and copies its identity (id, path, site) into the page object. */
module IndexingPageClone {
  import opened Util
  import opened Entities

  /** The position of the first page that `compare` (`Page.compareTo`, whose
      code is not part of this model) declares equal to `searchPage`. */
  function FirstMatch(pages: seq<Page>, searchPage: Page, compare: (Page, Page) -> int): (r: Option<nat>)
    ensures r.Some? ==> r.value < |pages| && compare(pages[r.value], searchPage) == 0
    ensures r.Some? ==> forall j :: 0 <= j < r.value ==> compare(pages[j], searchPage) != 0
    ensures r.None? <==> forall j :: 0 <= j < |pages| ==> compare(pages[j], searchPage) != 0
  {
    if pages == [] then None
    else if compare(pages[0], searchPage) == 0 then Some(0)
    else match FirstMatch(pages[1..], searchPage, compare)
      case None => None
      case Some(k) => Some(k + 1)
  }

  /** `partiallyCloneTargetIndexingPage(targetPage, searchPage)`, where
      `pages` is what `pageRepository.findAll()` returns. */
  method PartiallyCloneTargetIndexingPage(targetPage: PageEntity, searchPage: Page, pages: seq<Page>,
                                          compare: (Page, Page) -> int)
    modifies targetPage`id, targetPage`path, targetPage`siteId
    ensures var m := FirstMatch(pages, searchPage, compare);
      if m.Some? then
        targetPage.id == pages[m.value].id && targetPage.path == pages[m.value].path &&
        targetPage.siteId == pages[m.value].siteId
      else
        targetPage.id == old(targetPage.id) && targetPage.path == old(targetPage.path) &&
        targetPage.siteId == old(targetPage.siteId)
    ensures targetPage.answerCode == old(targetPage.answerCode) && targetPage.content == old(targetPage.content)
  {
    for i := 0 to |pages|
      invariant forall j :: 0 <= j < i ==> compare(pages[j], searchPage) != 0
      invariant targetPage.id == old(targetPage.id) && targetPage.path == old(targetPage.path)
      invariant targetPage.siteId == old(targetPage.siteId)
    {
      if compare(pages[i], searchPage) == 0 {
        assert FirstMatch(pages, searchPage, compare) == Some(i);
        targetPage.id := pages[i].id;
        targetPage.path := pages[i].path;
        targetPage.siteId := pages[i].siteId;
        break;
      }
    }
  }

  /** A match found is the first one: every later match is ignored. */
  lemma FirstMatchIsFirst(pages: seq<Page>, searchPage: Page, compare: (Page, Page) -> int, i: nat, j: nat)
    requires i < j < |pages| && compare(pages[i], searchPage) == 0 && compare(pages[j], searchPage) == 0
    ensures FirstMatch(pages, searchPage, compare).Some?
    ensures FirstMatch(pages, searchPage, compare).value <= i < j
  {
  }
}
