/** The persisted records of the search engine (package main.data.model):
    sites, their pages, the lemmas of a site with their document frequency,
    and the index rows that tie a page to a lemma with a rank. */
module Entities {
  import opened Util

  datatype Status = Indexing | Indexed | Failed

  /** A configured site; `lastError` is Java's nullable string. */
  datatype Site = Site(id: int, url: string, name: string, status: Status, lastError: Option<string>)

  /** A stored page. A page object that has never been saved has id 0. */
  datatype Page = Page(id: int, siteId: int, path: string, answerCode: int, content: string)

  /** A lemma of one site (`text` is Java's `lemma` field); `frequency` counts the pages of the site that contain it. */
  datatype Lemma = Lemma(id: int, siteId: int, text: string, frequency: int)

  /** One index row: lemma `lemmaId` occurs on page `pageId` with weight `rank`. */
  datatype Index = Index(id: int, pageId: int, lemmaId: int, rank: real)

  /** A weighted region of a document (configuration, read only). */
  datatype Field = Field(id: int, name: string, selector: string, weight: real)

  /** What the lemmatization stage returns: page id to (lemma to rank on that page). */
  type LemmaBatch = map<int, map<Lemma, real>>

  function SiteKey(s: Site): int { s.id }
  function PageKey(p: Page): int { p.id }
  function LemmaKey(l: Lemma): int { l.id }
  function LemmaText(l: Lemma): string { l.text }
  function IndexKey(r: Index): int { r.id }

  /** A new entity as `save` leaves it: Hibernate sets the generated id in it. */
  function WithPageId(p: Page, id: int): Page { p.(id := id) }
  function WithLemmaId(l: Lemma, id: int): Lemma { l.(id := id) }
  function WithIndexId(r: Index, id: int): Index { r.(id := id) }

  /** `Lemma.decreaseFrequency`: the page being replaced no longer counts. */
  function DecreaseFrequency(l: Lemma): Lemma {
    l.(frequency := l.frequency - 1)
  }

  /** `new Page(path, siteId)`: the probe value the page search compares against. */
  function ProbePage(path: string, siteId: int): Page {
    Page(0, siteId, path, 0, "")
  }

  /** A Page object whose setters are called in place before it is saved.
      Java's initial null path and content are modelled as empty strings. */
  class PageEntity {
    var id: int
    var siteId: int
    var path: string
    var answerCode: int
    var content: string

    /** `new Page()`. */
    constructor ()
      ensures id == 0 && siteId == 0 && path == "" && answerCode == 0 && content == ""
    {
      id, siteId, path, answerCode, content := 0, 0, "", 0, "";
    }

    /** The row this object is saved as. */
    function Value(): Page
      reads this
    {
      Page(id, siteId, path, answerCode, content)
    }
  }
}
