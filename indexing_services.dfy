/** IndexingServices: the orchestration of one indexing run, for a whole
    site (crawl, save the pages, lemmatize, save lemmas and index rows) and
    for a single page (find the stored page, undo its old index, fetch it
    again, lemmatize it). The crawler, the lemmatizer, the loaders of the
    lemma results, the indexer, the page comparison and the HTTP connector
    are code this model does not contain; they are the `Stages` parameter. */
module IndexingServices {
  import opened Util
  import opened Entities
  import opened Store
  import opened LemmasLoader
  import opened LemmasFrequencyReducer
  import opened IndexLoader
  import opened IndexingPageClone

  /** What a `SiteConnector` delivers: the response status code and the document text. */
  datatype Connection = Connection(statusCode: int, document: string)

  /** The collaborators of the orchestrator, each reduced to what it returns.
      A map of lemmas that is only passed on and saved is represented by its
      values in iteration order. */
  datatype Stages = Stages(
    /** `SiteCrawler`: the crawled pages of a site, in path order. */
    crawl: string -> seq<Page>,
    /** `ResultPageLoader.getCorrectlyResponsivePages`. */
    responsivePages: seq<Page> -> seq<Page>,
    /** `ResultPageLoader.getCorrectlyResponsivePage`. */
    responsivePage: Page -> Page,
    /** `Lemmatizer(pages, fields, siteId)`: lemma ranks per page id. */
    lemmatize: (seq<Page>, seq<Field>, int) -> LemmaBatch,
    /** `ResultLemmaLoader.getLemmaResultToDB`. */
    lemmaResultToDB: LemmaBatch -> seq<Lemma>,
    /** `ResultLemmasNormalizer.getLemmaNormalizedResult`, merging with the site's stored lemmas. */
    normalize: (seq<Lemma>, map<string, Lemma>) -> seq<Lemma>,
    /** `Indexer.getIndexes`. */
    indexer: (LemmaBatch, seq<Lemma>) -> seq<Index>,
    /** `SiteConditionsChanger.cloneSiteConditionPageIndexing`: the site a page URL belongs to. */
    cloneSite: string -> Site,
    /** `SiteConnector(userAgent, url)`. */
    connect: string -> Connection,
    /** `Page.compareTo`. */
    compare: (Page, Page) -> int)

  // ---------------------------------------------------------------------------
  // Site lookups
  // ---------------------------------------------------------------------------

  /** `siteRepository.findById`. */
  function FindById(sites: seq<Site>, id: int): (r: Option<Site>)
    ensures r.Some? ==> r.value in sites && r.value.id == id
    ensures r.None? <==> forall s :: s in sites ==> s.id != id
  {
    if sites == [] then None
    else if sites[0].id == id then Some(sites[0])
    else FindById(sites[1..], id)
  }

  /** `checkSiteFailed`: a site that is gone counts as failed. */
  predicate CheckSiteFailed(sites: seq<Site>, siteId: int) {
    match FindById(sites, siteId)
    case None => true
    case Some(s) => s.status == Failed
  }

  /** The guard of the three `handle*` methods: the site exists and has no
      error recorded yet, so the first cause of an empty run is kept. */
  predicate NoErrorYet(sites: seq<Site>, siteId: int) {
    match FindById(sites, siteId)
    case None => false
    case Some(s) => s.lastError.None?
  }

  /** With unique site ids, the site found is the one with that id. */
  lemma FoundIsTheSite(sites: seq<Site>, id: int, s: Site)
    requires UniqueKeys(sites, SiteKey)
    requires s in sites && s.id == id
    ensures FindById(sites, id) == Some(s)
  {
    var f := FindById(sites, id);
    assert SiteKey(f.value) == SiteKey(s);
  }

  /** A site is taken as failed exactly when no row has its id or its row is FAILED. */
  lemma CheckSiteFailedIff(sites: seq<Site>, id: int)
    requires UniqueKeys(sites, SiteKey)
    ensures CheckSiteFailed(sites, id) <==>
      (forall s :: s in sites ==> s.id != id) || exists s :: s in sites && s.id == id && s.status == Failed
  {
    if exists s :: s in sites && s.id == id && s.status == Failed {
      var s :| s in sites && s.id == id && s.status == Failed;
      FoundIsTheSite(sites, id, s);
    }
  }

  /** A condition is recorded exactly when the site's row exists and carries no error. */
  lemma NoErrorYetIff(sites: seq<Site>, id: int)
    requires UniqueKeys(sites, SiteKey)
    ensures NoErrorYet(sites, id) <==> exists s :: s in sites && s.id == id && s.lastError.None?
  {
    if exists s :: s in sites && s.id == id && s.lastError.None? {
      var s :| s in sites && s.id == id && s.lastError.None?;
      FoundIsTheSite(sites, id, s);
    }
  }

  /** A site without a row is both failed and left without a condition. */
  lemma MissingSiteIsSkipped(sites: seq<Site>, id: int)
    requires forall s :: s in sites ==> s.id != id
    ensures CheckSiteFailed(sites, id) && !NoErrorYet(sites, id)
  {
  }

  // ---------------------------------------------------------------------------
  // Target path
  // ---------------------------------------------------------------------------

  /** The path of a page URL within its site: "/" for the site URL itself,
      otherwise the URL with every occurrence of the site URL removed. */
  function TargetPath(url: string, siteUrl: string): (r: string)
    ensures url == siteUrl ==> r == "/"
    ensures url != siteUrl ==> |r| <= |url|
  {
    if siteUrl == url then "/" else RemoveAll(url, siteUrl)
  }

  /** For a URL made of the site URL and a rest in which the site URL does not
      recur, the target path is that rest. */
  lemma TargetPathOfSubpage(siteUrl: string, rest: string)
    requires siteUrl != [] && rest != [] && !Contains(rest, siteUrl)
    ensures TargetPath(siteUrl + rest, siteUrl) == rest
  {
    assert |siteUrl + rest| > |siteUrl|;
    RemoveAllLeading(siteUrl, rest);
    RemoveAllAbsent(rest, siteUrl);
  }

  // ---------------------------------------------------------------------------
  // The writes of one run, as a trace
  // ---------------------------------------------------------------------------

  /** What a `handle*` method records. */
  function EmptyCondition(sites: seq<Site>, siteId: int, condition: Condition): seq<Action> {
    if NoErrorYet(sites, siteId) then [ConditionChanged(siteId, condition)] else []
  }

  /** The lemmas are saved; then the index rows and success, or the empty-index condition. */
  function Persisted(siteId: int, lemmas: seq<Lemma>, indexes: seq<Index>, emptyIndex: Condition): seq<Action> {
    [LemmasSaved(lemmas)] +
    (if indexes != [] then [IndexesSaved(indexes), ConditionChanged(siteId, SuccessIndexed)]
     else [ConditionChanged(siteId, emptyIndex)])
  }

  /** No lemmas are stored when the lemmatizer found none or the site failed meanwhile. */
  predicate LemmasSkipped(sites: seq<Site>, siteId: int, batch: LemmaBatch) {
    |batch| == 0 || CheckSiteFailed(sites, siteId)
  }

  /** The writes after lemmatization. */
  function LemmaStage(sites: seq<Site>, siteId: int, batch: LemmaBatch, lemmas: seq<Lemma>,
                      indexes: seq<Index>, emptyLemmas: Condition, emptyIndex: Condition): seq<Action> {
    if LemmasSkipped(sites, siteId, batch) then EmptyCondition(sites, siteId, emptyLemmas)
    else Persisted(siteId, lemmas, indexes, emptyIndex)
  }

  /** The index table after the index rows are saved, which happens only when there are some. */
  function SavedIndexes(rows: seq<Index>, indexes: seq<Index>): seq<Index> {
    if indexes != [] then SaveAll(rows, indexes, IndexKey, WithIndexId) else rows
  }

  /** `indexer.getIndexes(lemmasResult, lemmas)`: it runs after `saveAll`
      has given the new lemma objects their ids, so it sees the lemmas as
      saved into the table `rows`. */
  function IndexRows(st: Stages, batch: LemmaBatch, rows: seq<Lemma>, lemmas: seq<Lemma>): seq<Index> {
    st.indexer(batch, SavedRows(rows, lemmas, LemmaKey, WithLemmaId))
  }

  /** Lemmas are saved first, once, and every index save comes after it. */
  lemma LemmasBeforeIndexes(siteId: int, lemmas: seq<Lemma>, indexes: seq<Index>, emptyIndex: Condition)
    ensures var t := Persisted(siteId, lemmas, indexes, emptyIndex);
      t[0] == LemmasSaved(lemmas) &&
      (forall i :: 0 <= i < |t| && t[i].LemmasSaved? ==> i == 0) &&
      (forall i :: 0 <= i < |t| && t[i].IndexesSaved? ==> i > 0)
  {
  }

  /** The run is reported as indexed exactly when there are index rows, and
      exactly then are they saved; otherwise the empty-index condition is
      recorded instead. */
  lemma SuccessIffIndexes(siteId: int, lemmas: seq<Lemma>, indexes: seq<Index>, emptyIndex: Condition)
    requires emptyIndex != SuccessIndexed
    ensures var t := Persisted(siteId, lemmas, indexes, emptyIndex);
      (ConditionChanged(siteId, SuccessIndexed) in t <==> indexes != []) &&
      (IndexesSaved(indexes) in t <==> indexes != []) &&
      (ConditionChanged(siteId, emptyIndex) in t <==> indexes == [])
  {
    var t := Persisted(siteId, lemmas, indexes, emptyIndex);
    if indexes == [] {
      assert t == [LemmasSaved(lemmas), ConditionChanged(siteId, emptyIndex)];
    } else {
      assert t == [LemmasSaved(lemmas), IndexesSaved(indexes), ConditionChanged(siteId, SuccessIndexed)];
    }
  }

  /** A skipped lemma stage writes nothing but at most one condition. */
  lemma SkippedStageWritesNothing(sites: seq<Site>, siteId: int, batch: LemmaBatch, lemmas: seq<Lemma>,
                                  indexes: seq<Index>, emptyLemmas: Condition, emptyIndex: Condition)
    requires LemmasSkipped(sites, siteId, batch)
    ensures var t := LemmaStage(sites, siteId, batch, lemmas, indexes, emptyLemmas, emptyIndex);
      |t| <= 1 && (forall a :: a in t ==> a == ConditionChanged(siteId, emptyLemmas)) &&
      (|t| == 1 <==> NoErrorYet(sites, siteId))
  {
  }

  // ---------------------------------------------------------------------------
  // Shared steps
  // ---------------------------------------------------------------------------

  /** `handleEmptyResults`, `handleEmptyLemmas`, `handlePageLemmasFailure`:
      they differ only in the condition they record. */
  method HandleEmpty(db: Database, siteId: int, condition: Condition)
    modifies db`trace
    ensures db.trace == old(db.trace) + EmptyCondition(db.sites, siteId, condition)
  {
    if NoErrorYet(db.sites, siteId) {
      db.ChangeCondition(siteId, condition);
    }
  }

  /** The common tail of `saveLemmasAndIndexes` and `savePageLemmasAndIndexes`:
      the lemmas are saved, the index rows are built from them as saved, and
      the rows are saved when there are some. */
  method Persist(db: Database, st: Stages, siteId: int, batch: LemmaBatch, lemmas: seq<Lemma>, emptyIndex: Condition)
    requires db.Valid()
    modifies db`lemmas, db`indexes, db`trace
    ensures db.Valid()
    ensures db.lemmas == SaveAll(old(db.lemmas), lemmas, LemmaKey, WithLemmaId)
    ensures db.indexes == SavedIndexes(old(db.indexes), IndexRows(st, batch, old(db.lemmas), lemmas))
    ensures db.trace == old(db.trace) + Persisted(siteId, lemmas, IndexRows(st, batch, old(db.lemmas), lemmas), emptyIndex)
  {
    ghost var history := db.trace;
    ghost var lemmaRows := db.lemmas;
    var saved := db.SaveLemmas(lemmas);
    var indexes := st.indexer(batch, saved);
    assert indexes == IndexRows(st, batch, lemmaRows, lemmas);
    assert db.trace == history + [LemmasSaved(lemmas)];
    if indexes != [] {
      db.SaveIndexes(indexes);
      db.ChangeCondition(siteId, SuccessIndexed);
      assert db.trace == history + [LemmasSaved(lemmas), IndexesSaved(indexes), ConditionChanged(siteId, SuccessIndexed)];
    } else {
      db.ChangeCondition(siteId, emptyIndex);
      assert db.trace == history + [LemmasSaved(lemmas), ConditionChanged(siteId, emptyIndex)];
    }
  }

  // ---------------------------------------------------------------------------
  // indexTargetSite
  // ---------------------------------------------------------------------------

  /** `saveLemmasAndIndexes`. */
  method SaveLemmasAndIndexes(db: Database, st: Stages, site: Site, batch: LemmaBatch)
    requires db.Valid()
    modifies db`lemmas, db`indexes, db`trace
    ensures db.Valid()
    ensures var lemmas := st.lemmaResultToDB(batch);
      var indexes := IndexRows(st, batch, old(db.lemmas), lemmas);
      db.lemmas == SaveAll(old(db.lemmas), lemmas, LemmaKey, WithLemmaId) &&
      db.indexes == SavedIndexes(old(db.indexes), indexes) &&
      db.trace == old(db.trace) + Persisted(site.id, lemmas, indexes, EmptyIndex)
  {
    var lemmas := st.lemmaResultToDB(batch);
    Persist(db, st, site.id, batch, lemmas, EmptyIndex);
  }

  /** The lemma ranks of a set of pages (`processLemmatization`). */
  function Lemmatized(st: Stages, pages: seq<Page>, fields: seq<Field>, siteId: int): LemmaBatch {
    st.lemmatize(st.responsivePages(pages), fields, siteId)
  }

  /** `processLemmas`. */
  method ProcessLemmas(db: Database, st: Stages, site: Site, pages: seq<Page>)
    requires db.Valid()
    modifies db`lemmas, db`indexes, db`trace
    ensures db.Valid()
    ensures var batch := Lemmatized(st, pages, db.fields, site.id);
      var lemmas := st.lemmaResultToDB(batch);
      var indexes := IndexRows(st, batch, old(db.lemmas), lemmas);
      (LemmasSkipped(db.sites, site.id, batch) ==>
        db.lemmas == old(db.lemmas) && db.indexes == old(db.indexes)) &&
      (!LemmasSkipped(db.sites, site.id, batch) ==>
        db.lemmas == SaveAll(old(db.lemmas), lemmas, LemmaKey, WithLemmaId) &&
        db.indexes == SavedIndexes(old(db.indexes), indexes)) &&
      db.trace == old(db.trace) + LemmaStage(db.sites, site.id, batch, lemmas, indexes, EmptyLemmas, EmptyIndex)
  {
    var fields := db.fields;
    var lemmasResult := Lemmatized(st, pages, fields, site.id);
    if |lemmasResult| == 0 || CheckSiteFailed(db.sites, site.id) {
      HandleEmpty(db, site.id, EmptyLemmas);
      return;
    }
    SaveLemmasAndIndexes(db, st, site, lemmasResult);
  }

  /** `indexTargetSite`: an empty crawl or a site failed meanwhile saves no
      page and lemmatizes nothing; otherwise the pages are saved, and the
      lemma stage runs on the saved page objects, which hold their ids. */
  method IndexTargetSite(db: Database, st: Stages, targetSite: Site)
    requires db.Valid()
    modifies db`pages, db`lemmas, db`indexes, db`trace
    ensures db.Valid()
    ensures var results := st.crawl(targetSite.url);
      var pages := SavedRows(old(db.pages), results, PageKey, WithPageId);
      var batch := Lemmatized(st, pages, db.fields, targetSite.id);
      var lemmas := st.lemmaResultToDB(batch);
      var indexes := IndexRows(st, batch, old(db.lemmas), lemmas);
      if results == [] || CheckSiteFailed(db.sites, targetSite.id) then
        db.pages == old(db.pages) && db.lemmas == old(db.lemmas) && db.indexes == old(db.indexes) &&
        db.trace == old(db.trace) + EmptyCondition(db.sites, targetSite.id, EmptyPages)
      else
        db.pages == SaveAll(old(db.pages), results, PageKey, WithPageId) &&
        (LemmasSkipped(db.sites, targetSite.id, batch) ==>
          db.lemmas == old(db.lemmas) && db.indexes == old(db.indexes)) &&
        (!LemmasSkipped(db.sites, targetSite.id, batch) ==>
          db.lemmas == SaveAll(old(db.lemmas), lemmas, LemmaKey, WithLemmaId) &&
          db.indexes == SavedIndexes(old(db.indexes), indexes)) &&
        db.trace == old(db.trace) + [PagesSaved(results)] +
          LemmaStage(db.sites, targetSite.id, batch, lemmas, indexes, EmptyLemmas, EmptyIndex)
  {
    var results := st.crawl(targetSite.url);
    if results == [] || CheckSiteFailed(db.sites, targetSite.id) {
      HandleEmpty(db, targetSite.id, EmptyPages);
      return;
    }
    var pages := db.SavePages(results);
    ProcessLemmas(db, st, targetSite, pages);
  }

  // ---------------------------------------------------------------------------
  // indexTargetPage
  // ---------------------------------------------------------------------------

  /** `prepareTargetPage`: a fresh page that takes id, path and site of the
      first stored page equal to the probe (path, site id); otherwise it keeps
      the defaults of a new page. */
  method PrepareTargetPage(pages: seq<Page>, st: Stages, site: Site, targetUrl: string) returns (targetPage: PageEntity)
    ensures fresh(targetPage)
    ensures var m := FirstMatch(pages, ProbePage(targetUrl, site.id), st.compare);
      targetPage.Value() ==
        if m.Some? then Page(pages[m.value].id, pages[m.value].siteId, pages[m.value].path, 0, "")
        else Page(0, 0, "", 0, "")
  {
    targetPage := new PageEntity();
    PartiallyCloneTargetIndexingPage(targetPage, ProbePage(targetUrl, site.id), pages, st.compare);
  }

  const ClassCastException: string := "java.lang.ClassCastException"

  /** The cast `(Set<Integer>) existingIndexes` in `cleanupExistingData`: a
      map of index rows is not a set, so the cast always throws. */
  function CastToLemmaIds(existingIndexes: map<int, Index>): (r: Result<set<int>, string>)
    ensures r.Failure? && r.error == ClassCastException
  {
    Failure(ClassCastException)
  }

  /** `cleanupExistingData` as written: the index rows of the page are read,
      the cast throws before any lemma is reduced or row deleted, and the
      exception leaves the page run. Nothing is written. */
  method CleanupExistingDataAsWritten(db: Database, pageId: int) returns (outcome: Outcome<string>)
    ensures outcome == Fail(ClassCastException)
  {
    var existingIndexes := LoadIndexFromDB(db.indexes, pageId);
    var ids := CastToLemmaIds(existingIndexes);
    if ids.Failure? {
      return Fail(ids.error);
    }
    outcome := Pass;
  }

  /** A page with one index row is enough to make the as-written cleanup
      throw, while the key set it evidently means names the row's lemma,
      whose stored row the reducer would then receive. */
  lemma CastFindingExample()
    ensures var existing := map[5 := Index(1, 7, 5, 1.0)];
      var stored := [Lemma(5, 1, "дом", 1)];
      CastToLemmaIds(existing).Failure? &&
      existing.Keys == {5} &&
      LoadLemmasFromDBWithIndex(stored, existing.Keys) == map["дом" := Lemma(5, 1, "дом", 1)]
  {
    var existing := map[5 := Index(1, 7, 5, 1.0)];
    var stored := [Lemma(5, 1, "дом", 1)];
    var m := LoadLemmasFromDBWithIndex(stored, existing.Keys);
    assert stored[0] in stored && stored[0].id in existing.Keys;
    assert "дом" in m;
    assert m.Keys == {"дом"};
  }

  /** `loadIndexFromDB(pageId)` read from `indexRows`: rows of the page,
      keyed by their lemma id, one for every lemma id the page has, and of
      several rows with one lemma id the one read last. */
  ghost predicate PageRowsRead(indexRows: seq<Index>, pageId: int, existingIndexes: map<int, Index>) {
    (forall k :: k in existingIndexes ==>
       existingIndexes[k].lemmaId == k && existingIndexes[k].pageId == pageId && existingIndexes[k] in indexRows) &&
    (forall r :: r in indexRows && r.pageId == pageId ==> r.lemmaId in existingIndexes) &&
    (forall k :: k in existingIndexes ==> LastWithLemma(FindByPageId(indexRows, pageId), k, existingIndexes[k]))
  }

  /** `cleanupExistingData` with the cast replaced by the key set of the
      index map, which holds the lemma ids of the page's rows: every lemma of
      the page loses one occurrence (dropping out at zero), then the rows
      read are deleted. */
  method CleanupExistingData(db: Database, pageId: int) returns (ghost existingIndexes: map<int, Index>, ghost ks: seq<string>)
    requires db.Valid()
    modifies db`lemmas, db`indexes, db`trace
    ensures db.Valid()
    ensures PageRowsRead(old(db.indexes), pageId, existingIndexes)
    ensures var existingLemmas := LoadLemmasFromDBWithIndex(old(db.lemmas), existingIndexes.Keys);
      IsIterationOrder(existingLemmas, ks) &&
      db.lemmas == ReducedTable(old(db.lemmas), ToUpdate(existingLemmas, ks), ToDelete(existingLemmas, ks)) &&
      db.indexes == DeleteKeys(old(db.indexes), set r | r in existingIndexes.Values :: r.id, IndexKey) &&
      db.trace == old(db.trace) + ReduceActions(ToUpdate(existingLemmas, ks), ToDelete(existingLemmas, ks)) +
        [IndexesDeleted(existingIndexes.Values)]
  {
    var loaded := LoadIndexFromDB(db.indexes, pageId);
    existingIndexes := loaded;
    var existingLemmas := LoadLemmasFromDBWithIndex(db.lemmas, loaded.Keys);
    ks := ReduceLemmasFrequency(db, existingLemmas);
    db.DeleteIndexes(loaded.Values);
  }

  /** The lemma ranks of the re-fetched page `saved`. */
  function PageBatch(st: Stages, fields: seq<Field>, siteId: int, saved: Page): LemmaBatch {
    Lemmatized(st, [st.responsivePage(saved)], fields, siteId)
  }

  /** The lemmas of `batch` merged with the site's lemmas in the table `lemmaRows`. */
  function PageNormalized(st: Stages, lemmaRows: seq<Lemma>, siteId: int, batch: LemmaBatch): seq<Lemma> {
    st.normalize(st.lemmaResultToDB(batch), LoadSiteLemmasFromDB(lemmaRows, siteId))
  }

  /** The writes of `processPageLemmas` for the re-fetched page `saved`,
      given the lemma table it reads the site's lemmas from. */
  function PageStage(st: Stages, sites: seq<Site>, fields: seq<Field>, lemmaRows: seq<Lemma>,
                     siteId: int, saved: Page): seq<Action> {
    var batch := PageBatch(st, fields, siteId, saved);
    var normalized := PageNormalized(st, lemmaRows, siteId, batch);
    LemmaStage(sites, siteId, batch, normalized, IndexRows(st, batch, lemmaRows, normalized),
               EmptyLemmasOnPage, EmptyIndexOnPage)
  }

  /** The lemma table `processPageLemmas` leaves for the page `saved`,
      starting from `lemmaRows`. */
  function PageLemmaTable(st: Stages, sites: seq<Site>, fields: seq<Field>, lemmaRows: seq<Lemma>,
                          siteId: int, saved: Page): seq<Lemma> {
    var batch := PageBatch(st, fields, siteId, saved);
    if LemmasSkipped(sites, siteId, batch) then lemmaRows
    else SaveAll(lemmaRows, PageNormalized(st, lemmaRows, siteId, batch), LemmaKey, WithLemmaId)
  }

  /** The index table `processPageLemmas` leaves for the page `saved`,
      starting from `lemmaRows` and `indexRows`. */
  function PageIndexTable(st: Stages, sites: seq<Site>, fields: seq<Field>, lemmaRows: seq<Lemma>,
                          indexRows: seq<Index>, siteId: int, saved: Page): seq<Index> {
    var batch := PageBatch(st, fields, siteId, saved);
    if LemmasSkipped(sites, siteId, batch) then indexRows
    else SavedIndexes(indexRows, IndexRows(st, batch, lemmaRows, PageNormalized(st, lemmaRows, siteId, batch)))
  }

  /** `savePageLemmasAndIndexes`: the new lemmas are merged with the site's
      stored ones before they are saved and indexed. */
  method SavePageLemmasAndIndexes(db: Database, st: Stages, site: Site, batch: LemmaBatch)
    requires db.Valid()
    modifies db`lemmas, db`indexes, db`trace
    ensures db.Valid()
    ensures var normalized := PageNormalized(st, old(db.lemmas), site.id, batch);
      var indexes := IndexRows(st, batch, old(db.lemmas), normalized);
      db.lemmas == SaveAll(old(db.lemmas), normalized, LemmaKey, WithLemmaId) &&
      db.indexes == SavedIndexes(old(db.indexes), indexes) &&
      db.trace == old(db.trace) + Persisted(site.id, normalized, indexes, EmptyIndexOnPage)
  {
    var siteLemmas := LoadSiteLemmasFromDB(db.lemmas, site.id);
    var normalized := st.normalize(st.lemmaResultToDB(batch), siteLemmas);
    Persist(db, st, site.id, batch, normalized, EmptyIndexOnPage);
  }

  /** `processPageLemmas`. */
  method ProcessPageLemmas(db: Database, st: Stages, site: Site, pages: seq<Page>)
    requires db.Valid()
    modifies db`lemmas, db`indexes, db`trace
    ensures db.Valid()
    ensures var batch := Lemmatized(st, pages, db.fields, site.id);
      var normalized := PageNormalized(st, old(db.lemmas), site.id, batch);
      var indexes := IndexRows(st, batch, old(db.lemmas), normalized);
      (LemmasSkipped(db.sites, site.id, batch) ==>
        db.lemmas == old(db.lemmas) && db.indexes == old(db.indexes)) &&
      (!LemmasSkipped(db.sites, site.id, batch) ==>
        db.lemmas == SaveAll(old(db.lemmas), normalized, LemmaKey, WithLemmaId) &&
        db.indexes == SavedIndexes(old(db.indexes), indexes)) &&
      db.trace == old(db.trace) +
        LemmaStage(db.sites, site.id, batch, normalized, indexes, EmptyLemmasOnPage, EmptyIndexOnPage)
  {
    var fields := db.fields;
    var lemmasResult := Lemmatized(st, pages, fields, site.id);
    if |lemmasResult| == 0 || CheckSiteFailed(db.sites, site.id) {
      HandleEmpty(db, site.id, EmptyLemmasOnPage);
      return;
    }
    SavePageLemmasAndIndexes(db, st, site, lemmasResult);
  }

  /** `processPageIndexing` with `updatePageContent`: the page is fetched
      from the site URL followed by the target path, its status code and
      document are stored in it, it is saved (a new page object takes its
      generated id), and the lemma stage runs on it. */
  method ProcessPageIndexing(db: Database, st: Stages, site: Site, targetUrl: string, targetPage: PageEntity)
    requires db.Valid()
    modifies db`pages, db`lemmas, db`indexes, db`trace, targetPage`id, targetPage`answerCode, targetPage`content
    ensures db.Valid()
    ensures var connection := st.connect(site.url + targetUrl);
      var fetched := old(targetPage.Value()).(answerCode := connection.statusCode, content := connection.document);
      targetPage.Value() == Assigned(old(db.pages), fetched, PageKey, WithPageId) &&
      db.trace == old(db.trace) + [PageSaved(fetched)] +
        PageStage(st, db.sites, db.fields, old(db.lemmas), site.id, targetPage.Value())
    ensures db.pages == Upsert(old(db.pages), targetPage.Value(), PageKey)
    ensures db.lemmas == PageLemmaTable(st, db.sites, db.fields, old(db.lemmas), site.id, targetPage.Value())
    ensures db.indexes ==
      PageIndexTable(st, db.sites, db.fields, old(db.lemmas), old(db.indexes), site.id, targetPage.Value())
  {
    var siteConnector := st.connect(site.url + targetUrl);
    targetPage.answerCode := siteConnector.statusCode;
    targetPage.content := siteConnector.document;
    var stored := db.SavePage(targetPage.Value());
    targetPage.id := stored.id;
    assert targetPage.Value() == stored;
    var resultPagesList := [st.responsivePage(targetPage.Value())];
    ProcessPageLemmas(db, st, site, resultPagesList);
  }

  /** The page `indexTargetPage` saves: the identity of the first stored page
      equal to the probe (or the defaults of a new page) and the fetched
      status code and document. */
  function RefetchedPage(pages: seq<Page>, st: Stages, url: string): Page {
    var site := st.cloneSite(url);
    var path := TargetPath(url, site.url);
    var m := FirstMatch(pages, ProbePage(path, site.id), st.compare);
    var connection := st.connect(site.url + path);
    if m.Some? then
      Page(pages[m.value].id, pages[m.value].siteId, pages[m.value].path, connection.statusCode, connection.document)
    else
      Page(0, 0, "", connection.statusCode, connection.document)
  }

  /** The writes of the cleanup: lemma saves and deletes, then the deletion of the index rows. */
  predicate CleanupShaped(cleanup: seq<Action>) {
    cleanup != [] && cleanup[|cleanup| - 1].IndexesDeleted? &&
    forall a :: a in cleanup ==> a.LemmasSaved? || a.LemmasDeleted? || a.IndexesDeleted?
  }

  lemma ReduceThenDeleteShaped(toUpdate: seq<Lemma>, toDelete: seq<int>, removed: set<Index>)
    ensures CleanupShaped(ReduceActions(toUpdate, toDelete) + [IndexesDeleted(removed)])
  {
  }

  /** The writes `cleanupExistingData` makes for the lemma rows it read and
      the index rows of the page, in the iteration order `ks`. */
  lemma CleanupActions(lemmaRows: seq<Lemma>, existingIndexes: map<int, Index>, ks: seq<string>)
    returns (cleanup: seq<Action>)
    requires IsIterationOrder(LoadLemmasFromDBWithIndex(lemmaRows, existingIndexes.Keys), ks)
    ensures var existingLemmas := LoadLemmasFromDBWithIndex(lemmaRows, existingIndexes.Keys);
      cleanup == ReduceActions(ToUpdate(existingLemmas, ks), ToDelete(existingLemmas, ks)) +
        [IndexesDeleted(existingIndexes.Values)]
    ensures CleanupShaped(cleanup)
  {
    var existingLemmas := LoadLemmasFromDBWithIndex(lemmaRows, existingIndexes.Keys);
    var toUpdate, toDelete := ToUpdate(existingLemmas, ks), ToDelete(existingLemmas, ks);
    cleanup := ReduceActions(toUpdate, toDelete) + [IndexesDeleted(existingIndexes.Values)];
    ReduceThenDeleteShaped(toUpdate, toDelete, existingIndexes.Values);
  }

  /** What `cleanupExistingData` of page `pageId` leaves, starting from the
      tables `lemmas0` and `indexes0`: the page's index rows `existingIndexes`
      are read, their lemmas lose one occurrence each in the iteration order
      `ks`, the rows are deleted, and `cleanup` are the writes. */
  ghost predicate CleanedUp(lemmas0: seq<Lemma>, indexes0: seq<Index>, pageId: int,
                            existingIndexes: map<int, Index>, ks: seq<string>, cleanup: seq<Action>,
                            lemmas1: seq<Lemma>, indexes1: seq<Index>) {
    PageRowsRead(indexes0, pageId, existingIndexes) &&
    var existingLemmas := LoadLemmasFromDBWithIndex(lemmas0, existingIndexes.Keys);
    IsIterationOrder(existingLemmas, ks) &&
    lemmas1 == ReducedTable(lemmas0, ToUpdate(existingLemmas, ks), ToDelete(existingLemmas, ks)) &&
    indexes1 == DeleteKeys(indexes0, set r | r in existingIndexes.Values :: r.id, IndexKey) &&
    cleanup == ReduceActions(ToUpdate(existingLemmas, ks), ToDelete(existingLemmas, ks)) +
      [IndexesDeleted(existingIndexes.Values)]
  }

  /** `if (targetPage.getId() != 0) cleanupExistingData(targetPage)`: only a
      page known to the store is undone, and the cleanup only touches lemmas
      and index rows. */
  method CleanupIfStored(db: Database, pageId: int)
    returns (ghost existingIndexes: map<int, Index>, ghost ks: seq<string>, ghost cleanup: seq<Action>)
    requires db.Valid()
    modifies db`lemmas, db`indexes, db`trace
    ensures db.Valid()
    ensures pageId == 0 ==> cleanup == [] && db.lemmas == old(db.lemmas) && db.indexes == old(db.indexes)
    ensures pageId != 0 ==>
      CleanedUp(old(db.lemmas), old(db.indexes), pageId, existingIndexes, ks, cleanup, db.lemmas, db.indexes) &&
      CleanupShaped(cleanup)
    ensures db.trace == old(db.trace) + cleanup
  {
    existingIndexes, ks, cleanup := map[], [], [];
    if pageId != 0 {
      ghost var lemmasBefore, indexesBefore, traceBefore := db.lemmas, db.indexes, db.trace;
      existingIndexes, ks := CleanupExistingData(db, pageId);
      cleanup := CleanupDone(lemmasBefore, indexesBefore, pageId, existingIndexes, ks, db.lemmas, db.indexes,
                             traceBefore, db.trace);
    }
  }

  /** The ensures of `cleanupExistingData` gathered into `CleanedUp`, with
      `cleanup` the writes it appended to the trace. */
  lemma CleanupDone(lemmas0: seq<Lemma>, indexes0: seq<Index>, pageId: int,
                    existingIndexes: map<int, Index>, ks: seq<string>,
                    lemmas1: seq<Lemma>, indexes1: seq<Index>, trace0: seq<Action>, trace1: seq<Action>)
    returns (cleanup: seq<Action>)
    requires PageRowsRead(indexes0, pageId, existingIndexes)
    requires var existingLemmas := LoadLemmasFromDBWithIndex(lemmas0, existingIndexes.Keys);
      IsIterationOrder(existingLemmas, ks) &&
      lemmas1 == ReducedTable(lemmas0, ToUpdate(existingLemmas, ks), ToDelete(existingLemmas, ks)) &&
      indexes1 == DeleteKeys(indexes0, set r | r in existingIndexes.Values :: r.id, IndexKey) &&
      trace1 == trace0 + ReduceActions(ToUpdate(existingLemmas, ks), ToDelete(existingLemmas, ks)) +
        [IndexesDeleted(existingIndexes.Values)]
    ensures CleanedUp(lemmas0, indexes0, pageId, existingIndexes, ks, cleanup, lemmas1, indexes1)
    ensures CleanupShaped(cleanup)
    ensures trace1 == trace0 + cleanup
  {
    cleanup := CleanupActions(lemmas0, existingIndexes, ks);
  }

  /** `indexTargetPage`, with the cleanup of a known page corrected: the
      site condition turns to page indexing; a page that matches a stored one
      takes its identity, and for a stored id other than 0 its old lemmas
      and index rows are undone first (leaving the tables `lemmaRows` and
      `indexRows`); then the page is fetched, saved and lemmatized. */
  method IndexTargetPage(db: Database, st: Stages, url: string)
    returns (ghost saved: Page, ghost existingIndexes: map<int, Index>, ghost ks: seq<string>,
             ghost cleanup: seq<Action>, ghost lemmaRows: seq<Lemma>, ghost indexRows: seq<Index>)
    requires db.Valid()
    modifies db`pages, db`lemmas, db`indexes, db`trace
    ensures db.Valid()
    ensures saved == Assigned(old(db.pages), RefetchedPage(old(db.pages), st, url), PageKey, WithPageId)
    ensures db.pages == Upsert(old(db.pages), saved, PageKey)
    ensures var id := RefetchedPage(old(db.pages), st, url).id;
      (id == 0 ==> cleanup == [] && lemmaRows == old(db.lemmas) && indexRows == old(db.indexes)) &&
      (id != 0 ==> CleanedUp(old(db.lemmas), old(db.indexes), id, existingIndexes, ks, cleanup, lemmaRows, indexRows))
    ensures db.lemmas == PageLemmaTable(st, db.sites, db.fields, lemmaRows, st.cloneSite(url).id, saved)
    ensures db.indexes == PageIndexTable(st, db.sites, db.fields, lemmaRows, indexRows, st.cloneSite(url).id, saved)
    ensures db.trace ==
      old(db.trace) + [ConditionChanged(st.cloneSite(url).id, PageIndexing)] + cleanup +
      [PageSaved(RefetchedPage(old(db.pages), st, url))] +
      PageStage(st, db.sites, db.fields, lemmaRows, st.cloneSite(url).id, saved)
  {
    var targetSite := st.cloneSite(url);
    db.ChangeCondition(targetSite.id, PageIndexing);
    var targetUrl := TargetPath(url, targetSite.url);
    var targetPage := PrepareTargetPage(db.pages, st, targetSite, targetUrl);
    assert targetPage.id == RefetchedPage(old(db.pages), st, url).id;
    existingIndexes, ks, cleanup := CleanupIfStored(db, targetPage.id);
    lemmaRows, indexRows := db.lemmas, db.indexes;
    ProcessPageIndexing(db, st, targetSite, targetUrl, targetPage);
    saved := targetPage.Value();
  }
}
