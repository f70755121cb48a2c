/** IndexingServiceImpl (package searchengine): starts and stops a crawl of
    the configured sites, records every site's outcome, and decides which
    links the crawler follows. The thread pool is reduced to whether it is
    active; the page fetch is a parameter. */
module IndexServiceImpl {
  import opened Util
  import opened Entities
  import opened SearchEnginePage

  const AlreadyRunning: string := "Индексация уже запущена"
  const NotRunning: string := "Индексация не запущена"
  const StoppedByUser: string := "Индексация остановлена пользователем"

  /** `IndexingResponse(result)` / `IndexingResponse(result, error)`. */
  datatype IndexingResponse = IndexingResponse(result: bool, error: Option<string>)

  /** One entry of the `SitesList` configuration. */
  datatype SiteConfig = SiteConfig(url: string, name: string)

  /** What `Jsoup.connect(url)...get()` yields: a document with the response
      status code, or the message of the IOException it throws. */
  datatype FetchResult = Fetched(code: int, html: string) | FetchFailed(message: string)

  /** A stored `page` row: its site, its path (nullable) and the response. */
  datatype StoredPage = StoredPage(siteId: int, path: Option<string>, code: int, content: string)

  // ---------------------------------------------------------------------------
  // shouldIndex
  // ---------------------------------------------------------------------------

  const BinaryExtensions: seq<string> := ["pdf", "jpg", "jpeg", "png", "gif", "zip", "rar"]

  /** `url.matches("(?i).*\\.(pdf|jpg|jpeg|png|gif|zip|rar)$")`: the whole URL
      matches, so it may hold no line terminator (`.` matches none), and it
      ends in a dot and one of the extensions, ASCII case ignored. */
  predicate HasBinaryExtension(url: string) {
    !HasLineTerminator(url) &&
    exists e :: 0 <= e < |BinaryExtensions| && EndsWithIgnoreCase(url, "." + BinaryExtensions[e])
  }

  /** `shouldIndex(url, siteUrl)`; `pageExists(path)` is
      `pageRepository.existsBySiteAndPath(site of siteUrl, path)`. */
  function ShouldIndex(url: string, siteUrl: string, pageExists: string -> bool): (r: bool)
    ensures r <==> StartsWith(url, siteUrl) && '#' !in url && !HasBinaryExtension(url) &&
                   !pageExists(RemoveAll(url, siteUrl))
  {
    ContainsHashIff(url);
    StartsWith(url, siteUrl) &&
    !Contains(url, "#") &&
    !HasBinaryExtension(url) &&
    !pageExists(RemoveAll(url, siteUrl))
  }

  /** `url.contains("#")` is a test for the character. */
  lemma ContainsHashIff(url: string)
    ensures Contains(url, "#") <==> '#' in url
  {
    if '#' in url {
      var i :| 0 <= i < |url| && url[i] == '#';
      assert url[i..i + 1] == "#";
      assert OccursAt(url, "#", i);
    }
    if Contains(url, "#") {
      var i :| 0 <= i <= |url| - 1 && OccursAt(url, "#", i);
      assert url[i..i + 1][0] == url[i];
    }
  }

  /** Every URL ending in ".PDF", in any ASCII case, is rejected. */
  lemma UpperCasePdfRejected(prefix: string, siteUrl: string, pageExists: string -> bool)
    requires !HasLineTerminator(prefix)
    ensures !ShouldIndex(prefix + ".PDF", siteUrl, pageExists)
  {
    var url := prefix + ".PDF";
    assert EndsWithIgnoreCase(url, "." + BinaryExtensions[0]);
    assert !HasLineTerminator(url) by {
      forall i | 0 <= i < |url| ensures !IsLineTerminator(url[i]) {
        if i < |prefix| {
          assert url[i] == prefix[i];
        }
      }
    }
  }

  // ---------------------------------------------------------------------------
  // The service
  // ---------------------------------------------------------------------------

  /** A site row after `stopIndexing` has been through it. */
  function Swept(s: Site): Site {
    if s.status == Indexing then s.(status := Failed, lastError := Some(StoppedByUser)) else s
  }

  class IndexingServiceImpl {
    const sitesList: seq<SiteConfig>
    /** The site table; a saved new entity gets the next id. */
    var sites: seq<Site>
    /** The page table. */
    var pages: seq<StoredPage>
    /** `isIndexingRunning()`: the pool exists and has not terminated. */
    var poolActive: bool
    var isIndexingStopped: bool
    /** Whether the current pool has been shut down. A pool made by
        `new ForkJoinPool()` terminates only after a shutdown, once its
        tasks are done. */
    ghost var shutdownRequested: bool

    ghost predicate Valid()
      reads this
    {
      forall i :: 0 <= i < |sites| ==> sites[i].id == i + 1
    }

    constructor (sitesList: seq<SiteConfig>, sites: seq<Site>, pages: seq<StoredPage>)
      requires forall i :: 0 <= i < |sites| ==> sites[i].id == i + 1
      ensures Valid()
      ensures this.sitesList == sitesList && this.sites == sites && this.pages == pages
      ensures !poolActive && !isIndexingStopped && !shutdownRequested
    {
      this.sitesList, this.sites, this.pages := sitesList, sites, pages;
      poolActive, isIndexingStopped, shutdownRequested := false, false, false;
    }

    /** `startIndexing`: refused while a crawl runs; otherwise the stop flag is
        cleared and a new pool is started (the crawl it runs is `RunSites`). */
    method StartIndexing() returns (r: IndexingResponse)
      modifies this`poolActive, this`isIndexingStopped, this`shutdownRequested
      ensures old(poolActive) ==>
        r == IndexingResponse(false, Some(AlreadyRunning)) && poolActive &&
        isIndexingStopped == old(isIndexingStopped) && shutdownRequested == old(shutdownRequested)
      ensures !old(poolActive) ==>
        r == IndexingResponse(true, None) && poolActive && !isIndexingStopped && !shutdownRequested
    {
      if poolActive {
        return IndexingResponse(false, Some(AlreadyRunning));
      }
      isIndexingStopped := false;
      poolActive, shutdownRequested := true, false;
      r := IndexingResponse(true, None);
    }

    /** `startIndexing` with `forkJoinPool.shutdown()` right after the
        submit: the crawl still runs to its end, and then the pool
        terminates. */
    method StartIndexingShutdownWhenDone() returns (r: IndexingResponse)
      modifies this`poolActive, this`isIndexingStopped, this`shutdownRequested
      ensures old(poolActive) ==>
        r == IndexingResponse(false, Some(AlreadyRunning)) && poolActive &&
        isIndexingStopped == old(isIndexingStopped) && shutdownRequested == old(shutdownRequested)
      ensures !old(poolActive) ==>
        r == IndexingResponse(true, None) && poolActive && !isIndexingStopped && shutdownRequested
    {
      r := StartIndexing();
      if r.result {
        shutdownRequested := true;
      }
    }

    /** `stopIndexing`: refused when no crawl runs; otherwise the stop flag is
        set, the pool is shut down, and every site still INDEXING becomes
        FAILED with the stop message. `shutdownNow` does not terminate the
        pool at once, so it stays active until `PoolTerminated`. */
    method StopIndexing() returns (r: IndexingResponse)
      requires Valid()
      modifies this`isIndexingStopped, this`sites, this`shutdownRequested
      ensures Valid()
      ensures !old(poolActive) ==>
        r == IndexingResponse(false, Some(NotRunning)) && sites == old(sites) &&
        isIndexingStopped == old(isIndexingStopped) && shutdownRequested == old(shutdownRequested)
      ensures old(poolActive) ==>
        r == IndexingResponse(true, None) && isIndexingStopped && shutdownRequested && |sites| == |old(sites)| &&
        forall i :: 0 <= i < |sites| ==> sites[i] == Swept(old(sites)[i])
    {
      if !poolActive {
        return IndexingResponse(false, Some(NotRunning));
      }
      isIndexingStopped, shutdownRequested := true, true;
      for i := 0 to |sites|
        invariant isIndexingStopped && shutdownRequested
        invariant |sites| == |old(sites)|
        invariant forall j :: 0 <= j < i ==> sites[j] == Swept(old(sites)[j])
        invariant forall j :: i <= j < |sites| ==> sites[j] == old(sites)[j]
      {
        if sites[i].status == Indexing {
          sites := sites[i := sites[i].(status := Failed, lastError := Some(StoppedByUser))];
        }
      }
      r := IndexingResponse(true, None);
    }

    /** The pool terminates: an event outside the service's code, possible
        only once the pool has been shut down, that makes
        `isIndexingRunning` false. */
    method PoolTerminated()
      requires shutdownRequested
      modifies this`poolActive
      ensures !poolActive
    {
      poolActive := false;
    }

    /** `indexPage(url, site)` without the link recursion: checks the stop
        flag before anything is fetched, then fetches and saves the page; a
        failure is the message of the exception that escapes. */
    method IndexPage(url: string, site: Site, fetch: string -> FetchResult) returns (outcome: Outcome<string>)
      modifies this`pages
      ensures isIndexingStopped ==> outcome == Fail(StoppedByUser) && pages == old(pages)
      ensures !isIndexingStopped && fetch(url).FetchFailed? ==>
        outcome == Fail(fetch(url).message) && pages == old(pages)
      ensures !isIndexingStopped && fetch(url).Fetched? ==>
        outcome == Pass &&
        pages == old(pages) + [StoredPage(site.id, PreparedPath(Some(RemoveAll(url, site.url))),
                                          fetch(url).code, fetch(url).html)]
    {
      if isIndexingStopped {
        return Fail(StoppedByUser);
      }
      var doc := fetch(url);
      if doc.FetchFailed? {
        return Fail(doc.message);
      }
      var page := new PageRecord(None, site.id, Some(RemoveAll(url, site.url)), doc.code, doc.html);
      page.PreparePath();
      pages := pages + [StoredPage(page.siteId, page.path, page.code, page.content)];
      outcome := Pass;
    }

    /** `indexSite(siteConfig)`: a new site row is saved as INDEXING, the start
        page is indexed, and the row is saved again as INDEXED, or as FAILED
        with the message of the exception. */
    method IndexSite(siteConfig: SiteConfig, fetch: string -> FetchResult) returns (outcome: Outcome<string>)
      requires Valid()
      modifies this`sites, this`pages
      ensures Valid()
      ensures |sites| == |old(sites)| + 1 && sites[..|old(sites)|] == old(sites)
      ensures var s := sites[|old(sites)|];
        s.url == siteConfig.url && s.name == siteConfig.name && s.id == |old(sites)| + 1 &&
        (outcome.Pass? ==> s.status == Indexed && s.lastError.None?) &&
        (outcome.Fail? ==> s.status == Failed && s.lastError == Some(outcome.error))
      ensures isIndexingStopped ==> outcome == Fail(StoppedByUser) && pages == old(pages)
    {
      var entity := Site(|sites| + 1, siteConfig.url, siteConfig.name, Indexing, None);
      sites := sites + [entity];
      outcome := IndexPage(siteConfig.url, entity, fetch);
      match outcome {
        case Pass => entity := entity.(status := Indexed);
        case Fail(message) => entity := entity.(status := Failed, lastError := Some(message));
      }
      sites := sites[|sites| - 1 := entity];
    }

    /** The crawl submitted to the pool, one site after the other (the source
        runs them in a parallel stream, in no fixed order). */
    method RunSites(fetch: string -> FetchResult)
      requires Valid()
      modifies this`sites, this`pages
      ensures Valid()
      ensures |sites| == |old(sites)| + |sitesList| && sites[..|old(sites)|] == old(sites)
      ensures forall i :: |old(sites)| <= i < |sites| ==> sites[i].status != Indexing
      ensures isIndexingStopped ==>
        pages == old(pages) &&
        forall i :: |old(sites)| <= i < |sites| ==>
          sites[i].status == Failed && sites[i].lastError == Some(StoppedByUser)
    {
      ghost var start := sites;
      for k := 0 to |sitesList|
        invariant Valid()
        invariant |sites| == |start| + k && sites[..|start|] == start
        invariant forall i :: |start| <= i < |sites| ==> sites[i].status != Indexing
        invariant isIndexingStopped ==>
          pages == old(pages) &&
          forall i :: |start| <= i < |sites| ==>
            sites[i].status == Failed && sites[i].lastError == Some(StoppedByUser)
      {
        ghost var before := sites;
        var _ := IndexSite(sitesList[k], fetch);
        assert sites[..|before|] == before;
        forall i | |start| <= i < |before| ensures sites[i] == before[i] {
          assert sites[..|before|][i] == sites[i];
        }
        assert sites[..|start|] == before[..|start|];
      }
    }
  }

  // ---------------------------------------------------------------------------
  // A run that is never stopped
  // ---------------------------------------------------------------------------

  /** As written: nothing shuts down the pool of a crawl that runs to its
      end, so the pool never terminates and the next start is refused. */
  method RestartAfterCompletedRun(sitesList: seq<SiteConfig>, fetch: string -> FetchResult)
    returns (first: IndexingResponse, second: IndexingResponse)
    ensures first == IndexingResponse(true, None)
    ensures second == IndexingResponse(false, Some(AlreadyRunning))
  {
    var service := new IndexingServiceImpl(sitesList, [], []);
    first := service.StartIndexing();
    service.RunSites(fetch);
    second := service.StartIndexing();
  }

  /** With the pool shut down after the submit, a crawl that has run to its
      end lets its pool terminate, and the next start is accepted. */
  method RestartAfterCompletedRunCorrected(sitesList: seq<SiteConfig>, fetch: string -> FetchResult)
    returns (first: IndexingResponse, second: IndexingResponse)
    ensures first == IndexingResponse(true, None)
    ensures second == IndexingResponse(true, None)
  {
    var service := new IndexingServiceImpl(sitesList, [], []);
    first := service.StartIndexingShutdownWhenDone();
    service.RunSites(fetch);
    service.PoolTerminated();
    second := service.StartIndexingShutdownWhenDone();
  }

  // ---------------------------------------------------------------------------
  // Properties of the stop sweep
  // ---------------------------------------------------------------------------

  /** After the sweep no site is INDEXING; sites in other statuses are untouched. */
  lemma SweepEndsIndexing(s: Site)
    ensures Swept(s).status != Indexing
    ensures s.status != Indexing ==> Swept(s) == s
    ensures s.status == Indexing ==> Swept(s).lastError == Some(StoppedByUser) && Swept(s).id == s.id
  {
  }

  /** A second stop changes nothing more. */
  lemma SweepIdempotent(s: Site)
    ensures Swept(Swept(s)) == Swept(s)
  {
  }
}
