# Search-engine indexing core, modelled in Dafny

This project models the indexing pipeline of a small Java search engine (`FinalTask_JavaBasics`).
The pipeline does the following:

- It crawls configured sites and stores their pages.
- It reduces the words of each page to lemmas and keeps one `lemma` row per site and lemma text. The row's `frequency` counts the pages of the site that contain the lemma.
- It stores one `index` row per page and lemma, carrying a rank.
- It re-indexes a single page. First it undoes that page's old contribution: each lemma of the page loses one occurrence, lemmas that reach zero are deleted, and the page's index rows are deleted. Then it fetches and lemmatizes the page again.

Modules, one per source file, plus three shared ones:

| module | file | models |
|---|---|---|
| `Util` | `util.dfy` | `Option`, `Result`, `Outcome`; order-preserving `Filter`; the Java string operations the core uses (`startsWith`, `contains`, `replace(target, "")`, `indexOf`, the `.` of a regular expression, ASCII-only `(?i)`) |
| `Entities` | `entities.dfy` | the rows `Site`, `Page`, `Lemma`, `Index`, `Field`; the mutable `Page` object as the class `PageEntity` |
| `Store` | `store.dfy` | the repositories as one `Database` object. Each table is a sequence of rows with unique ids. A save gives an entity with id 0 (a new one) a generated id above every stored id; the saved entity then replaces the row that has its id or is added. A delete removes rows by id. `trace` records every write and every call into `SiteConditionsChanger`, in order |
| `LemmasLoader` | `lemmas_loader.dfy` | `LemmasLoader`: lemma rows collected into maps. On a key collision the first row is kept. It also holds the frequency filter |
| `LemmasFrequencyReducer` | `lemmas_frequency_reducer.dfy` | `reduceLemmasFrequency`, over an explicit iteration order of the map it receives |
| `LemmFactory` | `lemm_factory.dfy` | `LemmFactory.getLemms` and `getLemmsToRelevantPageLoader`, with the morphology engine as a parameter |
| `IndexLoader` | `index_loader.dfy` | `IndexLoader.loadIndexFromDB` and `loadIndexFromListByLemmas` |
| `IndexingPageClone` | `indexing_page_clone.dfy` | `partiallyCloneTargetIndexingPage` |
| `SearchEnginePage` | `search_engine_page.dfy` | the `@PrePersist` path normalisation of `searchengine.model.page` |
| `IndexServiceImpl` | `index_service_impl.dfy` | the start/stop service `IndexServiceImpl` and its link filter `shouldIndex` |
| `IndexingServices` | `indexing_services.dfy` | the orchestrator `IndexingServices`: the site flow and the page flow |

Modelling conventions:

- The collaborators whose code is not part of this model are parameters. For the orchestrator they are the `Stages` datatype: crawler, page filter, lemmatizer, lemma-result loader, normalizer, indexer, site-condition cloning, HTTP connector and `Page.compareTo`. For `LemmFactory` the morphology engine is the `Morphology` datatype.
- Java's `double` arithmetic is replaced by exact reals.
- A `HashMap`'s iteration order is an explicit sequence of its keys.
- A map returned by the lemma-result loader or the normalizer is represented only by its values, in iteration order, because the orchestrator only saves them or passes them on.

Where the specification and the code differ, the code is followed:

- The single-page flow casts a `Map` to a `Set` (see Findings), so as written it never re-indexes a page whose stored id is not 0. `CleanupExistingDataAsWritten` models the cast as written; `IndexTargetPage` models the flow with the cast corrected (see "## Left out").
- A stored page is found with `compareTo` over all pages, not with a query by site and path.

## Model

| member | source | states |
|---|---|---|
| `Store.NextKey` | src/main/java/main/services/index/IndexingServices.java:109 | a generated id is positive and above the id of every stored row |
| `Store.Assigned` | src/main/java/main/services/index/IndexingServices.java:191 | an entity saved with id 0 comes out with a positive id above every stored id and is otherwise unchanged; an entity with any other id is saved as it is |
| `Store.SavedRowsAssigned` | src/main/java/main/data/repository/LemmaRepository.java:11 | every entity `saveAll` stores is the one passed in or, when it is new, the same entity with an id that no row had before the call |
| `Store.SaveAllOfStored` | src/main/java/main/services/lemma/LemmasFrequencyReducer.java:37-39 | saving entities that all carry ids (here, lemmas read from the table) changes no id and is a plain upsert of them |
| `Store.Database.SavePages` | src/main/java/main/data/repository/PageRepository.java:13 | `saveAll` of pages: every page is saved with its generated or own id (`SavedRows`); each replaces the row with its id or is added; ids stay unique; the saved page objects are returned; one `PagesSaved` write is recorded |
| `Store.Database.SavePage` | src/main/java/main/data/repository/PageRepository.java:13 | `save` of one page, as above: the page object comes back with its generated or own id, recorded as `PageSaved` |
| `Store.Database.SaveLemmas` | src/main/java/main/data/repository/LemmaRepository.java:11 | `saveAll` of lemmas, as for pages: new lemmas take generated ids, the saved objects are returned, `LemmasSaved` is recorded |
| `Store.Database.DeleteLemmasById` | src/main/java/main/data/repository/LemmaRepository.java:15 | `deleteAllByIdInBatch` removes exactly the rows whose id is listed |
| `Store.Database.SaveIndexes` | src/main/java/main/data/repository/IndexRepository.java:12 | `saveAll` of index rows: new rows take generated ids, each replaces the row with its id or is added |
| `Store.Database.DeleteIndexes` | src/main/java/main/data/repository/IndexRepository.java:12 | `deleteAll(rows)` removes exactly the rows with the ids of the given rows |
| `Store.Database.ChangeCondition` | src/main/java/main/services/index/IndexingServices.java:104 | a call into `SiteConditionsChanger` is recorded with its site id and condition, and nothing else changes |
| `LemmasLoader.SiteIdsWithStatus` | src/main/java/main/services/lemma/LemmasLoader.java:68-71 | every listed id belongs to a site with the status asked for |
| `LemmasLoader.CollectFirstWins` | src/main/java/main/services/lemma/LemmasLoader.java:36-41 | `toMap` with the merge `(existing, replacement) -> existing`: every value sits under its own key and comes from the input; every input element's key is present |
| `LemmasLoader.CollectFirstWinsAt` | src/main/java/main/services/lemma/LemmasLoader.java:39 | the value under a key is the first element carrying that key |
| `LemmasLoader.CollectUniqueKeys` | src/main/java/main/services/lemma/LemmasLoader.java:36-41 | without key collisions every element is found under its own key |
| `LemmasLoader.CollectFilterFirstWinsAt` | src/main/java/main/services/lemma/LemmasLoader.java:56-64 | after a filter, the value under a key is the first element that passes the filter and has that key |
| `LemmasLoader.LoadSiteLemmasFromDB` | src/main/java/main/services/lemma/LemmasLoader.java:33-42 | the site's lemmas keyed by text: each value has its key as text, belongs to the site and is stored; every stored lemma of the site has its text present |
| `LemmasLoader.LoadSiteLemmasFirstWins` | src/main/java/main/services/lemma/LemmasLoader.java:33-42 | of two lemmas of the site with the same text, the one stored first is kept |
| `LemmasLoader.LoadLemmasFromDBWithIndex` | src/main/java/main/services/lemma/LemmasLoader.java:44-53 | the lemmas whose id is requested, keyed by text; each one requested has its text present |
| `LemmasLoader.LoadLemmasWithIndexFirstWins` | src/main/java/main/services/lemma/LemmasLoader.java:44-53 | of two requested lemmas with the same text, the one stored first is kept |
| `LemmasLoader.OftenIffCrossMultiplied` | src/main/java/main/services/lemma/LemmasLoader.java:84-89 | a lemma is too frequent exactly when `percent < 100` and `100 * frequency > allPageCount * percent` |
| `LemmasLoader.OftenMonotone` | src/main/java/main/services/lemma/LemmasLoader.java:88 | a lemma at least as frequent as a too-frequent one is also too frequent |
| `LemmasLoader.LoadSiteLemmasFromDBWithFreq` | src/main/java/main/services/lemma/LemmasLoader.java:55-65 | the site's lemmas that are not too frequent, keyed by id; every such lemma's id is present |
| `LemmasLoader.SiteLemmasWithFreqExact` | src/main/java/main/services/lemma/LemmasLoader.java:55-65 | with unique ids each passing lemma sits under its own id; with `percent >= 100` the keys are exactly the ids of all the site's lemmas |
| `LemmasLoader.LoadLemmasFromDBWithFreqAndIndexedSites` | src/main/java/main/services/lemma/LemmasLoader.java:67-82 | each value is a stored, not too frequent lemma of a site whose status is INDEXED, under its own id |
| `LemmasLoader.IndexedSitesLemmaLoaded` | src/main/java/main/services/lemma/LemmasLoader.java:67-82 | conversely, every not too frequent lemma of an INDEXED site is loaded |
| `LemmasLoader.SiteIdListed` | src/main/java/main/services/lemma/LemmasLoader.java:68-71 | the id of every INDEXED site is listed |
| `LemmasFrequencyReducer.IterationOrder` | src/main/java/main/services/lemma/LemmasFrequencyReducer.java:27 | `values()` is walked in some order that lists every key once |
| `LemmasFrequencyReducer.DecrementAndCollect` | src/main/java/main/services/lemma/LemmasFrequencyReducer.java:27-30 | every value is decremented once (`peek(decreaseFrequency)`); the save list is the decremented values still above zero, in iteration order |
| `LemmasFrequencyReducer.CollectExhausted` | src/main/java/main/services/lemma/LemmasFrequencyReducer.java:32-35 | the delete list is the ids of the values at or below zero after the decrement, in iteration order |
| `LemmasFrequencyReducer.SplitByFrequency` | src/main/java/main/services/lemma/LemmasFrequencyReducer.java:27-35 | the two lists of the two streams |
| `LemmasFrequencyReducer.ReduceLemmasFrequency` | src/main/java/main/services/lemma/LemmasFrequencyReducer.java:26-44 | the lemma table afterwards is the old table with the save list saved and then the delete list removed. Each call happens only when its list is non-empty, saves before deletes |
| `LemmasFrequencyReducer.SaveAndDelete` | src/main/java/main/services/lemma/LemmasFrequencyReducer.java:37-43 | `saveAll` of the save list, then `deleteAllByIdInBatch` of the delete list, each only when its list is non-empty; lemma ids stay unique |
| `LemmasFrequencyReducer.UpdatedFromMap` | src/main/java/main/services/lemma/LemmasFrequencyReducer.java:27-30 | every saved lemma is a value of the map decremented once, with a positive frequency |
| `LemmasFrequencyReducer.DeletedFromMap` | src/main/java/main/services/lemma/LemmasFrequencyReducer.java:32-35 | every deleted id is the id of a value whose frequency was at most one |
| `LemmasFrequencyReducer.SavedIffStillUsed` | src/main/java/main/services/lemma/LemmasFrequencyReducer.java:27-30 | a value is saved decremented exactly when its frequency was above one |
| `LemmasFrequencyReducer.DeletedIffExhausted` | src/main/java/main/services/lemma/LemmasFrequencyReducer.java:32-35 | an id is deleted exactly when some value with that id had frequency at most one |
| `LemmasFrequencyReducer.DeletedWhenExhausted` | src/main/java/main/services/lemma/LemmasFrequencyReducer.java:32-35 | a value with frequency at most one has its id in the delete list |
| `LemmasFrequencyReducer.SplitIsPartition` | src/main/java/main/services/lemma/LemmasFrequencyReducer.java:27-35 | together the two lists are exactly as long as the map: every value lands in one of them |
| `LemmasFrequencyReducer.SplitLength` | src/main/java/main/services/lemma/LemmasFrequencyReducer.java:27-35 | the two lists together are as long as the walked order |
| `LemmasFrequencyReducer.DistinctLength` | src/main/java/main/services/lemma/LemmasFrequencyReducer.java:27 | the iteration order is as long as the map |
| `LemmasFrequencyReducer.OthersUntouched` | src/main/java/main/services/lemma/LemmasFrequencyReducer.java:37-43 | a row whose id belongs to no value of the map survives unchanged |
| `LemmasFrequencyReducer.ReducedRowsOrigin` | src/main/java/main/services/lemma/LemmasFrequencyReducer.java:37-43 | every row afterwards is an old row or a decremented value of the map, with that value's id unless the value had id 0 and was given one |
| `LemmasFrequencyReducer.EmptyListsSkipCalls` | src/main/java/main/services/lemma/LemmasFrequencyReducer.java:37-43 | the save call happens exactly when the save list is non-empty, and likewise the delete call |
| `LemmFactory.GetLemmWord` | src/main/java/main/services/lemma/LemmFactory.java:76-78 | it succeeds exactly when the description holds a vertical bar; the word is the prefix before the first vertical bar; otherwise `substring(0, -1)` throws |
| `LemmFactory.GetLemms` | src/main/java/main/services/lemma/LemmFactory.java:31-55 | the nested loops compute `Lemms`, including the abort on the first malformed description |
| `LemmFactory.CollectWordLemms` | src/main/java/main/services/lemma/LemmFactory.java:45-50 | the inner loop over one word's descriptions computes `WordLemms`: service parts are skipped, the first malformed description aborts |
| `LemmFactory.WordLemmsFailureStays` | src/main/java/main/services/lemma/LemmFactory.java:45-50 | once a description of a word has thrown, the later descriptions change nothing |
| `LemmFactory.LemmsFailureStays` | src/main/java/main/services/lemma/LemmFactory.java:39-52 | once a word has thrown, the later words change nothing |
| `LemmFactory.EmptyWordsIgnored` | src/main/java/main/services/lemma/LemmFactory.java:40-42 | the result equals the result on the words with the empty ones removed |
| `LemmFactory.LemmsSnoc` | src/main/java/main/services/lemma/LemmFactory.java:39-52 | one more word appends its lemmas, or makes the call fail |
| `LemmFactory.LemmsAppend` | src/main/java/main/services/lemma/LemmFactory.java:39-52 | the lemmas of a concatenation are the lemmas of the two parts in order, and a failure in the first part wins |
| `LemmFactory.WordLemmsFailsIff` | src/main/java/main/services/lemma/LemmFactory.java:45-50 | a word fails exactly when one of its kept descriptions has no vertical bar |
| `LemmFactory.LemmsFailsIff` | src/main/java/main/services/lemma/LemmFactory.java:39-52 | the call fails exactly when some non-empty word has a kept description without a vertical bar |
| `LemmFactory.WordLemmsElements` | src/main/java/main/services/lemma/LemmFactory.java:45-50 | every lemma of a word is the prefix before the vertical bar of one of its kept descriptions; there are no more lemmas than descriptions |
| `LemmFactory.WordLemmsOfWellFormed` | src/main/java/main/services/lemma/LemmFactory.java:45-50 | when no kept description lacks a vertical bar, a word's lemmas are exactly the prefixes before the first vertical bar of its kept descriptions, in order (with `WordLemmsFailsIff` this fixes the result of every word) |
| `LemmFactory.LemmsElements` | src/main/java/main/services/lemma/LemmFactory.java:39-52 | every lemma comes from a kept description of a non-empty word; there are no more lemmas than descriptions |
| `LemmFactory.LemmsOfWellFormed` | src/main/java/main/services/lemma/LemmFactory.java:39-52 | when no kept description of a non-empty word lacks a vertical bar, the result is exactly the prefixes of the kept descriptions of the non-empty words, word after word and in order (with `LemmsFailsIff` this fixes the result for every input) |
| `LemmFactory.ServicePartDropped` | src/main/java/main/services/lemma/LemmFactory.java:46-48 | a description naming a conjunction, interjection, preposition or particle (`СОЮЗ`, `МЕЖД`, `ПРЕДЛ`, `ЧАСТ`) contributes nothing |
| `LemmFactory.GetLemmsToRelevantPageLoader` | src/main/java/main/services/lemma/LemmFactory.java:57-70 | the keys are exactly the words whose lower-cased form has normal forms; each maps to the last of those forms |
| `IndexLoader.LoadIndexFromDB` | src/main/java/main/services/index/IndexLoader.java:23-28 | the page's rows keyed by lemma id: each value is a stored row of the page under its lemma id; every row of the page has its lemma id present; the row kept is the last one read |
| `IndexLoader.LastOneWins` | src/main/java/main/services/index/IndexLoader.java:26 | of two rows with the same lemma id, the earlier one is never kept |
| `IndexLoader.LoadIndexFromListByLemmas` | src/main/java/main/services/index/IndexLoader.java:38-49 | the result is the rows of the list whose lemma id is the id of a search lemma, in list order |
| `IndexLoader.SelectedIff` | src/main/java/main/services/index/IndexLoader.java:43-47 | a row is selected exactly when it is in the list and some search lemma has its lemma id |
| `IndexLoader.SelectedIsSubsequence` | src/main/java/main/services/index/IndexLoader.java:43-47 | the selection keeps the list's order and duplicates |
| `IndexLoader.NoSearchLemmasNoRows` | src/main/java/main/services/index/IndexLoader.java:40-47 | no search lemmas select no rows |
| `IndexingPageClone.FirstMatch` | src/main/java/main/services/index/IndexingPageClone.java:21-22 | the found position is compare-equal to the probe and no earlier one is; there is no position exactly when no page is compare-equal |
| `IndexingPageClone.PartiallyCloneTargetIndexingPage` | src/main/java/main/services/index/IndexingPageClone.java:20-29 | id, path and site come from the first matching page, or are left alone when none matches; code and content are never touched |
| `IndexingPageClone.FirstMatchIsFirst` | src/main/java/main/services/index/IndexingPageClone.java:26 | of two matches the first is taken (`break`) |
| `SearchEnginePage.PreparedPath` | src/main/java/searchengine/model/page.java:31-35 | a null path stays null; a path that starts with `/` is unchanged; any other path gets one `/` in front |
| `SearchEnginePage.PreparedPathIdempotent` | src/main/java/searchengine/model/page.java:31-35 | preparing twice is preparing once (it runs on every persist and update) |
| `SearchEnginePage.PageRecord.PreparePath` | src/main/java/searchengine/model/page.java:29-35 | the object's path becomes the prepared old path |
| `IndexServiceImpl.ShouldIndex` | src/main/java/searchengine/services/impl/IndexServiceImpl.java:109-115 | a link is followed exactly when it starts with the site URL, has no `#`, has no binary extension, and its path is not yet stored |
| `IndexServiceImpl.ContainsHashIff` | src/main/java/searchengine/services/impl/IndexServiceImpl.java:111 | `contains("#")` is membership of the character |
| `IndexServiceImpl.UpperCasePdfRejected` | src/main/java/searchengine/services/impl/IndexServiceImpl.java:112 | `(?i)` makes `.PDF` as binary as `.pdf` |
| `IndexServiceImpl.IndexingServiceImpl.StartIndexing` | src/main/java/searchengine/services/impl/IndexServiceImpl.java:38-50 | refused with "Индексация уже запущена" while a pool runs; otherwise clears the stop flag and starts a pool that has not been shut down |
| `IndexServiceImpl.IndexingServiceImpl.StartIndexingShutdownWhenDone` | src/main/java/searchengine/services/impl/IndexServiceImpl.java:46-47 | corrected start (see Findings): as `startIndexing`, and an accepted pool is shut down right after the submit, so that it can terminate once the crawl is done |
| `IndexServiceImpl.IndexingServiceImpl.StopIndexing` | src/main/java/searchengine/services/impl/IndexServiceImpl.java:118-134 | refused with "Индексация не запущена" when no pool runs; otherwise sets the stop flag, shuts the pool down, and turns every INDEXING site into FAILED with the stop message, leaving the other sites unchanged |
| `IndexServiceImpl.IndexingServiceImpl.PoolTerminated` | src/main/java/searchengine/services/impl/IndexServiceImpl.java:142-144 | the pool can terminate only after it has been shut down, which in the source only `stopIndexing` does (line 124); once it has terminated, no crawl counts as running |
| `IndexServiceImpl.IndexingServiceImpl.IndexPage` | src/main/java/searchengine/services/impl/IndexServiceImpl.java:72-87 | with the stop flag set nothing is fetched or stored and the stop message is the error; a failed fetch stores nothing; a fetched page is stored with its site, its prepared path, status code and HTML, and the call passes. The pass holds only for a start page whose link checks do not throw (see "## Left out") |
| `IndexServiceImpl.IndexingServiceImpl.IndexSite` | src/main/java/searchengine/services/impl/IndexServiceImpl.java:52-70 | a new site row with the next id ends INDEXED when its start page indexed, else FAILED with the exception's message |
| `IndexServiceImpl.IndexingServiceImpl.RunSites` | src/main/java/searchengine/services/impl/IndexServiceImpl.java:47 | one new row per configured site, none left INDEXING; after a stop every new row is FAILED with the stop message and no page is stored |
| `IndexServiceImpl.RestartAfterCompletedRun` | src/main/java/searchengine/services/impl/IndexServiceImpl.java:38-50 | as written: after an accepted start and a crawl run to its end, a second start is refused with "Индексация уже запущена" |
| `IndexServiceImpl.RestartAfterCompletedRunCorrected` | src/main/java/searchengine/services/impl/IndexServiceImpl.java:142-144 | with the corrected start, a crawl run to its end lets the pool terminate, and a second start is accepted |
| `IndexServiceImpl.SweepEndsIndexing` | src/main/java/searchengine/services/impl/IndexServiceImpl.java:126-131 | the sweep leaves no site INDEXING, keeps the id, and leaves other statuses alone |
| `IndexServiceImpl.SweepIdempotent` | src/main/java/searchengine/services/impl/IndexServiceImpl.java:126-131 | a second stop changes nothing more |
| `IndexingServices.FindById` | src/main/java/main/services/index/IndexingServices.java:95 | `findById` returns a stored site with that id, and nothing exactly when no site has it |
| `IndexingServices.FoundIsTheSite` | src/main/java/main/services/index/IndexingServices.java:95 | with unique ids the site found is the site with that id |
| `IndexingServices.CheckSiteFailedIff` | src/main/java/main/services/index/IndexingServices.java:94-98 | a site counts as failed exactly when it has no row or its row is FAILED |
| `IndexingServices.NoErrorYetIff` | src/main/java/main/services/index/IndexingServices.java:101-103 | an empty-run condition is recorded exactly when the site's row exists and has no error yet |
| `IndexingServices.MissingSiteIsSkipped` | src/main/java/main/services/index/IndexingServices.java:94-106 | a site without a row is failed and receives no condition |
| `IndexingServices.TargetPath` | src/main/java/main/services/index/IndexingServices.java:84 | the site URL itself has path `/`; otherwise the path is no longer than the URL |
| `IndexingServices.TargetPathOfSubpage` | src/main/java/main/services/index/IndexingServices.java:84 | for the site URL followed by a rest in which the site URL does not recur, the path is that rest |
| `IndexingServices.LemmasBeforeIndexes` | src/main/java/main/services/index/IndexingServices.java:144-158 | the lemmas are saved first and once, and any index save comes after them |
| `IndexingServices.SuccessIffIndexes` | src/main/java/main/services/index/IndexingServices.java:152-157 | success is recorded exactly when there are index rows, and exactly then are rows saved; otherwise the empty-index condition is recorded |
| `IndexingServices.SkippedStageWritesNothing` | src/main/java/main/services/index/IndexingServices.java:116-119 | a skipped lemma stage writes at most the empty-lemmas condition, and writes it exactly when the site has no error yet |
| `IndexingServices.HandleEmpty` | src/main/java/main/services/index/IndexingServices.java:100-106 | `handleEmptyResults`, `handleEmptyLemmas` and `handlePageLemmasFailure` record their condition only for an existing site without an error |
| `IndexingServices.Persist` | src/main/java/main/services/index/IndexingServices.java:146-157 | saves the lemmas, builds the index rows from the lemma objects as saved (new ones with their generated ids), then either saves the rows and records success, or records the empty-index condition; the lemma and index tables afterwards are stated exactly |
| `IndexingServices.SaveLemmasAndIndexes` | src/main/java/main/services/index/IndexingServices.java:144-158 | the lemma loader's lemmas are saved and, as saved, indexed against the batch |
| `IndexingServices.ProcessLemmas` | src/main/java/main/services/index/IndexingServices.java:112-122 | an empty batch or a failed site leaves lemmas and index rows untouched and records the empty-lemmas condition at most; otherwise the lemma stage persists. The site table does not change within a run here, so when called from `IndexTargetSite` its own failed-site check repeats the caller's and never fires |
| `IndexingServices.IndexTargetSite` | src/main/java/main/services/index/IndexingServices.java:65-78 | an empty crawl or a failed site saves no page, lemma or index row; otherwise the crawled pages are saved (new ones take generated ids) and the lemma stage runs on the saved page objects |
| `IndexingServices.PrepareTargetPage` | src/main/java/main/services/index/IndexingServices.java:160-167 | a fresh page takes id, site and path of the first stored page equal to the probe, or keeps the defaults of a new page |
| `IndexingServices.CastToLemmaIds` | src/main/java/main/services/index/IndexingServices.java:172 | the cast of the index map to `Set<Integer>` always throws `ClassCastException` |
| `IndexingServices.CleanupExistingDataAsWritten` | src/main/java/main/services/index/IndexingServices.java:169-175 | as written, cleanup always ends in `ClassCastException` and writes nothing |
| `IndexingServices.CastFindingExample` | src/main/java/main/services/index/IndexingServices.java:172 | a page with one index row makes the cast throw, while its key set names the lemma the reducer should get |
| `IndexingServices.CleanupExistingData` | src/main/java/main/services/index/IndexingServices.java:169-175 | corrected: the page's index rows are read keyed by lemma id, keeping the row read last for a repeated lemma id; the page's lemmas are reduced by one occurrence (deleted at zero), then exactly the rows read are deleted |
| `IndexingServices.SavePageLemmasAndIndexes` | src/main/java/main/services/index/IndexingServices.java:214-232 | the new lemmas are merged with the site's stored lemmas before being saved and indexed; success or the empty-index-on-page condition is recorded |
| `IndexingServices.ProcessPageLemmas` | src/main/java/main/services/index/IndexingServices.java:194-204 | as `ProcessLemmas`, with the page conditions and the normalized lemmas |
| `IndexingServices.ProcessPageIndexing` | src/main/java/main/services/index/IndexingServices.java:177-192 | the page at site URL plus path is fetched; its code and document are stored in the object, which is saved (taking a generated id when new) before its lemma stage runs on it; the page, lemma and index tables afterwards are stated against those before the call |
| `IndexingServices.ReduceThenDeleteShaped` | src/main/java/main/services/index/IndexingServices.java:169-175 | the cleanup writes lemma saves and deletes only, and ends with the deletion of the page's index rows |
| `IndexingServices.CleanupActions` | src/main/java/main/services/index/IndexingServices.java:169-175 | the writes of the cleanup for the lemma rows it read and the page's index rows, and that they have the cleanup shape |
| `IndexingServices.CleanupIfStored` | src/main/java/main/services/index/IndexingServices.java:87-89 | a page with id 0 is not cleaned up and the tables stay as they were; for any other id exactly the page's index rows are read, the lemmas they name lose one occurrence (deleted at zero), those rows are deleted, and the writes are the lemma save and delete followed by the row deletion (`CleanedUp`) |
| `IndexingServices.IndexTargetPage` | src/main/java/main/services/index/IndexingServices.java:80-92 | corrected flow: records page indexing first; for a matched stored id other than 0 undoes the page's old lemmas and index rows exactly as `CleanupExistingData` does, and for id 0 changes nothing; saves the re-fetched page with the matched identity (a new page takes a generated id); the final lemma and index tables are those its lemma stage leaves from the tables the cleanup left. As written, a stored id other than 0 throws at line 172 instead (see Findings) |

## Left out

- Concurrency is not modelled. The fork/join pools, the parallel stream over sites, cancellation races and concurrent status changes are out: runs execute one after another, and a stop is an explicit call between them.
- `RunSites`: the sites run in configuration order, not in a parallel stream.
- `IndexPage`: the recursive crawl over `a[href]` links, the one-second sleep and the user-agent/referrer headers are left out. `Jsoup` is a `fetch` parameter. The recursive calls sit inside a `try` that swallows every `Exception`, but the link check `shouldIndex` (line 99) runs outside it. Its queries (lines 113-114) can throw. For example, `findByUrl` returns a single site, and each run saves a new row with the same URL (line 58). Such an exception reaches `indexSite`, which then records FAILED with its message although the start page was stored. An `Error` from deep recursion, such as a stack overflow, escapes both `catch (Exception)` blocks, and the `finally` at lines 66-68 saves the row still INDEXING. Neither outcome is modelled: `IndexPage` passes whenever the start page is fetched.
- The `statusTime` timestamps are not modelled (no clock).
- `NextKey`: a generated id is one above the largest stored id. A database identity counter may skip further, for example after a delete; the model promises only an id that no stored row has.
- `Assigned`: an entity with a non-zero id that no row has is added under that id. Hibernate's `merge` would insert a copy with a generated id instead.
- `IndexRows`: the indexer receives the lemma objects after `saveAll` has given the new ones their ids. This takes `getLemmaResultToDB` and `getLemmaNormalizedResult` to return the same map on both of their calls (IndexingServices.java lines 146-149 and 220-223); `ResultLemmaLoader` and `ResultLemmasNormalizer` are not part of this model.
- Derived queries (`findBySiteId`, `findByIdIn`, `findByPageId`) return the matching rows in storage order. The source gives them no `ORDER BY`, so a database may return another order; the first-wins results of `LemmasLoader` and the last-wins result of `LoadIndexFromDB` are stated for storage order only.
- `Lemma` objects are values. The in-place `decreaseFrequency` on objects shared with the caller's map is modelled by its effect on the rows saved and deleted.
- `IndexServiceImpl.java` does not compile as given. The public class `IndexingServiceImpl` sits in a file of another name (line 29). `PageRepository` and `SiteRepository` are each imported from two packages (lines 9 and 16, 10 and 17). `indexPage(String, site)` is called with a `SiteEntity` (line 61). The `IndexingResponse` it imports (line 11) comes from another package than the one its interface `IndexService` uses. The model takes each method's evident intent, with one site row type (`Entities.Site`). The rows for `StartIndexing`, `StopIndexing`, `IndexSite`, `RunSites` and `IndexPage`, and the Findings row for line 143, are claims about that intent.
- `IndexServiceImpl.indexPage(String)` returns `null`, has no behaviour, and is not modelled.
- `loadIndexFromDBByPageIdAndLemmas` and `loadIndexFromDBByLemmas` are single repository queries with no logic of their own, and are not modelled.
- `LemmFactory`'s static initialisation of the morphology engine and its two `IllegalStateException` null checks are not modelled: the engine is a parameter that always exists. The engine's own exceptions are not modelled either; `getMorphInfo` gets each word as it is, without lower-casing (line 44), so a word outside the engine's alphabet would throw there. `LemmsFailsIff` and `WordLemmsFailsIff` ("fails exactly when") therefore speak of a total engine, and a failure they allow is always the `substring(0, -1)` of `getLemmWord`.
- `GetLemmsToRelevantPageLoader`: `toLowerCase` is the parameter `lower`, because Unicode case mapping is not modelled.
- `LemmaFrequencyIsOften` uses exact reals, so the rounding of Java's `double` is not modelled.
- The effect of `SiteConditionsChanger` on site rows is not modelled; its code is not part of this model. Its calls are recorded in the trace with their conditions.
- The site crawler, lemmatizer, `ResultLemmaLoader`, `ResultLemmasNormalizer`, `Indexer`, `ResultPageLoader`, `SiteConnector` and `Page.compareTo` are not part of this model; they are `Stages` parameters.
- The site crawler is both `execute`d and `invoke`d on the pool; the model crawls once.
- `IndexTargetPage`: models the page flow with the corrected cleanup. As written, for a matched page whose stored id is not 0, `cleanupExistingData` throws `ClassCastException` right after the page-indexing condition has been recorded. Nothing is then fetched, saved or lemmatized, and `@Transactional` rolls back the writes of the call. This as-written path is modelled for the cleanup alone (`CleanupExistingDataAsWritten`), not for the whole flow.
- `ProcessPageIndexing`: the fetched document is always a string here. In the source, `SiteConnector.getSiteDocument()` returns `null` when `parse()` throws (SiteConnector.java lines 51-57). `updatePageContent` then throws a `NullPointerException` at `toString()` (IndexingServices.java line 190), before `pageRepository.save` at line 191. The page is then not saved and no lemma stage runs. In `IndexTargetPage` the page-indexing condition and the cleanup have already been written by then, and `@Transactional` rolls them back. This path is not modelled: `ProcessPageIndexing` always saves the page, and `IndexTargetPage` always records `PageSaved`.
- `@Transactional` rollback is not modelled otherwise. Repository calls are taken to succeed, so a database error and the rollback it would cause are left out.
- `DecreaseFrequency`: the `Lemma` class is not part of this model, so the body of `decreaseFrequency` (called at LemmasFrequencyReducer.java line 28) is not shown. It is taken to lower the frequency by one and change nothing else, as its name and the reducer's use of it (keep above zero, delete otherwise) indicate. `SavedIffStillUsed`, `DeletedIffExhausted`, `UpdatedFromMap` and `DeletedFromMap` rest on this.
- `RefetchedPage`: a page that matches no stored page is saved as `new Page()` leaves it: site id 0 and a null path, modelled as the empty string (IndexingServices.java lines 161-166 and 188-191). Whether the database accepts such a row is not modelled.
- `IndexSite`: an exception without a message makes `getMessage()` null, so `lastError` stays null; the model always records a message. The `InterruptedException` that the one-second sleep may throw is not modelled, because the sleep is left out.
- `PoolTerminated`: the model does not tie termination to the end of the submitted crawl; after a shutdown it may come at any point.
- The casts `(HashMap<String, Lemma>)` and `(List<Field>)` are not modelled: the objects behind them are a `HashMap` and a list, so those casts succeed.

## Findings

| source | as written | input that shows it | evidently intended | confidence | as-written member | corrected member |
|---|---|---|---|---|---|---|
| src/main/java/searchengine/services/impl/IndexServiceImpl.java:143 | `isIndexingRunning` asks whether the pool has terminated. The pool made at line 46 is shut down only by `stopIndexing` (line 124), and a `ForkJoinPool` that is never shut down never terminates. So after a crawl that ran to its end without a stop, the service still counts as running | `startIndexing()`, then the crawl of every configured site completes, then `startIndexing()` again: the second call returns `IndexingResponse(false, "Индексация уже запущена")`, and this stays so for good | shut the pool down after the submit (or test whether the submitted task is done), so that a completed crawl allows the next start; `RestartAfterCompletedRunCorrected` proves that | not executed | `IndexServiceImpl.RestartAfterCompletedRun` | `IndexServiceImpl.IndexingServiceImpl.StartIndexingShutdownWhenDone` |
| src/main/java/main/services/index/IndexingServices.java:172 | `cleanupExistingData` passes `(Set<Integer>) existingIndexes`, a cast of the `HashMap<Integer, Index>` of the page's index rows, which is not a `Set`, so every call throws `ClassCastException` before any lemma is reduced or index row deleted | re-indexing a page whose stored row has a non-zero id, e.g. a page with the single index row `Index(1, 7, 5, 1.0)` (lemma 5) | pass `existingIndexes.keySet()`, the lemma ids of the page's rows, so that the reducer receives those lemmas | not executed | `IndexingServices.CleanupExistingDataAsWritten` | `IndexingServices.CleanupExistingData` |
