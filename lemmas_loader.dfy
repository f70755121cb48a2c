/** LemmasLoader: the lemma queries of the indexing pipeline and the frequency
    filter that drops lemmas found on too large a share of the pages. */
module LemmasLoader {
  import opened Util
  import opened Entities

  // ---------------------------------------------------------------------------
  // Derived queries of LemmaRepository and SiteRepository
  // ---------------------------------------------------------------------------

  /** `lemmaRepository.findBySiteId`. */
  function FindBySiteId(lemmas: seq<Lemma>, siteId: int): seq<Lemma> {
    Filter(lemmas, (l: Lemma) => l.siteId == siteId)
  }

  /** `lemmaRepository.findByIdIn`. */
  function FindByIdIn(lemmas: seq<Lemma>, ids: set<int>): seq<Lemma> {
    Filter(lemmas, (l: Lemma) => l.id in ids)
  }

  /** `lemmaRepository.findBySiteIdIn`. */
  function FindBySiteIdIn(lemmas: seq<Lemma>, siteIds: seq<int>): seq<Lemma> {
    Filter(lemmas, (l: Lemma) => l.siteId in siteIds)
  }

  /** `siteRepository.findByStatus(status)` followed by `.map(Site::getId)`. */
  function SiteIdsWithStatus(sites: seq<Site>, status: Status): (ids: seq<int>)
    ensures forall id :: id in ids ==> exists s :: s in sites && s.id == id && s.status == status
  {
    if sites == [] then []
    else (if sites[0].status == status then [sites[0].id] else []) + SiteIdsWithStatus(sites[1..], status)
  }

  // ---------------------------------------------------------------------------
  // Collectors.toMap(key, identity, (existing, replacement) -> existing)
  // ---------------------------------------------------------------------------

  /** The stream collected into a map keyed by `key`; on a key collision the
      element met first is kept. */
  function CollectFirstWins<K(==), V>(vs: seq<V>, key: V -> K): (m: map<K, V>)
    ensures forall k :: k in m ==> key(m[k]) == k && m[k] in vs
    ensures forall v :: v in vs ==> key(v) in m
  {
    if vs == [] then map[] else CollectFirstWins(vs[1..], key)[key(vs[0]) := vs[0]]
  }

  /** The value under a key is the first element carrying that key. */
  lemma {:induction false} CollectFirstWinsAt<K, V>(vs: seq<V>, key: V -> K, i: nat)
    requires i < |vs|
    requires forall j :: 0 <= j < i ==> key(vs[j]) != key(vs[i])
    ensures CollectFirstWins(vs, key)[key(vs[i])] == vs[i]
  {
    if i > 0 {
      CollectFirstWinsAt(vs[1..], key, i - 1);
    }
  }

  /** Without collisions every element is found under its own key. */
  lemma CollectUniqueKeys<K, V>(vs: seq<V>, key: V -> K)
    requires UniqueKeys(vs, key)
    ensures forall i :: 0 <= i < |vs| ==> CollectFirstWins(vs, key)[key(vs[i])] == vs[i]
  {
    forall i | 0 <= i < |vs| ensures CollectFirstWins(vs, key)[key(vs[i])] == vs[i] {
      CollectFirstWinsAt(vs, key, i);
    }
  }

  /** `vs[i]` passes the filter and no earlier element that passes carries its key. */
  predicate FirstWithKey<K(==), V>(vs: seq<V>, p: V -> bool, key: V -> K, i: nat) {
    i < |vs| && p(vs[i]) &&
    forall j :: 0 <= j < i && p(vs[j]) ==> key(vs[j]) != key(vs[i])
  }

  /** Past the head, the element is still the first with its key in the tail. */
  lemma FirstWithKeyTail<K, V>(vs: seq<V>, p: V -> bool, key: V -> K, i: nat)
    requires 0 < i && FirstWithKey(vs, p, key, i)
    ensures FirstWithKey(vs[1..], p, key, i - 1)
    ensures vs[1..][i - 1] == vs[i]
    ensures p(vs[0]) ==> key(vs[0]) != key(vs[i])
  {
    assert vs[1..][i - 1] == vs[i];
    forall j | 0 <= j < i - 1 && p(vs[1..][j]) ensures key(vs[1..][j]) != key(vs[1..][i - 1]) {
      assert vs[1..][j] == vs[j + 1];
    }
  }

  /** Filtering a non-empty sequence: its head, if it passes, then the filtered tail. */
  lemma FilterCons<V>(vs: seq<V>, p: V -> bool)
    requires vs != []
    ensures Filter(vs, p) == if p(vs[0]) then [vs[0]] + Filter(vs[1..], p) else Filter(vs[1..], p)
  {
  }

  /** Collecting a sequence with a head: the head is found under its key. */
  lemma CollectHead<K, V>(v: V, t: seq<V>, key: V -> K)
    ensures key(v) in CollectFirstWins([v] + t, key)
    ensures CollectFirstWins([v] + t, key)[key(v)] == v
  {
    assert ([v] + t)[1..] == t;
  }

  /** Collecting a sequence with a head: other keys keep the tail's entry. */
  lemma CollectPastHead<K, V>(v: V, t: seq<V>, key: V -> K, k: K)
    requires k != key(v) && k in CollectFirstWins(t, key)
    ensures k in CollectFirstWins([v] + t, key)
    ensures CollectFirstWins([v] + t, key)[k] == CollectFirstWins(t, key)[k]
  {
    assert ([v] + t)[1..] == t;
  }

  /** A head that passes the filter is found under its key. */
  lemma FilterCollectHead<K, V>(vs: seq<V>, p: V -> bool, key: V -> K)
    requires vs != [] && p(vs[0])
    ensures key(vs[0]) in CollectFirstWins(Filter(vs, p), key)
    ensures CollectFirstWins(Filter(vs, p), key)[key(vs[0])] == vs[0]
  {
    FilterCons(vs, p);
    CollectHead(vs[0], Filter(vs[1..], p), key);
  }

  /** An entry of the filtered tail survives a head with another key. */
  lemma FilterCollectPastHead<K, V>(vs: seq<V>, p: V -> bool, key: V -> K, k: K)
    requires vs != [] && (p(vs[0]) ==> key(vs[0]) != k)
    requires k in CollectFirstWins(Filter(vs[1..], p), key)
    ensures k in CollectFirstWins(Filter(vs, p), key)
    ensures CollectFirstWins(Filter(vs, p), key)[k] == CollectFirstWins(Filter(vs[1..], p), key)[k]
  {
    FilterCons(vs, p);
    if p(vs[0]) {
      CollectPastHead(vs[0], Filter(vs[1..], p), key, k);
    }
  }

  /** First-wins through a filter: the value under a key is the first element
      of the unfiltered sequence that passes the filter and carries that key. */
  lemma {:induction false} CollectFilterFirstWinsAt<K, V>(vs: seq<V>, p: V -> bool, key: V -> K, i: nat)
    requires FirstWithKey(vs, p, key, i)
    ensures key(vs[i]) in CollectFirstWins(Filter(vs, p), key)
    ensures CollectFirstWins(Filter(vs, p), key)[key(vs[i])] == vs[i]
  {
    if i > 0 {
      var k := key(vs[i]);
      FirstWithKeyTail(vs, p, key, i);
      CollectFilterFirstWinsAt(vs[1..], p, key, i - 1);
      assert k in CollectFirstWins(Filter(vs[1..], p), key);
      FilterCollectPastHead(vs, p, key, k);
    } else {
      FilterCollectHead(vs, p, key);
    }
  }

  // ---------------------------------------------------------------------------
  // The loaders
  // ---------------------------------------------------------------------------

  /** `loadSiteLemmasFromDB`: the lemmas of a site keyed by their text. */
  function LoadSiteLemmasFromDB(lemmas: seq<Lemma>, siteId: int): (m: map<string, Lemma>)
    ensures forall t :: t in m ==> m[t].text == t && m[t].siteId == siteId && m[t] in lemmas
    ensures forall l :: l in lemmas && l.siteId == siteId ==> l.text in m
  {
    CollectFirstWins(FindBySiteId(lemmas, siteId), LemmaText)
  }

  /** When two lemmas of the site share a text, the one stored first is kept. */
  lemma LoadSiteLemmasFirstWins(lemmas: seq<Lemma>, siteId: int, i: nat)
    requires i < |lemmas| && lemmas[i].siteId == siteId
    requires forall j :: 0 <= j < i && lemmas[j].siteId == siteId ==> lemmas[j].text != lemmas[i].text
    ensures LoadSiteLemmasFromDB(lemmas, siteId)[lemmas[i].text] == lemmas[i]
  {
    CollectFilterFirstWinsAt(lemmas, (l: Lemma) => l.siteId == siteId, LemmaText, i);
  }

  /** `loadLemmasFromDBWithIndex`: the lemmas with the given ids, keyed by text. */
  function LoadLemmasFromDBWithIndex(lemmas: seq<Lemma>, ids: set<int>): (m: map<string, Lemma>)
    ensures forall t :: t in m ==> m[t].text == t && m[t].id in ids && m[t] in lemmas
    ensures forall l :: l in lemmas && l.id in ids ==> l.text in m
  {
    CollectFirstWins(FindByIdIn(lemmas, ids), LemmaText)
  }

  /** When two of the requested lemmas share a text, the one stored first is kept. */
  lemma LoadLemmasWithIndexFirstWins(lemmas: seq<Lemma>, ids: set<int>, i: nat)
    requires i < |lemmas| && lemmas[i].id in ids
    requires forall j :: 0 <= j < i && lemmas[j].id in ids ==> lemmas[j].text != lemmas[i].text
    ensures LoadLemmasFromDBWithIndex(lemmas, ids)[lemmas[i].text] == lemmas[i]
  {
    CollectFilterFirstWinsAt(lemmas, (l: Lemma) => l.id in ids, LemmaText, i);
  }

  // ---------------------------------------------------------------------------
  // The frequency filter
  // ---------------------------------------------------------------------------

  /** `lemmaFrequencyIsOften`: the lemma is on more than `percent` per cent of
      the `allPageCount` pages. Java computes in double; here the reals are exact. */
  predicate LemmaFrequencyIsOften(l: Lemma, allPageCount: int, percent: int) {
    if percent >= 100 then false
    else
      var n := allPageCount as real;
      (l.frequency as real) > n - (n / 100.0) * ((100 - percent) as real)
  }

  /** The threshold in integers: a lemma is "often" exactly when
      100 * frequency > allPageCount * percent (and percent < 100). */
  lemma OftenIffCrossMultiplied(l: Lemma, allPageCount: int, percent: int)
    ensures LemmaFrequencyIsOften(l, allPageCount, percent) <==>
            percent < 100 && 100 * l.frequency > allPageCount * percent
  {
    if percent < 100 {
      var n := allPageCount as real;
      var p := percent as real;
      var f := l.frequency as real;
      calc {
        n - (n / 100.0) * ((100 - percent) as real);
        n - (n / 100.0) * (100.0 - p);
        n - n + (n / 100.0) * p;
        (n * p) / 100.0;
      }
      assert (allPageCount * percent) as real == n * p;
      assert (100 * l.frequency) as real == 100.0 * f;
      assert f > (n * p) / 100.0 <==> 100.0 * f > n * p;
    }
  }

  /** The filter is monotone in the frequency. */
  lemma OftenMonotone(l: Lemma, l': Lemma, allPageCount: int, percent: int)
    requires l.frequency <= l'.frequency
    requires LemmaFrequencyIsOften(l, allPageCount, percent)
    ensures LemmaFrequencyIsOften(l', allPageCount, percent)
  {
    OftenIffCrossMultiplied(l, allPageCount, percent);
    OftenIffCrossMultiplied(l', allPageCount, percent);
  }

  function NotOften(allPageCount: int, percent: int): Lemma -> bool {
    (l: Lemma) => !LemmaFrequencyIsOften(l, allPageCount, percent)
  }

  /** `loadSiteLemmasFromDBWithFreq`: the site's lemmas that pass the filter, keyed by id. */
  function LoadSiteLemmasFromDBWithFreq(lemmas: seq<Lemma>, siteId: int, allPageCount: int, percent: int)
    : (m: map<int, Lemma>)
    ensures forall id :: id in m ==>
      m[id].id == id && m[id].siteId == siteId && m[id] in lemmas &&
      !LemmaFrequencyIsOften(m[id], allPageCount, percent)
    ensures forall l :: (l in lemmas && l.siteId == siteId &&
      !LemmaFrequencyIsOften(l, allPageCount, percent)) ==> l.id in m
  {
    CollectFirstWins(Filter(FindBySiteId(lemmas, siteId), NotOften(allPageCount, percent)), LemmaKey)
  }

  /** With unique ids (the primary key) the result holds every passing lemma of the
      site under its own id, and with percent >= 100 that is every lemma of the site. */
  lemma SiteLemmasWithFreqExact(lemmas: seq<Lemma>, siteId: int, allPageCount: int, percent: int)
    requires UniqueKeys(lemmas, LemmaKey)
    ensures forall l :: (l in lemmas && l.siteId == siteId &&
      !LemmaFrequencyIsOften(l, allPageCount, percent)) ==>
      LoadSiteLemmasFromDBWithFreq(lemmas, siteId, allPageCount, percent)[l.id] == l
    ensures percent >= 100 ==>
      LoadSiteLemmasFromDBWithFreq(lemmas, siteId, allPageCount, percent).Keys ==
      set l | l in lemmas && l.siteId == siteId :: l.id
  {
    var site := FindBySiteId(lemmas, siteId);
    var kept := Filter(site, NotOften(allPageCount, percent));
    FilterKeepsKeysUnique(lemmas, (l: Lemma) => l.siteId == siteId, LemmaKey);
    FilterKeepsKeysUnique(site, NotOften(allPageCount, percent), LemmaKey);
    CollectUniqueKeys(kept, LemmaKey);
    forall l | l in lemmas && l.siteId == siteId && !LemmaFrequencyIsOften(l, allPageCount, percent)
      ensures LoadSiteLemmasFromDBWithFreq(lemmas, siteId, allPageCount, percent)[l.id] == l
    {
      assert l in kept;
      var i :| 0 <= i < |kept| && kept[i] == l;
    }
  }

  /** `loadLemmasFromDBWithFreqAndIndexedSites`: the passing lemmas of every
      site whose status is INDEXED, keyed by id. */
  function LoadLemmasFromDBWithFreqAndIndexedSites(sites: seq<Site>, lemmas: seq<Lemma>, allPageCount: int, percent: int)
    : (m: map<int, Lemma>)
    ensures forall id :: id in m ==>
      m[id].id == id && m[id] in lemmas && !LemmaFrequencyIsOften(m[id], allPageCount, percent) &&
      exists s :: s in sites && s.id == m[id].siteId && s.status == Indexed
  {
    var indexedSiteIds := SiteIdsWithStatus(sites, Indexed);
    CollectFirstWins(Filter(FindBySiteIdIn(lemmas, indexedSiteIds), NotOften(allPageCount, percent)), LemmaKey)
  }

  /** A lemma of an INDEXED site that passes the filter is loaded. */
  lemma {:induction false} IndexedSitesLemmaLoaded(sites: seq<Site>, lemmas: seq<Lemma>, allPageCount: int, percent: int, l: Lemma)
    requires l in lemmas && !LemmaFrequencyIsOften(l, allPageCount, percent)
    requires exists s :: s in sites && s.id == l.siteId && s.status == Indexed
    ensures l.id in LoadLemmasFromDBWithFreqAndIndexedSites(sites, lemmas, allPageCount, percent)
  {
    SiteIdListed(sites, l.siteId);
  }

  lemma {:induction false} SiteIdListed(sites: seq<Site>, id: int)
    requires exists s :: s in sites && s.id == id && s.status == Indexed
    ensures id in SiteIdsWithStatus(sites, Indexed)
  {
    if sites[0].id != id || sites[0].status != Indexed {
      var s :| s in sites && s.id == id && s.status == Indexed;
      assert s in sites[1..];
      SiteIdListed(sites[1..], id);
    }
  }
}
