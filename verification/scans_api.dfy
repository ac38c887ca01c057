/** The HTTP handlers of the two servers (the long-running one and the
    serverless one) with Express taken away: each handler is a function from
    the shared cache state, the request and the current time to a response
    and the next state. The popular list is cached for thirty minutes. */
module ScansApi {
  import opened Common
  import OrderedMap
  import Scraper

  /** Thirty minutes, in milliseconds. */
  const CacheDuration: int := 30 * 60 * 1000

  /** `scansCache` and `cacheTimestamp`; both start as null. */
  datatype CacheState = CacheState(scans: Option<Scraper.Popular>, timestamp: Option<int>)

  const Startup := CacheState(None, None)

  /** The cache is used when both fields are set (a timestamp of 0 counts as
      unset, being falsy) and less than thirty minutes have passed. The
      scans object is truthy even when it holds no manga. */
  predicate Fresh(st: CacheState, now: int) {
    st.scans.Some? && st.timestamp.Some? && st.timestamp.value != 0
    && now - st.timestamp.value < CacheDuration
  }

  /** The options of a popular-list request, as query parameters. */
  datatype PopularQuery = PopularQuery(
    maxChaptersPerManga: Scraper.QueryParam,
    maxPagesPerChapter: Scraper.QueryParam,
    maxMangas: Scraper.QueryParam)

  /** The body of a successful popular-list response. */
  datatype PopularResponse = PopularResponse(count: nat, data: Scraper.Popular, cached: bool, timestamp: int)

  /** What the scraper returns for the request's options. */
  function Fetch(q: PopularQuery): Scraper.Popular {
    Scraper.PopularScans(
      Scraper.NumberParam(q.maxChaptersPerManga, Scraper.DefaultChapters),
      Scraper.NumberParam(q.maxPagesPerChapter, Scraper.DefaultPages),
      Scraper.NumberParam(q.maxMangas, Scraper.DefaultMangas))
  }

  /** `GET /api/scans/popular`: a fresh cache is returned as it is, whatever
      the options; otherwise the list is fetched and stored with the time of
      the request. Either way `count` is the number of mangas returned. */
  function PopularRequest(st: CacheState, q: PopularQuery, now: int): (r: (CacheState, PopularResponse))
    ensures r.1.count == |OrderedMap.Keys(r.1.data)|
    ensures r.1.cached <==> Fresh(st, now)
    ensures Fresh(st, now) ==> r.0 == st && r.1.data == st.scans.value && r.1.timestamp == st.timestamp.value
    ensures !Fresh(st, now) ==>
      r.0 == CacheState(Some(Fetch(q)), Some(now)) && r.1.data == Fetch(q) && r.1.timestamp == now
  {
    if Fresh(st, now) then
      (st, PopularResponse(|st.scans.value|, st.scans.value, true, st.timestamp.value))
    else
      var scans := Fetch(q);
      (CacheState(Some(scans), Some(now)), PopularResponse(|scans|, scans, false, now))
  }

  /** A hit does not depend on the request's options. */
  lemma HitIgnoresOptions(st: CacheState, q1: PopularQuery, q2: PopularQuery, now: int)
    requires Fresh(st, now)
    ensures PopularRequest(st, q1, now) == PopularRequest(st, q2, now)
  {
  }

  /** After a miss at a non-zero time, every request within the next thirty
      minutes is served the same list from the cache. */
  lemma MissThenHit(st: CacheState, q1: PopularQuery, q2: PopularQuery, now: int, later: int)
    requires !Fresh(st, now)
    requires now != 0 && later < now + CacheDuration
    ensures var (st1, first) := PopularRequest(st, q1, now);
      var (st2, second) := PopularRequest(st1, q2, later);
      second.cached && second.data == first.data && second.timestamp == now && st2 == st1
  {
  }

  /** A request at time 0 stores a falsy timestamp, so the next request
      fetches again. */
  lemma ZeroTimestampNeverHits(st: CacheState, q1: PopularQuery, q2: PopularQuery, later: int)
    requires !Fresh(st, 0)
    ensures !PopularRequest(PopularRequest(st, q1, 0).0, q2, later).1.cached
  {
  }

  /** `POST /api/cache/clear`. */
  function ClearCache(st: CacheState): (r: CacheState)
    ensures r == Startup
  {
    CacheState(None, None)
  }

  /** Clearing the cache makes the next request a miss, at any time. */
  lemma ClearThenMiss(st: CacheState, q: PopularQuery, now: int)
    ensures !PopularRequest(ClearCache(st), q, now).1.cached
    ensures PopularRequest(ClearCache(st), q, now).1.data == Fetch(q)
  {
  }

  /** `GET /api/mangas` (serverless only): always fetched, the cache neither
      read nor written. */
  function MangasRequest(st: CacheState, q: PopularQuery, now: int): (r: (CacheState, PopularResponse))
    ensures r.0 == st && !r.1.cached
    ensures r.1.count == |OrderedMap.Keys(r.1.data)|
  {
    var scans := Fetch(q);
    (st, PopularResponse(|scans|, scans, false, now))
  }

  /** `/api/mangas` returns what a cache miss of the popular list would. */
  lemma MangasMatchesMiss(st: CacheState, q: PopularQuery, now: int)
    ensures MangasRequest(st, q, now).1 == PopularRequest(ClearCache(st), q, now).1
  {
  }

  datatype SearchResponse = BadRequest | Found(query: string, count: nat, data: Scraper.Popular)

  /** `GET /api/search`: a missing or empty `q` is a 400 and the scraper is
      not called; otherwise the scraper's search result. The cache is not
      involved. */
  function SearchRequest(q: Scraper.QueryParam): (r: SearchResponse)
    ensures r.BadRequest? <==> q.Absent? || q.s == ""
    ensures r.Found? ==>
      (r.query == q.s && r.data == Scraper.SearchManga(q.s) && r.count == |OrderedMap.Keys(r.data)|)
  {
    match q
    case Absent => BadRequest
    case Text(s) =>
      if s == "" then BadRequest
      else
        var results := Scraper.SearchManga(s);
        Found(s, |results|, results)
  }

  datatype HealthCache = HealthCache(active: bool, timestamp: Option<int>, count: nat)

  /** The `cache` part of `GET /health`. */
  function Health(st: CacheState): (h: HealthCache)
    ensures h.active <==> st.scans.Some?
    ensures h.timestamp == st.timestamp
    ensures h.count == if st.scans.Some? then |OrderedMap.Keys(st.scans.value)| else 0
  {
    HealthCache(st.scans.Some?, st.timestamp, if st.scans.Some? then |st.scans.value| else 0)
  }

  /** After a request, health reports the cache that request left: as many
      mangas as the response counted, stamped with the response's time. */
  lemma HealthAfterRequest(st: CacheState, q: PopularQuery, now: int)
    requires !Fresh(st, now)
    ensures var (st1, resp) := PopularRequest(st, q, now);
      Health(st1) == HealthCache(true, Some(resp.timestamp), resp.count)
  {
  }

  /** The start-up warm-up: the scraper is called and its result dropped. */
  function WarmUp(st: CacheState): (r: CacheState)
    ensures r.scans == st.scans && r.timestamp == st.timestamp
  {
    var _ := Scraper.PopularScans(Scraper.Int(Scraper.DefaultChapters), Scraper.Int(Scraper.DefaultPages),
                                  Scraper.Int(Scraper.DefaultMangas));
    st
  }

  /** So the first request after start-up still fetches, and health reports an
      empty cache until then. */
  lemma WarmUpDoesNotFillCache(q: PopularQuery, now: int)
    ensures !Health(WarmUp(Startup)).active
    ensures !PopularRequest(WarmUp(Startup), q, now).1.cached
  {
  }
}
