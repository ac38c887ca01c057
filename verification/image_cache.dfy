/** The client-side image cache of the performance manager: an insertion-ordered
    map from cache key to `{url, size, timestamp}` with a running `currentSize`
    and a byte budget `maxSize`. When an insertion would go over budget, the
    oldest 30% of the entries (by timestamp, ties in insertion order) are
    dropped first; the insertion then happens whatever the resulting size. */
module ImageCache {
  import opened Common
  import opened OrderedMap
  import Sorting

  /** 50 MB, the initial budget. */
  const DefaultMaxSize: int := 50 * 1024 * 1024

  datatype CachedImage = CachedImage(url: string, size: int, timestamp: int)

  type CacheEntry = Entry<string, CachedImage>

  /** `entries` is the `Map` in its iteration (insertion) order. */
  datatype Cache = Cache(entries: seq<CacheEntry>, maxSize: int, currentSize: int)

  function TimestampOf(x: CacheEntry): int { x.value.timestamp }

  function TotalSize(e: seq<CacheEntry>): int {
    if |e| == 0 then 0 else e[0].value.size + TotalSize(e[1..])
  }

  lemma {:induction false} TotalSizeAppend(a: seq<CacheEntry>, b: seq<CacheEntry>)
    ensures TotalSize(a + b) == TotalSize(a) + TotalSize(b)
  {
    if |a| == 0 {
      assert a + b == b;
    } else {
      assert (a + b)[1..] == a[1..] + b;
      TotalSizeAppend(a[1..], b);
    }
  }

  /** The bookkeeping the cache is meant to keep: no repeated key, and the
      running size is the sum of the stored sizes. */
  ghost predicate Consistent(c: Cache) {
    UniqueKeys(c.entries) && c.currentSize == TotalSize(c.entries)
  }

  /** Deleting the key of a stored entry removes exactly that entry. */
  lemma {:induction false} DeleteEntry(e: seq<CacheEntry>, v: CacheEntry)
    requires UniqueKeys(e)
    requires v in e
    ensures |Delete(e, v.key)| == |e| - 1
    ensures TotalSize(Delete(e, v.key)) == TotalSize(e) - v.value.size
  {
    assert UniqueKeys(e[1..]) by {
      forall i, j | 0 <= i < j < |e[1..]| ensures e[1..][i].key != e[1..][j].key {
        assert e[1..][i] == e[i + 1] && e[1..][j] == e[j + 1];
      }
    }
    if e[0] == v {
      assert Delete(e, v.key) == Without(e[1..], [v.key]);
      forall x | x in e[1..] ensures x.key !in [v.key] {
        var q :| 0 <= q < |e[1..]| && e[1..][q] == x;
        assert e[q + 1] == x;
      }
      WithoutNothing(e[1..], [v.key]);
    } else {
      var j :| 0 <= j < |e| && e[j] == v;
      assert j > 0;
      assert e[0].key != v.key;
      assert v in e[1..] by { assert e[1..][j - 1] == v; }
      DeleteEntry(e[1..], v);
    }
  }

  /** Deleting the keys of several distinct stored entries, one after the
      other, removes exactly those entries. */
  lemma {:induction false} WithoutEntries(e: seq<CacheEntry>, vs: seq<CacheEntry>)
    requires UniqueKeys(e)
    requires forall v :: v in vs ==> v in e
    requires Sorting.DistinctBy(vs, KeyOf)
    decreases |vs|
    ensures |Without(e, Keys(vs))| == |e| - |vs|
    ensures TotalSize(Without(e, Keys(vs))) == TotalSize(e) - TotalSize(vs)
  {
    if |vs| == 0 {
      WithoutNothing(e, Keys(vs));
    } else {
      var v, tail := vs[0], vs[1..];
      var d := Delete(e, v.key);
      DeleteEntry(e, v);
      WithoutUnique(e, [v.key]);
      Sorting.DistinctByTail(vs, KeyOf);
      forall w | w in tail ensures w in d {
        Sorting.DistinctByHead(vs, KeyOf, w);
      }
      WithoutEntries(d, tail);
      WithoutTwice(e, [v.key], Keys(tail));
      KeysCons(vs);
    }
  }

  /** `Math.ceil(n * 0.3)`, computed on integers. */
  function EvictCount(n: nat): (r: nat)
    ensures 10 * r >= 3 * n
    ensures 10 * (r - 1) < 3 * n
    ensures r <= n
    ensures r == 0 <==> n == 0
  {
    (3 * n + 9) / 10
  }

  /** The entries `cleanCache` visits: the first 30% after a stable sort by
      timestamp. */
  function Victims(e: seq<CacheEntry>): seq<CacheEntry> {
    Sorting.SortBy(e, TimestampOf)[..EvictCount(|e|)]
  }

  /** Deleting the first victim's key, then the others', deletes them all. */
  lemma EvictStep(e: seq<CacheEntry>, vs: seq<CacheEntry>)
    requires |vs| > 0
    ensures Without(Delete(e, vs[0].key), Keys(vs[1..])) == Without(e, Keys(vs))
  {
    WithoutTwice(e, [vs[0].key], Keys(vs[1..]));
    KeysCons(vs);
  }

  /** The eviction loop: delete each victim's key and subtract its size. */
  function Evict(e: seq<CacheEntry>, size: int, vs: seq<CacheEntry>): (r: (seq<CacheEntry>, int))
    ensures r.0 == Without(e, Keys(vs))
    ensures r.1 == size - TotalSize(vs)
    decreases |vs|
  {
    if |vs| == 0 then
      WithoutNothing(e, Keys(vs));
      (e, size)
    else
      EvictStep(e, vs);
      Evict(Delete(e, vs[0].key), size - vs[0].value.size, vs[1..])
  }

  /** `cleanCache`: the survivors are the entries whose key was not visited,
      in their order, and the running size drops by the victims' sizes. */
  function CleanCache(c: Cache): (r: Cache)
    ensures r.maxSize == c.maxSize
    ensures r.entries == Without(c.entries, Keys(Victims(c.entries)))
    ensures r.currentSize == c.currentSize - TotalSize(Victims(c.entries))
  {
    var (es, size) := Evict(c.entries, c.currentSize, Victims(c.entries));
    Cache(es, c.maxSize, size)
  }

  lemma VictimsFacts(e: seq<CacheEntry>)
    ensures |Victims(e)| == EvictCount(|e|)
    ensures forall v :: v in Victims(e) ==> v in e
    ensures UniqueKeys(e) ==> Sorting.DistinctBy(Victims(e), KeyOf)
  {
    var sorted := Sorting.SortBy(e, TimestampOf);
    forall v | v in Victims(e) ensures v in e {
      assert v in multiset(sorted);
    }
    if UniqueKeys(e) {
      Sorting.SortByDistinct(e, TimestampOf, KeyOf);
    }
  }

  /** On a consistent cache of n entries, cleaning removes exactly ceil(0.3 n)
      of them and keeps the bookkeeping consistent. */
  lemma CleanCacheCount(c: Cache)
    requires Consistent(c)
    ensures |CleanCache(c).entries| == |c.entries| - EvictCount(|c.entries|)
    ensures Consistent(CleanCache(c))
  {
    VictimsFacts(c.entries);
    WithoutEntries(c.entries, Victims(c.entries));
    WithoutUnique(c.entries, Keys(Victims(c.entries)));
  }

  /** A surviving entry sits after the evicted prefix of the sorted entries. */
  lemma SurvivorPosition(e: seq<CacheEntry>, s: CacheEntry) returns (p: nat)
    requires s in Without(e, Keys(Victims(e)))
    ensures EvictCount(|e|) <= p < |e|
    ensures Sorting.SortBy(e, TimestampOf)[p] == s
  {
    var sorted := Sorting.SortBy(e, TimestampOf);
    var vs := Victims(e);
    assert s.key !in Keys(vs);
    forall i | 0 <= i < |vs| ensures sorted[i] != s {
      assert Keys(vs)[i] == sorted[i].key;
    }
    assert s in multiset(sorted);
    p :| 0 <= p < |sorted| && sorted[p] == s;
  }

  /** Every surviving entry is at least as recent as every evicted one. */
  lemma CleanCacheOldestFirst(c: Cache)
    ensures forall v, s :: v in Victims(c.entries) && s in CleanCache(c).entries ==>
      v.value.timestamp <= s.value.timestamp
  {
    var e := c.entries;
    var sorted := Sorting.SortBy(e, TimestampOf);
    var vs := Victims(e);
    Sorting.SortBySorted(e, TimestampOf);
    forall v, s | v in vs && s in CleanCache(c).entries
      ensures v.value.timestamp <= s.value.timestamp
    {
      var p := SurvivorPosition(e, s);
      var i :| 0 <= i < |vs| && vs[i] == v;
      assert sorted[i] == v;
      assert TimestampOf(sorted[i]) <= TimestampOf(sorted[p]);
    }
  }

  /** Ties are broken by insertion order: among the entries that share one
      timestamp, the evicted ones are the earliest inserted. */
  lemma CleanCacheStable(e: seq<CacheEntry>, t: int)
    ensures Sorting.WithKey(Victims(e), TimestampOf, t)
         <= Sorting.WithKey(e, TimestampOf, t)
  {
    var sorted := Sorting.SortBy(e, TimestampOf);
    var k := EvictCount(|e|);
    assert sorted == sorted[..k] + sorted[k..];
    Sorting.WithKeyConcat(sorted[..k], sorted[k..], TimestampOf, t);
    Sorting.SortByStable(e, TimestampOf, t);
  }

  /** Setting a present key swaps one stored size for the new one. */
  lemma {:induction false} PutSize(e: seq<CacheEntry>, k: string, d: CachedImage)
    requires Lookup(e, k).Some?
    ensures TotalSize(Put(e, k, d)) == TotalSize(e) - Lookup(e, k).value.size + d.size
  {
    if e[0].key != k {
      PutSize(e[1..], k, d);
      assert Put(e, k, d)[1..] == Put(e[1..], k, d);
    }
  }

  /** `addToCache`: clean first when the new size would pass the budget, then
      set the key and add the size, without checking the budget again. */
  function AddToCache(c: Cache, k: string, d: CachedImage): (r: Cache)
    ensures r.maxSize == c.maxSize
    ensures Lookup(r.entries, k) == Some(d)
    ensures c.currentSize + d.size <= c.maxSize ==> r.currentSize == c.currentSize + d.size
    ensures c.currentSize + d.size > c.maxSize ==>
      r.currentSize == c.currentSize - TotalSize(Victims(c.entries)) + d.size
    ensures c.currentSize + d.size <= c.maxSize ==> r.entries == Put(c.entries, k, d)
    ensures c.currentSize + d.size > c.maxSize ==> r.entries == Put(CleanCache(c).entries, k, d)
    ensures forall k' :: k' != k ==>
      Lookup(r.entries, k') == (if c.currentSize + d.size > c.maxSize && k' in Keys(Victims(c.entries))
                                then None else Lookup(c.entries, k'))
  {
    LookupWithout(c.entries, Keys(Victims(c.entries)));
    var cleaned := if c.currentSize + d.size > c.maxSize then CleanCache(c) else c;
    Cache(Put(cleaned.entries, k, d), cleaned.maxSize, cleaned.currentSize + d.size)
  }

  /** Within budget nothing is evicted: every entry under another key stays. */
  lemma AddToCacheWithinBudget(c: Cache, k: string, d: CachedImage)
    requires c.currentSize + d.size <= c.maxSize
    ensures forall x :: x in c.entries && x.key != k ==> x in AddToCache(c, k, d).entries
  {
    PutKeeps(c.entries, k, d);
  }

  /** Adding a key that is not yet cached keeps the bookkeeping consistent. */
  lemma AddToCacheFresh(c: Cache, k: string, d: CachedImage)
    requires Consistent(c)
    requires Lookup(c.entries, k).None?
    ensures Consistent(AddToCache(c, k, d))
  {
    var cleaned := if c.currentSize + d.size > c.maxSize then CleanCache(c) else c;
    if c.currentSize + d.size > c.maxSize {
      CleanCacheCount(c);
    }
    assert Lookup(cleaned.entries, k).None?;
    PutUnique(cleaned.entries, k, d);
    TotalSizeAppend(cleaned.entries, [Entry(k, d)]);
  }

  /** Re-adding a cached key within budget replaces its entry but counts its
      size a second time: the running size overstates the stored sizes by the
      replaced entry's size. */
  lemma AddToCacheDoubleCounts(c: Cache, k: string, d: CachedImage, prev: CachedImage)
    requires Consistent(c)
    requires Lookup(c.entries, k) == Some(prev)
    requires c.currentSize + d.size <= c.maxSize
    ensures UniqueKeys(AddToCache(c, k, d).entries)
    ensures AddToCache(c, k, d).currentSize == TotalSize(AddToCache(c, k, d).entries) + prev.size
  {
    PutUnique(c.entries, k, d);
    PutSize(c.entries, k, d);
  }

  /** The budget is not re-checked after cleaning: a 4-byte entry in a 10-byte
      cache, then a 20-byte image, leaves 20 bytes accounted. */
  lemma AddToCacheMayExceedBudget()
    ensures var c := Cache([Entry("a", CachedImage("a", 4, 1))], 10, 4);
      AddToCache(c, "b", CachedImage("b", 20, 2)).currentSize > 10
  {
    var e := [Entry("a", CachedImage("a", 4, 1))];
    assert Sorting.SortBy(e, TimestampOf) == e;
    assert Victims(e) == e;
  }

  /** The attributes of an `<img>` that loading reads; "" stands for an absent
      (falsy) attribute. The browser would download an absent `data-src` as
      the text `undefined`; here the empty text is used as it is. */
  datatype ImageElement = ImageElement(src: string, dataSrc: string, dataSrcWebp: string)

  /** `img.dataset.src || img.src`. */
  function CacheKey(img: ImageElement): (k: string)
    ensures img.dataSrc != "" ==> k == img.dataSrc
    ensures img.dataSrc == "" ==> k == img.src
  {
    if img.dataSrc != "" then img.dataSrc else img.src
  }

  /** The address the element shows once the download finished: the WebP
      variant when there is one and the browser supports it, otherwise the
      original address (with or without a `srcset`). */
  function DisplayedSrc(img: ImageElement, supportsWebp: bool): string {
    if img.dataSrcWebp != "" && supportsWebp then img.dataSrcWebp else img.dataSrc
  }

  /** How the asynchronous download of a miss ends; the clock reading and the
      size estimate of a success are its inputs. */
  datatype Download = Loaded(size: int, now: int) | Failed

  datatype LoadResult = FromCache(url: string) | Shown(url: string) | Placeholder

  /** `loadImage`: a hit shows the cached address and changes nothing; a miss
      downloads `data-src` and, on success, caches what it showed under the
      cache key. */
  function LoadImage(c: Cache, img: ImageElement, supportsWebp: bool, download: Download)
    : (r: (LoadResult, Cache))
    ensures Lookup(c.entries, CacheKey(img)).Some? ==>
      r == (FromCache(Lookup(c.entries, CacheKey(img)).value.url), c)
    ensures Lookup(c.entries, CacheKey(img)).None? && download.Loaded? ==>
      r.0 == Shown(DisplayedSrc(img, supportsWebp)) &&
      Lookup(r.1.entries, CacheKey(img))
        == Some(CachedImage(DisplayedSrc(img, supportsWebp), download.size, download.now))
    ensures download.Failed? ==> r.1 == c
  {
    var key := CacheKey(img);
    match Lookup(c.entries, key)
    case Some(hit) => (FromCache(hit.url), c)
    case None =>
      match download
      case Failed => (Placeholder, c)
      case Loaded(size, now) =>
        var shown := DisplayedSrc(img, supportsWebp);
        (Shown(shown), AddToCache(c, key, CachedImage(shown, size, now)))
  }

  /** Once a download has completed, loading the same element again is a hit
      that shows the same address and leaves the cache as it is. */
  lemma LoadImageThenHit(c: Cache, img: ImageElement, supportsWebp: bool, size: int, now: int,
                         again: Download)
    requires Lookup(c.entries, CacheKey(img)).None?
    ensures var (first, c1) := LoadImage(c, img, supportsWebp, Loaded(size, now));
      LoadImage(c1, img, supportsWebp, again) == (FromCache(DisplayedSrc(img, supportsWebp)), c1)
  {
  }

  /** `clearCache`. */
  function ClearCache(c: Cache): (r: Cache)
    ensures Consistent(r)
    ensures r.maxSize == c.maxSize
    ensures forall k :: Lookup(r.entries, k).None?
  {
    Cache([], c.maxSize, 0)
  }

  /** `preloadImages`: the addresses that start a download are exactly the
      ones not cached, in their order. */
  function PreloadUrls(c: Cache, urls: seq<string>): (r: seq<string>)
    ensures forall u :: u in r <==> u in urls && Lookup(c.entries, u).None?
    ensures |r| <= |urls|
  {
    if |urls| == 0 then []
    else (if Lookup(c.entries, urls[0]).None? then [urls[0]] else []) + PreloadUrls(c, urls[1..])
  }

  /** The test `!this.cache.images.has(url)`. */
  function Uncached(c: Cache): string -> bool {
    u => Lookup(c.entries, u).None?
  }

  /** Preloading is the `filter` of the uncached addresses: their order is
      kept, and an uncached address listed twice starts two downloads, since
      every test runs before any download completes. */
  lemma {:induction false} PreloadFilters(c: Cache, urls: seq<string>)
    ensures PreloadUrls(c, urls) == Filter(urls, Uncached(c))
    ensures forall u :: Lookup(c.entries, u).None? ==>
      multiset(PreloadUrls(c, urls))[u] == multiset(urls)[u]
    ensures forall u :: Lookup(c.entries, u).Some? ==> multiset(PreloadUrls(c, urls))[u] == 0
  {
    if |urls| > 0 {
      PreloadFilters(c, urls[1..]);
      assert urls == [urls[0]] + urls[1..];
    }
  }

  /** JavaScript's `a || b`: the first non-zero value. */
  function OrElse(a: nat, b: nat): (r: nat)
    ensures r == 0 ==> a == 0 && b == 0
  {
    if a != 0 then a else b
  }

  /** `estimateImageSize`: half a byte per pixel, rounded half up, falling back
      to 300 x 400 for unknown dimensions. */
  function EstimateImageSize(naturalWidth: nat, width: nat, naturalHeight: nat, height: nat)
    : (r: nat)
    ensures var w := OrElse(OrElse(naturalWidth, width), 300);
            var h := OrElse(OrElse(naturalHeight, height), 400);
            2 * r - 1 <= w * h <= 2 * r
  {
    var w := OrElse(OrElse(naturalWidth, width), 300);
    var h := OrElse(OrElse(naturalHeight, height), 400);
    (w * h + 1) / 2
  }

  lemma EstimateUnknownImage()
    ensures EstimateImageSize(0, 0, 0, 0) == 60000
  {
  }
}
