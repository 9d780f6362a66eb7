/** `ThumbnailModel`: the bounded page-to-thumbnail cache behind the
    thumbnail strip, with its generator requests, eviction, preloading and
    viewport priorities. The generator is modelled by the list of requests it
    has received; the wall clock by a `now` argument (milliseconds). */
module Thumbnails {
  import opened Common
  import opened ThumbnailEntries
  import opened ThumbnailPolicy

  /** `setMemoryLimit` never goes below 1 MiB. */
  const MIN_MEMORY_LIMIT := 1024 * 1024
  /** `adaptCacheSize` runs at most once per 30 seconds. */
  const ADAPT_INTERVAL_MS := 30000
  /** Priority of a page the priority table does not mention. */
  const DEFAULT_PRIORITY := 5

  /** One `generateThumbnail(page, size, quality, priority)` call. */
  datatype GenerationRequest = GenerationRequest(page: int, width: int, height: int, quality: real, priority: int)

  /** The entries, the access-frequency table and the generator calls. */
  datatype CacheView = CacheView(entries: map<int, Entry>, frequency: map<int, int>, calls: seq<GenerationRequest>)

  class ThumbnailModel {
    var document: Option<Document>
    var thumbnailWidth: int
    var thumbnailHeight: int
    var thumbnailQuality: real
    var thumbnails: map<int, Entry>
    var maxCacheSize: int
    var maxMemory: int
    var currentMemory: int
    var cacheHits: nat
    var cacheMisses: nat
    var accessFrequency: map<int, int>
    var preloadQueue: set<int>
    var preloadRange: int
    var pagePriorities: map<int, int>
    var visibleStart: int
    var visibleEnd: int
    var viewportMargin: int
    var lazyLoadingEnabled: bool
    var adaptiveCaching: bool
    var lastCleanupTime: int
    /** Every call made to the thumbnail generator, oldest first. */
    var requests: seq<GenerationRequest>

    /** Keys are page numbers, every entry is well formed, and the entry limit is positive. */
    ghost predicate Valid()
      reads this`maxCacheSize, this`thumbnails
    {
      && maxCacheSize >= 1
      && forall k :: k in thumbnails ==> k >= 0 && WellFormed(thumbnails[k])
    }

    /** How far `m_currentMemory` is from the bytes the entries actually hold. */
    ghost function Drift(): int
      reads this`currentMemory, this`thumbnails
    {
      currentMemory - TotalMemory(thumbnails)
    }

    /** The default sizes and limits live in the class header, which is not
        part of this model, so they are parameters here. */
    constructor (width: int, height: int, quality: real, cacheSize: int, memoryLimit: int, defaultPreloadRange: int)
      requires cacheSize >= 1
      ensures Valid() && Drift() == 0
      ensures document == None && thumbnails == map[] && requests == []
      ensures thumbnailWidth == width && thumbnailHeight == height && thumbnailQuality == quality
      ensures maxCacheSize == cacheSize && maxMemory == memoryLimit && currentMemory == 0
      ensures cacheHits == 0 && cacheMisses == 0 && accessFrequency == map[]
      ensures preloadQueue == {} && preloadRange == defaultPreloadRange && pagePriorities == map[]
      ensures visibleStart == -1 && visibleEnd == -1 && viewportMargin == 2
      ensures lazyLoadingEnabled && adaptiveCaching && lastCleanupTime == 0
    {
      document := None;
      thumbnailWidth, thumbnailHeight, thumbnailQuality := width, height, quality;
      thumbnails := map[];
      maxCacheSize, maxMemory, currentMemory := cacheSize, memoryLimit, 0;
      cacheHits, cacheMisses := 0, 0;
      accessFrequency := map[];
      preloadQueue, preloadRange := {}, defaultPreloadRange;
      pagePriorities := map[];
      visibleStart, visibleEnd, viewportMargin := -1, -1, 2;
      lazyLoadingEnabled, adaptiveCaching := true, true;
      lastCleanupTime := 0;
      requests := [];
      new;
      assert thumbnails == map[];
      SumOverZero(thumbnails, {});
    }

    // ----- queries -----

    /** The page exists in the open document. */
    predicate InDocument(page: int)
      reads this`document
    {
      document.Some? && 0 <= page < document.value.numPages
    }

    /** `isInViewport`: with no viewport set every page passes; otherwise
        the visible range widened by the margin, clamped at page 0. */
    predicate IsInViewport(page: int)
      reads this`visibleStart, this`visibleEnd, this`viewportMargin
    {
      InViewport(visibleStart, visibleEnd, viewportMargin, page)
    }

    /** `shouldGenerateThumbnail`: lazy loading only lets viewport pages through. */
    predicate ShouldGenerateThumbnail(page: int)
      reads this`lazyLoadingEnabled, this`visibleStart, this`visibleEnd, this`viewportMargin
    {
      !lazyLoadingEnabled || IsInViewport(page)
    }

    /** What `isInViewport` lets through: every page while no viewport is
        set; every visible page when the margin is not negative; and only
        pages of [max(0, start - margin), end + margin] once a viewport is set. */
    lemma ViewportGate(page: int)
      ensures visibleStart < 0 || visibleEnd < 0 ==> IsInViewport(page)
      ensures 0 <= visibleStart <= page <= visibleEnd && viewportMargin >= 0 ==> IsInViewport(page)
      ensures IsInViewport(page) && visibleStart >= 0 && visibleEnd >= 0 ==>
                0 <= page && visibleStart - viewportMargin <= page <= visibleEnd + viewportMargin
    {
    }

    /** What `shouldGenerateThumbnail` lets through: every page without lazy
        loading or without a viewport; under lazy loading with a viewport,
        only pages of [0, end + margin]. */
    lemma GenerationGate(page: int)
      ensures !lazyLoadingEnabled || visibleStart < 0 || visibleEnd < 0 ==> ShouldGenerateThumbnail(page)
      ensures ShouldGenerateThumbnail(page) && lazyLoadingEnabled && visibleStart >= 0 && visibleEnd >= 0 ==>
                0 <= page <= visibleEnd + viewportMargin
    {
    }

    /** `calculatePriority`: the table value, or 5 when the table has none. */
    function CalculatePriority(page: int): int
      reads this`pagePriorities
    {
      if page in pagePriorities then pagePriorities[page] else DEFAULT_PRIORITY
    }

    /** Once the table is rebuilt for the current viewport, a visible page
        has priority 0, a margin page 1 and every other page 5; for a set
        viewport with a non-negative margin, exactly the document pages that
        pass the viewport gate are ranked above the default. */
    lemma PriorityFollowsViewport(numPages: int, page: int)
      requires IsViewportTable(pagePriorities, numPages)
      ensures VisiblePage(visibleStart, visibleEnd, numPages, page) ==> CalculatePriority(page) == 0
      ensures (!VisiblePage(visibleStart, visibleEnd, numPages, page)
               && MarginPage(visibleStart, visibleEnd, viewportMargin, numPages, page)) ==> CalculatePriority(page) == 1
      ensures (!VisiblePage(visibleStart, visibleEnd, numPages, page)
               && !MarginPage(visibleStart, visibleEnd, viewportMargin, numPages, page)) ==> CalculatePriority(page) == DEFAULT_PRIORITY
      ensures 0 <= visibleStart <= visibleEnd && viewportMargin >= 0 && 0 <= page < numPages ==>
                (CalculatePriority(page) < DEFAULT_PRIORITY <==> IsInViewport(page))
    {
      if 0 <= visibleStart <= visibleEnd && viewportMargin >= 0 && 0 <= page < numPages {
        PrioritisedIffInViewport(visibleStart, visibleEnd, viewportMargin, numPages, page);
      }
    }

    /** The generator call `requestThumbnail(page)` makes. */
    function RequestFor(page: int): GenerationRequest
      reads this`thumbnailWidth, this`thumbnailHeight, this`thumbnailQuality, this`pagePriorities
    {
      GenerationRequest(page, thumbnailWidth, thumbnailHeight, thumbnailQuality, CalculatePriority(page))
    }

    /** `isLoading` (also `isThumbnailLoading` and the loading role). A page
        in flight has never failed as well. */
    predicate IsLoading(page: int)
      reads this`thumbnails, this`maxCacheSize
      ensures Valid() && IsLoading(page) ==> page in thumbnails && !thumbnails[page].hasError
    {
      page in thumbnails && thumbnails[page].isLoading
    }

    /** `hasError` (also the error role). A failed page is not in flight. */
    predicate HasError(page: int)
      reads this`thumbnails, this`maxCacheSize
      ensures Valid() && HasError(page) ==> page in thumbnails && !thumbnails[page].isLoading
    {
      page in thumbnails && thumbnails[page].hasError
    }

    /** `errorMessage` (also the error-message role). Only a failed page
        reports a message. */
    function ErrorMessage(page: int): (message: string)
      reads this`thumbnails, this`maxCacheSize
      ensures Valid() && !HasError(page) ==> message == ""
    {
      if page in thumbnails then thumbnails[page].errorMessage else ""
    }

    /** `hasCachedThumbnail`. A page has a cached thumbnail exactly when its
        entry holds bytes in the memory accounting. */
    predicate HasCachedThumbnail(page: int)
      reads this`thumbnails, this`maxCacheSize
      ensures Valid() ==> (HasCachedThumbnail(page) <==> page in thumbnails && thumbnails[page].memorySize > 0)
    {
      page in thumbnails && !thumbnails[page].pixmap.IsNull()
    }

    /** `shouldPreload`: a document page with no entry, or with an entry that
        has no pixmap, is not loading and has not failed. These are exactly the
        document pages a range request would ask for, less the failed ones. */
    predicate ShouldPreload(page: int)
      reads this`document, this`thumbnails, this`maxCacheSize
      ensures ShouldPreload(page) <==> InDocument(page) && NeedsGeneration(thumbnails, page) && !HasError(page)
    {
      && InDocument(page)
      && (page !in thumbnails
          || (thumbnails[page].pixmap.IsNull() && !thumbnails[page].isLoading && !thumbnails[page].hasError))
    }

    /** The part of the state `requestThumbnail` changes. */
    function View(): CacheView
      reads this`thumbnails, this`accessFrequency, this`requests
    {
      CacheView(thumbnails, accessFrequency, requests)
    }

    /** The full effect of `requestThumbnail(page)` at time `now`, taking
        `before` to `after`: the gate, then the three cases of an entry that
        is cached, loading, or in need of a generator call. */
    ghost predicate RequestOutcome(page: int, now: int, before: CacheView, after: CacheView)
      reads this`document, this`lazyLoadingEnabled, this`visibleStart, this`visibleEnd, this`viewportMargin, this`thumbnailWidth, this`thumbnailHeight, this`thumbnailQuality, this`pagePriorities, this`maxCacheSize
    {
      var entries := before.entries;
      var gate := InDocument(page) && ShouldGenerateThumbnail(page);
      && (!gate ==> after == before)
      && (gate && page in entries && !entries[page].pixmap.IsNull() ==>
            after == CacheView(entries[page := entries[page].(lastAccessed := now)],
                               AfterAccess(before.frequency, page, maxCacheSize), before.calls))
      && (gate && page in entries && entries[page].pixmap.IsNull() && entries[page].isLoading ==>
            after == before)
      && (gate && NeedsGeneration(entries, page) ==>
            after == CacheView(entries[page := StartLoading(EntryOrNew(entries, page), now)],
                               before.frequency, before.calls + [RequestFor(page)]))
    }

    /** A second request for the same page right after the first makes no
        further generator call: the first left the page cached or loading (or
        the gate rejects both), so the two together make at most one call. */
    lemma RepeatedRequestCallsOnce(page: int, now1: int, now2: int, a: CacheView, b: CacheView, c: CacheView)
      requires RequestOutcome(page, now1, a, b) && RequestOutcome(page, now2, b, c)
      ensures c.calls == b.calls
      ensures |c.calls| <= |a.calls| + 1
      ensures c.entries.Keys == b.entries.Keys
    {
    }

    // ----- access bookkeeping -----

    /** `updateAccessFrequency`: count one access, then, if the table has
        grown past twice the entry limit, erase every count of at most one. */
    method UpdateAccessFrequency(page: int)
      modifies this`accessFrequency
      ensures accessFrequency == AfterAccess(old(accessFrequency), page, maxCacheSize)
    {
      accessFrequency := accessFrequency[page := FrequencyOf(accessFrequency, page) + 1];
      if |accessFrequency| > maxCacheSize * 2 {
        ghost var bumped := accessFrequency;
        var pending := accessFrequency.Keys;
        while pending != {}
          invariant pending <= accessFrequency.Keys <= bumped.Keys
          invariant forall k :: k in accessFrequency ==> accessFrequency[k] == bumped[k]
          invariant forall k :: k in bumped && k !in pending ==> (k in accessFrequency <==> bumped[k] > 1)
          invariant forall k :: k in pending ==> k in accessFrequency
          decreases pending
        {
          HasElement(pending);
          var k :| k in pending;
          if accessFrequency[k] <= 1 {
            accessFrequency := accessFrequency - {k};
          }
          pending := pending - {k};
        }
        ghost var pruned := map k | k in bumped && bumped[k] > 1 :: bumped[k];
        forall k | k in bumped
          ensures k in accessFrequency <==> k in pruned
        {
        }
        forall k | k in accessFrequency
          ensures accessFrequency[k] == pruned[k]
        {
        }
        assert accessFrequency.Keys == pruned.Keys;
      }
    }

    // ----- requests -----

    /** `requestThumbnail`: a page outside the document, or outside the
        viewport under lazy loading, is ignored; a cached page only has its
        access time and frequency refreshed; a loading page is left alone;
        otherwise the entry (created if missing) starts loading with its error
        cleared and one call goes to the generator. */
    method RequestThumbnail(page: int, now: int)
      requires Valid()
      modifies this`thumbnails, this`accessFrequency, this`requests
      ensures Valid() && Drift() == old(Drift())
      ensures RequestOutcome(page, now, old(View()), View())
      ensures InDocument(page) && ShouldGenerateThumbnail(page) ==>
                page in thumbnails && !NeedsGeneration(thumbnails, page)
    {
      if !InDocument(page) {
        return;
      }
      if lazyLoadingEnabled && !ShouldGenerateThumbnail(page) {
        return;
      }
      if page in thumbnails {
        var item := thumbnails[page];
        if !item.pixmap.IsNull() {
          var cached := TouchEntry(page, now);
          return;
        }
        if item.isLoading {
          return;
        }
        // a failed entry is retried: StartLoading clears its error
      }
      StartGeneration(page, now);
    }

    /** The last step of `requestThumbnail`: the entry (created if missing)
        starts loading and one call goes to the generator. */
    method StartGeneration(page: int, now: int)
      requires Valid() && page >= 0
      modifies this`thumbnails, this`requests
      ensures Valid() && Drift() == old(Drift())
      ensures thumbnails == old(thumbnails)[page := StartLoading(EntryOrNew(old(thumbnails), page), now)]
      ensures requests == old(requests) + [RequestFor(page)]
      ensures page in thumbnails && !NeedsGeneration(thumbnails, page)
    {
      var item := StartLoading(EntryOrNew(thumbnails, page), now);
      TotalMemoryStore(thumbnails, page, item);
      thumbnails := thumbnails[page := item];
      requests := requests + [RequestFor(page)];
    }

    /** The calls `requestThumbnailRange(lo, hi)` makes from `before`, in page order. */
    ghost function RangeRequests(lo: int, hi: int, before: map<int, Entry>): seq<GenerationRequest>
      reads this`lazyLoadingEnabled, this`visibleStart, this`visibleEnd, this`viewportMargin, this`thumbnailWidth, this`thumbnailHeight, this`thumbnailQuality, this`pagePriorities
      decreases hi - lo
    {
      if hi <= lo then []
      else
        RangeRequests(lo, hi - 1, before)
        + (if Requestable(before, hi - 1) then [RequestFor(hi - 1)] else [])
    }

    /** Within the range, `requestThumbnailRange` issues a call for `page`
        when `before` lacks its thumbnail and the gate lets it through. */
    ghost predicate Requestable(before: map<int, Entry>, page: int)
      reads this`lazyLoadingEnabled, this`visibleStart, this`visibleEnd, this`viewportMargin
    {
      ShouldGenerateThumbnail(page) && NeedsGeneration(before, page)
    }

    /** The entries after `requestThumbnailRange(lo, hi)` from `before`: every
        requested page starts loading, every other entry is unchanged. */
    ghost function RangeEntries(lo: int, hi: int, before: map<int, Entry>, now: int): map<int, Entry>
      reads this`lazyLoadingEnabled, this`visibleStart, this`visibleEnd, this`viewportMargin
      decreases hi - lo
    {
      if hi <= lo then before
      else
        var m := RangeEntries(lo, hi - 1, before, now);
        if Requestable(before, hi - 1) then m[hi - 1 := StartLoading(EntryOrNew(before, hi - 1), now)] else m
    }

    /** Pages outside [lo, hi) keep their entry, or stay absent. */
    lemma {:induction false} RangeEntriesOutside(lo: int, hi: int, before: map<int, Entry>, now: int, p: int)
      requires p < lo || hi <= p
      ensures p in RangeEntries(lo, hi, before, now) <==> p in before
      ensures p in before ==> RangeEntries(lo, hi, before, now)[p] == before[p]
      decreases hi - lo
    {
      if lo < hi {
        RangeEntriesOutside(lo, hi - 1, before, now, p);
      }
    }

    /** Every page of the range that passes the gate ends up cached or
        loading, and no entry of `before` is dropped. */
    lemma {:induction false} RangeEntriesCover(lo: int, hi: int, before: map<int, Entry>, now: int)
      ensures forall p :: lo <= p < hi && ShouldGenerateThumbnail(p) ==>
                p in RangeEntries(lo, hi, before, now) && !NeedsGeneration(RangeEntries(lo, hi, before, now), p)
      ensures before.Keys <= RangeEntries(lo, hi, before, now).Keys
      decreases hi - lo
    {
      if lo < hi {
        RangeEntriesCover(lo, hi - 1, before, now);
        RangeEntriesOutside(lo, hi - 1, before, now, hi - 1);
      }
    }

    /** `requestThumbnailRange`: clamps the range to the document and requests
        each page that has no entry or an entry with neither pixmap nor load in
        flight. Pages that are cached or loading are left untouched, and each
        page gets at most one generator call, in increasing page order. */
    method RequestThumbnailRange(startPage: int, endPage: int, now: int)
      requires Valid()
      modifies this`thumbnails, this`accessFrequency, this`requests
      ensures Valid() && Drift() == old(Drift())
      ensures accessFrequency == old(accessFrequency)
      ensures document.None? ==> thumbnails == old(thumbnails) && requests == old(requests)
      ensures document.Some? ==>
                var lo := Max(0, startPage);
                var hi := Min(document.value.numPages - 1, endPage) + 1;
                && requests == old(requests) + RangeRequests(lo, hi, old(thumbnails))
                && thumbnails == RangeEntries(lo, hi, old(thumbnails), now)
                && (forall p :: lo <= p < hi && ShouldGenerateThumbnail(p) ==>
                      p in thumbnails && !NeedsGeneration(thumbnails, p))
    {
      if document.None? {
        return;
      }
      var lo := Max(0, startPage);
      var hi := Min(document.value.numPages - 1, endPage) + 1;
      RequestPages(lo, hi, now);
      RangeEntriesCover(lo, hi, old(thumbnails), now);
    }

    /** The loop of `requestThumbnailRange` over the pages of [lo, end). */
    method RequestPages(lo: int, end: int, now: int)
      requires Valid() && document.Some? && 0 <= lo && end <= document.value.numPages
      modifies this`thumbnails, this`accessFrequency, this`requests
      ensures Valid() && Drift() == old(Drift())
      ensures accessFrequency == old(accessFrequency)
      ensures requests == old(requests) + RangeRequests(lo, end, old(thumbnails))
      ensures thumbnails == RangeEntries(lo, end, old(thumbnails), now)
    {
      var before := thumbnails;
      ghost var issued := requests;
      var i := lo;
      while i < end
        invariant lo <= i && (i <= end || i == lo)
        invariant Valid() && Drift() == old(Drift())
        invariant accessFrequency == old(accessFrequency)
        invariant requests == issued + RangeRequests(lo, i, before)
        invariant thumbnails == RangeEntries(lo, i, before, now)
      {
        RequestRangePage(lo, i, before, issued, now);
        i := i + 1;
      }
    }

    /** One iteration of the loop of `requestThumbnailRange`: page `i` is
        requested when it needs a generator call. */
    method RequestRangePage(lo: int, i: int, before: map<int, Entry>, ghost issued: seq<GenerationRequest>, now: int)
      requires Valid() && lo <= i && InDocument(i)
      requires thumbnails == RangeEntries(lo, i, before, now)
      requires requests == issued + RangeRequests(lo, i, before)
      modifies this`thumbnails, this`accessFrequency, this`requests
      ensures Valid() && Drift() == old(Drift()) && accessFrequency == old(accessFrequency)
      ensures thumbnails == RangeEntries(lo, i + 1, before, now)
      ensures requests == issued + RangeRequests(lo, i + 1, before)
    {
      AppendAssociates(issued, RangeRequests(lo, i, before), if Requestable(before, i) then [RequestFor(i)] else []);
      RangeEntriesOutside(lo, i, before, now, i);
      var needRequest := NeedsGeneration(thumbnails, i);
      assert needRequest == NeedsGeneration(before, i);
      assert EntryOrNew(thumbnails, i) == EntryOrNew(before, i);
      if needRequest {
        RequestThumbnail(i, now);
      }
    }

    /** `data(index, PixmapRole)`: a document page with a cached pixmap is a
        hit and returns it; any other document page is a miss and is
        requested. An existing entry has its access time and frequency
        refreshed either way. */
    method DataPixmap(page: int, now: int) returns (r: Option<Pixmap>)
      requires Valid()
      modifies this`thumbnails, this`accessFrequency, this`requests, this`cacheHits, this`cacheMisses
      ensures Valid() && Drift() == old(Drift())
      ensures r.Some? <==> InDocument(page) && page in old(thumbnails) && !old(thumbnails)[page].pixmap.IsNull()
      ensures !InDocument(page) ==>
                && thumbnails == old(thumbnails) && accessFrequency == old(accessFrequency)
                && requests == old(requests) && cacheHits == old(cacheHits) && cacheMisses == old(cacheMisses)
      ensures r.Some? ==>
                && r.value == old(thumbnails)[page].pixmap
                && cacheHits == old(cacheHits) + 1 && cacheMisses == old(cacheMisses)
                && thumbnails == old(thumbnails)[page := old(thumbnails)[page].(lastAccessed := now)]
                && accessFrequency == AfterAccess(old(accessFrequency), page, maxCacheSize)
                && requests == old(requests)
      ensures InDocument(page) && r.None? ==>
                && cacheMisses == old(cacheMisses) + 1 && cacheHits == old(cacheHits)
                && RequestOutcome(page, now, Touched(old(View()), page, now, maxCacheSize), View())
                && requests == old(requests) +
                     (if ShouldGenerateThumbnail(page) && NeedsGeneration(old(thumbnails), page)
                      then [RequestFor(page)] else [])
                && (ShouldGenerateThumbnail(page) ==> page in thumbnails && !NeedsGeneration(thumbnails, page))
    {
      if !InDocument(page) {
        return None;
      }
      var cached := TouchEntry(page, now);
      if cached.Some? {
        cacheHits := cacheHits + 1;
        return cached;
      }
      CountMissAndRequest(page, now, old(View()));
      return None;
    }

    /** The miss path of `data(index, PixmapRole)` once `before` has been
        touched: one more miss, then the page is requested. */
    method CountMissAndRequest(page: int, now: int, ghost before: CacheView)
      requires Valid() && InDocument(page)
      requires View() == Touched(before, page, now, maxCacheSize)
      modifies this`thumbnails, this`accessFrequency, this`requests, this`cacheMisses
      ensures Valid() && Drift() == old(Drift())
      ensures cacheMisses == old(cacheMisses) + 1
      ensures RequestOutcome(page, now, Touched(before, page, now, maxCacheSize), View())
      ensures requests == before.calls +
                (if ShouldGenerateThumbnail(page) && NeedsGeneration(before.entries, page)
                 then [RequestFor(page)] else [])
      ensures ShouldGenerateThumbnail(page) ==> page in thumbnails && !NeedsGeneration(thumbnails, page)
    {
      assert NeedsGeneration(thumbnails, page) == NeedsGeneration(before.entries, page);
      cacheMisses := cacheMisses + 1;
      RequestThumbnail(page, now);
    }

    /** The first step of `data(index, PixmapRole)`: an existing entry has its
        access time and frequency refreshed; its pixmap, if any, is returned. */
    method TouchEntry(page: int, now: int) returns (cached: Option<Pixmap>)
      requires Valid()
      modifies this`thumbnails, this`accessFrequency
      ensures Valid() && Drift() == old(Drift())
      ensures cached.Some? <==> page in old(thumbnails) && !old(thumbnails)[page].pixmap.IsNull()
      ensures cached.Some? ==> cached.value == old(thumbnails)[page].pixmap
      ensures View() == Touched(old(View()), page, now, maxCacheSize)
    {
      if page !in thumbnails {
        return None;
      }
      var item := thumbnails[page];
      TotalMemoryStore(thumbnails, page, item.(lastAccessed := now));
      thumbnails := thumbnails[page := item.(lastAccessed := now)];
      UpdateAccessFrequency(page);
      if !item.pixmap.IsNull() {
        return Some(item.pixmap);
      }
      return None;
    }

    /** `data(index, PageSizeRole)`: a cached non-empty page size is returned;
        otherwise, when the document yields the page, its size (`pageSize`) is
        stored in the entry, creating a default entry if there was none. */
    method DataPageSize(page: int, pageSize: PageSize) returns (r: Option<PageSize>)
      requires Valid()
      modifies this`thumbnails
      ensures Valid() && Drift() == old(Drift())
      ensures !InDocument(page) ==> r == None && thumbnails == old(thumbnails)
      ensures InDocument(page) && page in old(thumbnails) && !old(thumbnails)[page].pageSize.IsEmpty() ==>
                r == Some(old(thumbnails)[page].pageSize) && thumbnails == old(thumbnails)
      ensures InDocument(page) && !(page in old(thumbnails) && !old(thumbnails)[page].pageSize.IsEmpty()) ==>
                if page in document.value.loadable then
                  && r == Some(pageSize)
                  && thumbnails == old(thumbnails)[page := EntryOrNew(old(thumbnails), page).(pageSize := pageSize)]
                else
                  r == None && thumbnails == old(thumbnails)
    {
      if !InDocument(page) {
        return None;
      }
      if page in thumbnails && !thumbnails[page].pageSize.IsEmpty() {
        return Some(thumbnails[page].pageSize);
      }
      if page in document.value.loadable {
        var item := EntryOrNew(thumbnails, page).(pageSize := pageSize);
        TotalMemoryStore(thumbnails, page, item);
        thumbnails := thumbnails[page := item];
        return Some(pageSize);
      }
      return None;
    }

    // ----- generator callbacks -----

    /** `onThumbnailGenerated`: a completion for a page with no entry is
        dropped. Otherwise the entry takes the pixmap and its size, and that
        size is added to the memory counter without subtracting what the
        entry held before, so a second completion for a page that already
        holds a pixmap leaves the counter above the real total (`Drift`
        grows by the old size); then entries are evicted by the adaptive
        policy while memory exceeds the limit and more than one entry remains. */
    method OnThumbnailGenerated(page: int, pixmap: Pixmap, now: int)
      requires Valid()
      modifies this`thumbnails, this`currentMemory, this`accessFrequency
      ensures Valid()
      ensures page !in old(thumbnails) ==>
                thumbnails == old(thumbnails) && currentMemory == old(currentMemory)
                && accessFrequency == old(accessFrequency)
      ensures page in old(thumbnails) ==>
                && currentMemory == old(currentMemory) + PixmapMemory(pixmap) - TotalEvicted(old(thumbnails), page, pixmap, now)
                && Drift() == old(Drift()) + old(thumbnails)[page].memorySize
                && (currentMemory <= maxMemory || |thumbnails| == 1)
                && thumbnails != map[]
                && (forall k :: k in thumbnails ==>
                      && k in old(thumbnails)
                      && thumbnails[k] == if k == page then Completed(old(thumbnails)[page], pixmap, now)
                                          else old(thumbnails)[k])
                && (forall k :: k in accessFrequency ==> k in old(accessFrequency) && accessFrequency[k] == old(accessFrequency)[k])
                && EvictedByPolicy(PrefersLru(adaptiveCaching, cacheHits, cacheMisses),
                                   old(thumbnails)[page := Completed(old(thumbnails)[page], pixmap, now)],
                                   old(accessFrequency), thumbnails)
      ensures page in old(thumbnails)
              && (old(currentMemory) + PixmapMemory(pixmap) <= maxMemory || |old(thumbnails)| == 1) ==>
                && thumbnails == old(thumbnails)[page := Completed(old(thumbnails)[page], pixmap, now)]
                && currentMemory == old(currentMemory) + PixmapMemory(pixmap)
                && accessFrequency == old(accessFrequency)
    {
      if page !in thumbnails {
        return;
      }
      TotalMemoryStore(thumbnails, page, Completed(thumbnails[page], pixmap, now));
      thumbnails := thumbnails[page := Completed(thumbnails[page], pixmap, now)];
      currentMemory := currentMemory + PixmapMemory(pixmap);
      EvictWhileOverMemory();
    }

    /** `onThumbnailGenerated` with the replaced entry's bytes subtracted
        before the new ones are added: the memory counter stays exact
        (`Drift` is unchanged) however many completions arrive for a page. */
    method OnThumbnailGeneratedCorrected(page: int, pixmap: Pixmap, now: int)
      requires Valid()
      modifies this`thumbnails, this`currentMemory, this`accessFrequency
      ensures Valid() && Drift() == old(Drift())
      ensures page !in old(thumbnails) ==>
                thumbnails == old(thumbnails) && currentMemory == old(currentMemory)
                && accessFrequency == old(accessFrequency)
      ensures page in old(thumbnails) ==>
                && currentMemory == old(currentMemory) - old(thumbnails)[page].memorySize + PixmapMemory(pixmap)
                                    - TotalEvicted(old(thumbnails), page, pixmap, now)
                && (currentMemory <= maxMemory || |thumbnails| == 1)
                && thumbnails != map[]
                && (forall k :: k in thumbnails ==>
                      && k in old(thumbnails)
                      && thumbnails[k] == if k == page then Completed(old(thumbnails)[page], pixmap, now)
                                          else old(thumbnails)[k])
                && (forall k :: k in accessFrequency ==> k in old(accessFrequency) && accessFrequency[k] == old(accessFrequency)[k])
                && EvictedByPolicy(PrefersLru(adaptiveCaching, cacheHits, cacheMisses),
                                   old(thumbnails)[page := Completed(old(thumbnails)[page], pixmap, now)],
                                   old(accessFrequency), thumbnails)
      ensures page in old(thumbnails)
              && (old(currentMemory) - old(thumbnails)[page].memorySize + PixmapMemory(pixmap) <= maxMemory
                  || |old(thumbnails)| == 1) ==>
                && thumbnails == old(thumbnails)[page := Completed(old(thumbnails)[page], pixmap, now)]
                && currentMemory == old(currentMemory) - old(thumbnails)[page].memorySize + PixmapMemory(pixmap)
                && accessFrequency == old(accessFrequency)
    {
      if page !in thumbnails {
        return;
      }
      TotalMemoryStore(thumbnails, page, Completed(thumbnails[page], pixmap, now));
      currentMemory := currentMemory - thumbnails[page].memorySize + PixmapMemory(pixmap);
      thumbnails := thumbnails[page := Completed(thumbnails[page], pixmap, now)];
      EvictWhileOverMemory();
    }

    /** Two completions for page 0 with a 10x10 pixmap: the entries hold 400
        bytes after either one, but the counter as `onThumbnailGenerated`
        keeps it has grown by 400 twice. */
    static lemma SecondCompletionOvercounts()
      ensures var first := Completed(StartLoading(NewEntry, 0), Pixmap(10, 10), 1);
              var second := Completed(first, Pixmap(10, 10), 2);
              && TotalMemory(map[0 := first]) == 400
              && TotalMemory(map[0 := first][0 := second]) == 400
              && TotalMemory(map[0 := first]) + PixmapMemory(second.pixmap) == 800
    {
      var first := Completed(StartLoading(NewEntry, 0), Pixmap(10, 10), 1);
      var second := Completed(first, Pixmap(10, 10), 2);
      TotalMemoryStore(map[], 0, first);
      TotalMemoryStore(map[0 := first], 0, second);
      SumOverZero(map[], {});
    }

    /** The eviction loop of `onThumbnailGenerated`: adaptive eviction while
        memory exceeds the limit and more than one entry remains. */
    method EvictWhileOverMemory()
      requires Valid() && thumbnails != map[]
      modifies this`thumbnails, this`currentMemory, this`accessFrequency
      ensures Valid() && Drift() == old(Drift())
      ensures thumbnails != map[] && (currentMemory <= maxMemory || |thumbnails| == 1)
      ensures forall k :: k in thumbnails ==> k in old(thumbnails) && thumbnails[k] == old(thumbnails)[k]
      ensures currentMemory == old(currentMemory) - (old(TotalMemory(thumbnails)) - TotalMemory(thumbnails))
      ensures forall k :: k in accessFrequency ==> k in old(accessFrequency) && accessFrequency[k] == old(accessFrequency)[k]
      ensures old(currentMemory) <= maxMemory || |old(thumbnails)| <= 1 ==>
                thumbnails == old(thumbnails) && currentMemory == old(currentMemory) && accessFrequency == old(accessFrequency)
      ensures EvictedByPolicy(PrefersLru(adaptiveCaching, cacheHits, cacheMisses), old(thumbnails), old(accessFrequency), thumbnails)
      ensures forall k :: k in thumbnails ==> FrequencyOf(accessFrequency, k) == FrequencyOf(old(accessFrequency), k)
    {
      while currentMemory > maxMemory && |thumbnails| > 1
        invariant EvictedByPolicy(PrefersLru(adaptiveCaching, cacheHits, cacheMisses), old(thumbnails), old(accessFrequency), thumbnails)
        invariant forall k :: k in thumbnails ==> FrequencyOf(accessFrequency, k) == FrequencyOf(old(accessFrequency), k)
        invariant Valid() && Drift() == old(Drift())
        invariant old(currentMemory) <= maxMemory || |old(thumbnails)| <= 1 ==>
                    thumbnails == old(thumbnails) && currentMemory == old(currentMemory) && accessFrequency == old(accessFrequency)
        invariant thumbnails != map[]
        invariant forall k :: k in thumbnails ==> k in old(thumbnails) && thumbnails[k] == old(thumbnails)[k]
        invariant currentMemory == old(currentMemory) - (old(TotalMemory(thumbnails)) - TotalMemory(thumbnails))
        invariant forall k :: k in accessFrequency ==> k in old(accessFrequency) && accessFrequency[k] == old(accessFrequency)[k]
        decreases |thumbnails|
      {
        var victim := EvictByAdaptivePolicy();
      }
    }

    /** Bytes the eviction loop of `onThumbnailGenerated` frees: the
        difference between the updated map and what remains. */
    ghost function TotalEvicted(before: map<int, Entry>, page: int, pixmap: Pixmap, now: int): int
      reads this
      requires page in before
    {
      TotalMemory(before[page := Completed(before[page], pixmap, now)]) - TotalMemory(thumbnails)
    }

    /** `onThumbnailError`: a failure for a page with no entry is dropped;
        otherwise the entry stops loading and records the error. Pixmap,
        memory and entry count are unchanged. */
    method OnThumbnailError(page: int, message: string, now: int)
      requires Valid()
      modifies this`thumbnails
      ensures Valid() && Drift() == old(Drift()) && currentMemory == old(currentMemory)
      ensures page !in old(thumbnails) ==> thumbnails == old(thumbnails)
      ensures page in old(thumbnails) ==>
                && thumbnails == old(thumbnails)[page := Failed(old(thumbnails)[page], message, now)]
                && HasError(page) && !IsLoading(page) && ErrorMessage(page) == message
                && thumbnails[page].pixmap == old(thumbnails)[page].pixmap
                && thumbnails.Keys == old(thumbnails).Keys
    {
      if page !in thumbnails {
        return;
      }
      TotalMemoryStore(thumbnails, page, Failed(thumbnails[page], message, now));
      thumbnails := thumbnails[page := Failed(thumbnails[page], message, now)];
    }

    // ----- eviction -----

    /** `evictLeastRecentlyUsed`: on a non-empty cache, erase an entry with
        the oldest access time and subtract its bytes. */
    method EvictLeastRecentlyUsed() returns (victim: Option<int>)
      requires Valid()
      modifies this`thumbnails, this`currentMemory
      ensures Valid() && Drift() == old(Drift())
      ensures victim.None? <==> old(thumbnails) == map[]
      ensures victim.None? ==> thumbnails == old(thumbnails) && currentMemory == old(currentMemory)
      ensures victim.Some? ==>
                && IsLruVictim(old(thumbnails), victim.value)
                && thumbnails == old(thumbnails) - {victim.value}
                && |thumbnails| == |old(thumbnails)| - 1
                && currentMemory == old(currentMemory) - old(thumbnails)[victim.value].memorySize
    {
      if thumbnails == map[] {
        return None;
      }
      var oldest := FindLeastRecentlyUsed(thumbnails);
      TotalMemoryErase(thumbnails, oldest);
      assert (thumbnails - {oldest}).Keys == thumbnails.Keys - {oldest};
      currentMemory := currentMemory - thumbnails[oldest].memorySize;
      thumbnails := thumbnails - {oldest};
      return Some(oldest);
    }

    /** `evictLeastFrequentlyUsed`: on a non-empty cache, erase the entry with
        the lowest access frequency (oldest access among equals), subtract its
        bytes and drop its frequency record. */
    method EvictLeastFrequentlyUsed() returns (victim: Option<int>)
      requires Valid()
      modifies this`thumbnails, this`currentMemory, this`accessFrequency
      ensures Valid() && Drift() == old(Drift())
      ensures victim.None? <==> old(thumbnails) == map[]
      ensures victim.None? ==>
                thumbnails == old(thumbnails) && currentMemory == old(currentMemory)
                && accessFrequency == old(accessFrequency)
      ensures victim.Some? ==>
                && IsLfuVictim(old(thumbnails), old(accessFrequency), victim.value)
                && thumbnails == old(thumbnails) - {victim.value}
                && |thumbnails| == |old(thumbnails)| - 1
                && currentMemory == old(currentMemory) - old(thumbnails)[victim.value].memorySize
                && accessFrequency == old(accessFrequency) - {victim.value}
    {
      if thumbnails == map[] {
        return None;
      }
      var leastFrequentPage := FindLeastFrequentlyUsed(thumbnails, accessFrequency);
      TotalMemoryErase(thumbnails, leastFrequentPage);
      assert (thumbnails - {leastFrequentPage}).Keys == thumbnails.Keys - {leastFrequentPage};
      currentMemory := currentMemory - thumbnails[leastFrequentPage].memorySize;
      thumbnails := thumbnails - {leastFrequentPage};
      accessFrequency := accessFrequency - {leastFrequentPage};
      return Some(leastFrequentPage);
    }

    /** `evictByAdaptivePolicy`: LRU when adaptive caching is off or the cache
        efficiency exceeds 0.7 (1.0 before any access), LFU otherwise. */
    method EvictByAdaptivePolicy() returns (victim: Option<int>)
      requires Valid()
      modifies this`thumbnails, this`currentMemory, this`accessFrequency
      ensures Valid() && Drift() == old(Drift())
      ensures victim.None? <==> old(thumbnails) == map[]
      ensures victim.None? ==>
                thumbnails == old(thumbnails) && currentMemory == old(currentMemory)
                && accessFrequency == old(accessFrequency)
      ensures victim.Some? ==>
                && thumbnails == old(thumbnails) - {victim.value}
                && |thumbnails| == |old(thumbnails)| - 1
                && currentMemory == old(currentMemory) - old(thumbnails)[victim.value].memorySize
                && if PrefersLru(adaptiveCaching, cacheHits, cacheMisses) then
                     IsLruVictim(old(thumbnails), victim.value) && accessFrequency == old(accessFrequency)
                   else
                     && IsLfuVictim(old(thumbnails), old(accessFrequency), victim.value)
                     && accessFrequency == old(accessFrequency) - {victim.value}
    {
      if !adaptiveCaching {
        victim := EvictLeastRecentlyUsed();
        return;
      }
      if EfficiencyAbove(cacheHits, cacheMisses, 7, 10) {
        victim := EvictLeastRecentlyUsed();
      } else {
        victim := EvictLeastFrequentlyUsed();
      }
    }

    // ----- limits and invalidation -----

    /** `setCacheSize`: the limit becomes max(1, n) and LRU eviction brings
        the entry count down to it, erasing the oldest entries first. */
    method SetCacheSize(n: int)
      requires Valid()
      modifies this`maxCacheSize, this`thumbnails, this`currentMemory
      ensures Valid() && Drift() == old(Drift())
      ensures maxCacheSize == Max(1, n)
      ensures |thumbnails| == Min(|old(thumbnails)|, maxCacheSize)
      ensures forall k :: k in thumbnails ==> k in old(thumbnails) && thumbnails[k] == old(thumbnails)[k]
      ensures EvictedOldestFirst(old(thumbnails), thumbnails)
    {
      maxCacheSize := Max(1, n);
      while |thumbnails| > maxCacheSize
        invariant Valid() && Drift() == old(Drift()) && maxCacheSize == Max(1, n)
        invariant |thumbnails| >= Min(|old(thumbnails)|, maxCacheSize)
        invariant forall k :: k in thumbnails ==> k in old(thumbnails) && thumbnails[k] == old(thumbnails)[k]
        invariant EvictedOldestFirst(old(thumbnails), thumbnails)
        decreases |thumbnails|
      {
        var victim := EvictLeastRecentlyUsed();
      }
    }

    /** `setMemoryLimit`: the limit becomes max(1 MiB, bytes) and LRU
        eviction runs until memory fits or the cache is empty. */
    method SetMemoryLimit(bytes: int)
      requires Valid()
      modifies this`maxMemory, this`thumbnails, this`currentMemory
      ensures Valid() && Drift() == old(Drift())
      ensures maxMemory == Max(MIN_MEMORY_LIMIT, bytes)
      ensures currentMemory <= maxMemory || thumbnails == map[]
      ensures forall k :: k in thumbnails ==> k in old(thumbnails) && thumbnails[k] == old(thumbnails)[k]
      ensures old(currentMemory) <= maxMemory ==> thumbnails == old(thumbnails)
      ensures EvictedOldestFirst(old(thumbnails), thumbnails)
    {
      maxMemory := Max(MIN_MEMORY_LIMIT, bytes);
      while currentMemory > maxMemory && thumbnails != map[]
        invariant Valid() && Drift() == old(Drift()) && maxMemory == Max(MIN_MEMORY_LIMIT, bytes)
        invariant forall k :: k in thumbnails ==> k in old(thumbnails) && thumbnails[k] == old(thumbnails)[k]
        invariant old(currentMemory) <= maxMemory ==> thumbnails == old(thumbnails)
        invariant EvictedOldestFirst(old(thumbnails), thumbnails)
        decreases |thumbnails|
      {
        var victim := EvictLeastRecentlyUsed();
      }
    }

    /** The shared loop of `setThumbnailSize` and `setThumbnailQuality`:
        every rendered pixmap is dropped and its bytes subtracted; keys,
        access times and error state survive. */
    method ClearPixmaps()
      requires Valid()
      modifies this`thumbnails, this`currentMemory
      ensures Valid() && Drift() == old(Drift())
      ensures thumbnails == map k | k in old(thumbnails) :: Invalidated(old(thumbnails)[k])
      ensures old(Drift()) == 0 ==> currentMemory == 0
    {
      ghost var before := thumbnails;
      var pending := thumbnails.Keys;
      while pending != {}
        invariant pending <= before.Keys && thumbnails.Keys == before.Keys
        invariant Valid() && Drift() == old(Drift())
        invariant forall k :: k in thumbnails ==>
                    thumbnails[k] == if k in pending then before[k] else Invalidated(before[k])
        decreases pending
      {
        HasElement(pending);
        var k :| k in pending;
        InvalidateEntry(k);
        pending := pending - {k};
      }
      ghost var invalidated := map k | k in before :: Invalidated(before[k]);
      forall k | k in thumbnails
        ensures k in invalidated && thumbnails[k] == invalidated[k]
      {
      }
      assert thumbnails.Keys == invalidated.Keys;
      assert thumbnails == invalidated;
      TotalMemoryOfInvalidated(before);
    }

    /** One step of that loop: the entry's pixmap, if rendered, is dropped
        and its bytes subtracted. */
    method InvalidateEntry(k: int)
      requires Valid() && k in thumbnails
      modifies this`thumbnails, this`currentMemory
      ensures Valid() && Drift() == old(Drift())
      ensures thumbnails == old(thumbnails)[k := Invalidated(old(thumbnails)[k])]
    {
      var item := thumbnails[k];
      if !item.pixmap.IsNull() {
        TotalMemoryStore(thumbnails, k, Invalidated(item));
        currentMemory := currentMemory - item.memorySize;
        thumbnails := thumbnails[k := Invalidated(item)];
      }
    }

    /** `setThumbnailSize`: a different size is stored and every pixmap is
        cleared; the same size changes nothing. */
    method SetThumbnailSize(width: int, height: int)
      requires Valid()
      modifies this`thumbnailWidth, this`thumbnailHeight, this`thumbnails, this`currentMemory
      ensures Valid() && Drift() == old(Drift())
      ensures thumbnailWidth == width && thumbnailHeight == height
      ensures (width, height) == old((thumbnailWidth, thumbnailHeight)) ==>
                thumbnails == old(thumbnails) && currentMemory == old(currentMemory)
      ensures (width, height) != old((thumbnailWidth, thumbnailHeight)) ==>
                && thumbnails == (map k | k in old(thumbnails) :: Invalidated(old(thumbnails)[k]))
                && (old(Drift()) == 0 ==> currentMemory == 0)
    {
      if (thumbnailWidth, thumbnailHeight) != (width, height) {
        thumbnailWidth, thumbnailHeight := width, height;
        ClearPixmaps();
      }
    }

    /** `setThumbnailQuality`: a quality more than 0.001 away from the
        current one is stored and every pixmap is cleared. */
    method SetThumbnailQuality(quality: real)
      requires Valid()
      modifies this`thumbnailQuality, this`thumbnails, this`currentMemory
      ensures Valid() && Drift() == old(Drift())
      ensures var changed := Abs(old(thumbnailQuality) - quality) > 0.001;
              && thumbnailQuality == (if changed then quality else old(thumbnailQuality))
              && (!changed ==> thumbnails == old(thumbnails) && currentMemory == old(currentMemory))
              && (changed ==>
                    && thumbnails == (map k | k in old(thumbnails) :: Invalidated(old(thumbnails)[k]))
                    && (old(Drift()) == 0 ==> currentMemory == 0))
    {
      if Abs(thumbnailQuality - quality) > 0.001 {
        thumbnailQuality := quality;
        ClearPixmaps();
      }
    }

    /** `clearCache`: drops every entry and the preload queue and zeroes the
        memory counter; hit and miss counters and access frequencies stay. */
    method ClearCache()
      modifies this`thumbnails, this`currentMemory, this`preloadQueue
      ensures thumbnails == map[] && currentMemory == 0 && preloadQueue == {}
      ensures Drift() == 0
    {
      thumbnails := map[];
      currentMemory := 0;
      preloadQueue := {};
      SumOverZero(thumbnails, {});
    }

    /** `refreshAllThumbnails` is a full `clearCache`. */
    method RefreshAllThumbnails()
      modifies this`thumbnails, this`currentMemory, this`preloadQueue
      ensures thumbnails == map[] && currentMemory == 0 && preloadQueue == {}
      ensures Drift() == 0
    {
      ClearCache();
    }

    /** `setDocument`: stores the document and clears the cache. */
    method SetDocument(doc: Option<Document>)
      modifies this`document, this`thumbnails, this`currentMemory, this`preloadQueue
      ensures document == doc
      ensures thumbnails == map[] && currentMemory == 0 && preloadQueue == {}
      ensures Drift() == 0
    {
      document := doc;
      ClearCache();
    }

    /** `refreshThumbnail`: for a document page, erases its entry (subtracting
        its bytes) and requests it afresh. */
    method RefreshThumbnail(page: int, now: int)
      requires Valid()
      modifies this`thumbnails, this`currentMemory, this`accessFrequency, this`requests
      ensures Valid() && Drift() == old(Drift())
      ensures accessFrequency == old(accessFrequency)
      ensures !InDocument(page) ==>
                thumbnails == old(thumbnails) && currentMemory == old(currentMemory) && requests == old(requests)
      ensures InDocument(page) && !ShouldGenerateThumbnail(page) ==>
                thumbnails == old(thumbnails) - {page} && requests == old(requests)
      ensures InDocument(page) && ShouldGenerateThumbnail(page) ==>
                && thumbnails == (old(thumbnails) - {page})[page := StartLoading(NewEntry, now)]
                && requests == old(requests) + [RequestFor(page)]
    {
      if !InDocument(page) {
        return;
      }
      if page in thumbnails {
        TotalMemoryErase(thumbnails, page);
        currentMemory := currentMemory - thumbnails[page].memorySize;
        thumbnails := thumbnails - {page};
      }
      RequestThumbnail(page, now);
    }

    /** `updateMemoryUsage`: recomputes the memory counter from the entries. */
    method UpdateMemoryUsage()
      modifies this`currentMemory
      ensures currentMemory == TotalMemory(thumbnails)
      ensures Drift() == 0
    {
      currentMemory := SumMemory(thumbnails);
    }

    // ----- periodic maintenance -----

    /** `adaptCacheSize`: at most once per 30 s of the logical clock, moves
        the entry limit as `AdaptedCacheSize` decides. */
    method AdaptCacheSize(now: int)
      requires Valid()
      modifies this`maxCacheSize, this`lastCleanupTime
      ensures Valid()
      ensures now - old(lastCleanupTime) < ADAPT_INTERVAL_MS ==>
                maxCacheSize == old(maxCacheSize) && lastCleanupTime == old(lastCleanupTime)
      ensures now - old(lastCleanupTime) >= ADAPT_INTERVAL_MS ==>
                && lastCleanupTime == now
                && maxCacheSize == AdaptedCacheSize(old(maxCacheSize), cacheHits, cacheMisses, currentMemory, maxMemory)
    {
      if now - lastCleanupTime < ADAPT_INTERVAL_MS {
        return;
      }
      lastCleanupTime := now;
      maxCacheSize := AdaptedCacheSize(maxCacheSize, cacheHits, cacheMisses, currentMemory, maxMemory);
    }

    /** `cleanupCache`: on a non-empty cache, adapts the entry limit, evicts
        by the adaptive policy down to that limit, then while memory exceeds
        its limit (which may empty the cache). */
    method CleanupCache(now: int)
      requires Valid()
      modifies this`thumbnails, this`currentMemory, this`accessFrequency, this`maxCacheSize, this`lastCleanupTime
      ensures Valid() && Drift() == old(Drift())
      ensures old(thumbnails) == map[] ==>
                && thumbnails == old(thumbnails) && currentMemory == old(currentMemory)
                && maxCacheSize == old(maxCacheSize) && lastCleanupTime == old(lastCleanupTime)
                && accessFrequency == old(accessFrequency)
      ensures old(thumbnails) != map[] ==>
                && |thumbnails| <= maxCacheSize
                && (currentMemory <= maxMemory || thumbnails == map[])
                && (now - old(lastCleanupTime) < ADAPT_INTERVAL_MS ==>
                      maxCacheSize == old(maxCacheSize) && lastCleanupTime == old(lastCleanupTime))
                && (now - old(lastCleanupTime) >= ADAPT_INTERVAL_MS ==>
                      && lastCleanupTime == now
                      && maxCacheSize == AdaptedCacheSize(old(maxCacheSize), cacheHits, cacheMisses, old(currentMemory), maxMemory))
                && (old(currentMemory) <= maxMemory ==> |thumbnails| == Min(|old(thumbnails)|, maxCacheSize))
                && (old(currentMemory) <= maxMemory && |old(thumbnails)| <= maxCacheSize ==>
                      thumbnails == old(thumbnails) && currentMemory == old(currentMemory)
                      && accessFrequency == old(accessFrequency))
      ensures forall k :: k in thumbnails ==> k in old(thumbnails) && thumbnails[k] == old(thumbnails)[k]
      ensures EvictedByPolicy(PrefersLru(adaptiveCaching, cacheHits, cacheMisses), old(thumbnails), old(accessFrequency), thumbnails)
    {
      if thumbnails == map[] {
        return;
      }
      AdaptCacheSize(now);
      EvictToEntryLimit();
      ghost var kept, keptFrequency := thumbnails, accessFrequency;
      EvictToMemoryLimit();
      EvictedByPolicyTrans(PrefersLru(adaptiveCaching, cacheHits, cacheMisses),
                           old(thumbnails), old(accessFrequency), kept, keptFrequency, thumbnails);
    }

    /** The first loop of `cleanupCache`: adaptive eviction until the entry
        count fits the limit. */
    method EvictToEntryLimit()
      requires Valid()
      modifies this`thumbnails, this`currentMemory, this`accessFrequency
      ensures Valid() && Drift() == old(Drift())
      ensures |thumbnails| == Min(|old(thumbnails)|, maxCacheSize)
      ensures forall k :: k in thumbnails ==> k in old(thumbnails) && thumbnails[k] == old(thumbnails)[k]
      ensures currentMemory <= old(currentMemory)
      ensures |old(thumbnails)| <= maxCacheSize ==>
                thumbnails == old(thumbnails) && currentMemory == old(currentMemory) && accessFrequency == old(accessFrequency)
      ensures EvictedByPolicy(PrefersLru(adaptiveCaching, cacheHits, cacheMisses), old(thumbnails), old(accessFrequency), thumbnails)
      ensures forall k :: k in thumbnails ==> FrequencyOf(accessFrequency, k) == FrequencyOf(old(accessFrequency), k)
    {
      while |thumbnails| > maxCacheSize
        invariant EvictedByPolicy(PrefersLru(adaptiveCaching, cacheHits, cacheMisses), old(thumbnails), old(accessFrequency), thumbnails)
        invariant forall k :: k in thumbnails ==> FrequencyOf(accessFrequency, k) == FrequencyOf(old(accessFrequency), k)
        invariant Valid() && Drift() == old(Drift())
        invariant |thumbnails| >= Min(|old(thumbnails)|, maxCacheSize)
        invariant forall k :: k in thumbnails ==> k in old(thumbnails) && thumbnails[k] == old(thumbnails)[k]
        invariant currentMemory <= old(currentMemory)
        invariant |old(thumbnails)| <= maxCacheSize ==>
                    thumbnails == old(thumbnails) && currentMemory == old(currentMemory) && accessFrequency == old(accessFrequency)
        decreases |thumbnails|
      {
        var victim := EvictByAdaptivePolicy();
      }
    }

    /** The second loop of `cleanupCache`: adaptive eviction until memory fits
        the limit or nothing is left. */
    method EvictToMemoryLimit()
      requires Valid()
      modifies this`thumbnails, this`currentMemory, this`accessFrequency
      ensures Valid() && Drift() == old(Drift())
      ensures currentMemory <= maxMemory || thumbnails == map[]
      ensures |thumbnails| <= |old(thumbnails)|
      ensures forall k :: k in thumbnails ==> k in old(thumbnails) && thumbnails[k] == old(thumbnails)[k]
      ensures old(currentMemory) <= maxMemory ==>
                thumbnails == old(thumbnails) && currentMemory == old(currentMemory) && accessFrequency == old(accessFrequency)
      ensures EvictedByPolicy(PrefersLru(adaptiveCaching, cacheHits, cacheMisses), old(thumbnails), old(accessFrequency), thumbnails)
      ensures forall k :: k in thumbnails ==> FrequencyOf(accessFrequency, k) == FrequencyOf(old(accessFrequency), k)
    {
      while currentMemory > maxMemory && thumbnails != map[]
        invariant EvictedByPolicy(PrefersLru(adaptiveCaching, cacheHits, cacheMisses), old(thumbnails), old(accessFrequency), thumbnails)
        invariant forall k :: k in thumbnails ==> FrequencyOf(accessFrequency, k) == FrequencyOf(old(accessFrequency), k)
        invariant Valid() && Drift() == old(Drift())
        invariant |thumbnails| <= |old(thumbnails)|
        invariant old(currentMemory) <= maxMemory ==>
                    thumbnails == old(thumbnails) && currentMemory == old(currentMemory) && accessFrequency == old(accessFrequency)
        invariant forall k :: k in thumbnails ==> k in old(thumbnails) && thumbnails[k] == old(thumbnails)[k]
        decreases |thumbnails|
      {
        var victim := EvictByAdaptivePolicy();
      }
    }

    // ----- preloading -----

    /** `setPreloadRange`: never negative. */
    method SetPreloadRange(range: int)
      modifies this`preloadRange
      ensures preloadRange == Max(0, range)
    {
      preloadRange := Max(0, range);
    }

    /** `preloadVisibleRange`: queues every page of the widened visible range
        that `shouldPreload` accepts. */
    method PreloadVisibleRange(firstVisible: int, lastVisible: int)
      modifies this`preloadQueue
      ensures document.None? ==> preloadQueue == old(preloadQueue)
      ensures document.Some? ==>
                preloadQueue == old(preloadQueue) +
                  set p | Max(0, firstVisible - preloadRange) <= p <= Min(document.value.numPages - 1, lastVisible + preloadRange)
                          && ShouldPreload(p)
    {
      if document.None? {
        return;
      }
      var numPages: int := document.value.numPages;
      var lo := Max(0, firstVisible - preloadRange);
      var hi := Min(numPages - 1, lastVisible + preloadRange);
      var i := lo;
      while i <= hi
        invariant lo <= i && (i <= hi + 1 || i == lo)
        invariant preloadQueue == old(preloadQueue) + set p | lo <= p < i && ShouldPreload(p)
      {
        if ShouldPreload(i) {
          preloadQueue := preloadQueue + {i};
        }
        i := i + 1;
      }
      assert (set p | lo <= p < i && ShouldPreload(p)) == (set p | lo <= p <= hi && ShouldPreload(p));
    }

    /** `onPreloadTimer`: takes one page off the preload queue and requests
        it; an empty queue does nothing. The page taken is returned. */
    method OnPreloadTimer(now: int) returns (taken: Option<int>)
      requires Valid()
      modifies this`preloadQueue, this`thumbnails, this`accessFrequency, this`requests
      ensures Valid() && Drift() == old(Drift())
      ensures taken.None? <==> old(preloadQueue) == {}
      ensures taken.None? ==>
                thumbnails == old(thumbnails) && accessFrequency == old(accessFrequency) && requests == old(requests)
      ensures taken.Some? ==>
                && taken.value in old(preloadQueue)
                && preloadQueue == old(preloadQueue) - {taken.value}
                && RequestOutcome(taken.value, now, old(View()), View())
    {
      if preloadQueue == {} {
        return None;
      }
      HasElement(preloadQueue);
      var page :| page in preloadQueue;
      preloadQueue := preloadQueue - {page};
      RequestThumbnail(page, now);
      return Some(page);
    }

    // ----- lazy loading and viewport -----

    /** `setLazyLoadingEnabled` (the priority timer it starts or stops is not modelled). */
    method SetLazyLoadingEnabled(enabled: bool)
      modifies this`lazyLoadingEnabled
      ensures lazyLoadingEnabled == enabled
    {
      lazyLoadingEnabled := enabled;
    }

    /** The page-priority table `updateViewportPriorities` builds for the
        current viewport and document. */
    ghost predicate IsViewportTable(t: map<int, int>, numPages: int)
      reads this`visibleStart, this`visibleEnd, this`viewportMargin
    {
      && (forall p :: p in t <==>
            VisiblePage(visibleStart, visibleEnd, numPages, p)
            || MarginPage(visibleStart, visibleEnd, viewportMargin, numPages, p))
      && (forall p :: p in t ==> t[p] == if VisiblePage(visibleStart, visibleEnd, numPages, p) then 0 else 1)
    }

    /** `updateViewportPriorities`: without a document nothing changes;
        otherwise the table is rebuilt with priority 0 for visible document
        pages and 1 for the margins on either side. */
    method UpdateViewportPriorities()
      modifies this`pagePriorities
      ensures document.None? ==> pagePriorities == old(pagePriorities)
      ensures document.Some? ==> IsViewportTable(pagePriorities, document.value.numPages)
    {
      if document.None? {
        return;
      }
      var numPages: int := document.value.numPages;
      pagePriorities := map[];
      var i := visibleStart;
      while i <= visibleEnd
        invariant visibleStart <= i && (i <= visibleEnd + 1 || i == visibleStart)
        invariant forall p :: p in pagePriorities <==> visibleStart <= p < i && 0 <= p < numPages
        invariant forall p :: p in pagePriorities ==> pagePriorities[p] == 0
      {
        if i >= 0 && i < numPages {
          pagePriorities := pagePriorities[i := 0];
        }
        i := i + 1;
      }
      var preloadStart := Max(0, visibleStart - viewportMargin);
      var preloadEnd := Min(numPages - 1, visibleEnd + viewportMargin);
      MarkMargin(preloadStart, visibleStart);
      MarkMargin(visibleEnd + 1, preloadEnd + 1);
    }

    /** One margin loop of `updateViewportPriorities`: priority 1 for every
        page in [from, to). */
    method MarkMargin(from: int, to: int)
      modifies this`pagePriorities
      ensures forall p :: p in pagePriorities <==> p in old(pagePriorities) || from <= p < to
      ensures forall p :: p in pagePriorities ==>
                pagePriorities[p] == if from <= p < to then 1 else old(pagePriorities)[p]
    {
      var i := from;
      while i < to
        invariant from <= i && (i <= to || i == from)
        invariant forall p :: p in pagePriorities <==> p in old(pagePriorities) || from <= p < i
        invariant forall p :: p in pagePriorities ==>
                    pagePriorities[p] == if from <= p < i then 1 else old(pagePriorities)[p]
      {
        pagePriorities := pagePriorities[i := 1];
        i := i + 1;
      }
    }

    /** `setViewportRange`: stores the viewport and, under lazy loading,
        rebuilds the priority table. */
    method SetViewportRange(start: int, end: int, margin: int)
      modifies this`visibleStart, this`visibleEnd, this`viewportMargin, this`pagePriorities
      ensures visibleStart == start && visibleEnd == end && viewportMargin == margin
      ensures !lazyLoadingEnabled || document.None? ==> pagePriorities == old(pagePriorities)
      ensures lazyLoadingEnabled && document.Some? ==> IsViewportTable(pagePriorities, document.value.numPages)
    {
      visibleStart, visibleEnd, viewportMargin := start, end, margin;
      if lazyLoadingEnabled {
        UpdateViewportPriorities();
      }
    }

    /** `onPriorityUpdateTimer`: one tick rebuilds the table under lazy loading. */
    method OnPriorityUpdateTimer()
      modifies this`pagePriorities
      ensures !lazyLoadingEnabled || document.None? ==> pagePriorities == old(pagePriorities)
      ensures lazyLoadingEnabled && document.Some? ==> IsViewportTable(pagePriorities, document.value.numPages)
    {
      if lazyLoadingEnabled {
        UpdateViewportPriorities();
      }
    }
  }

  /** The view once `data(index, PixmapRole)` has touched the page: an
      existing entry gets access time `now` and one more counted access;
      without an entry nothing changes. */
  function Touched(v: CacheView, page: int, now: int, maxCacheSize: int): CacheView
  {
    if page in v.entries then
      CacheView(v.entries[page := v.entries[page].(lastAccessed := now)],
                AfterAccess(v.frequency, page, maxCacheSize), v.calls)
    else
      v
  }

  function Abs(x: real): real { if x < 0.0 then -x else x }

  lemma AppendAssociates(a: seq<GenerationRequest>, b: seq<GenerationRequest>, c: seq<GenerationRequest>)
    ensures a + b + c == a + (b + c)
  {
  }
}
