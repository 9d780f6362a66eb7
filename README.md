# Thumbnail cache and page viewer state, modelled in Dafny

This project models two parts of a Qt PDF reader.

**The thumbnail cache** (`ThumbnailModel`, module `Thumbnails`). It maps page numbers to
thumbnail entries. Each entry holds:
- a pixmap, which may be null (as in Qt, a pixmap with a zero width or height is null);
- the bytes the pixmap holds;
- the loading and error flags and the error message;
- the last access time;
- the cached page size.

Around the map sit the memory counter, the hit and miss counters, the per-page
access-frequency table, the preload queue and the page-priority table. The model covers
these operations:
- the cache lookup of `data` (pixmap and page-size roles);
- thumbnail requests, single and by range, and the two generator callbacks;
- invalidation when the thumbnail size or quality changes;
- the cache and memory limits, `clearCache` and `refreshThumbnail`;
- preload queueing and draining, and the viewport gate with its priority table;
- LRU, LFU and adaptive eviction;
- the periodic `cleanupCache` / `adaptCacheSize` step.

The generator is represented by the list of requests it has received. The wall clock is
a `now` argument in milliseconds.

Supporting modules:
- `ThumbnailEntries` holds the entry record, its transitions and the sum of entry sizes
  (`TotalMemory`).
- `ThumbnailPolicy` holds the pure decisions: cache efficiency compared in integers, the
  LRU and LFU victim searches, the adapted entry limit, the viewport gate and the
  access-frequency update.
- The ghost function `ThumbnailModel.Drift()` is the memory counter minus `TotalMemory`.
  Every operation keeps it unchanged except the completion callback (see Findings).

**The graphics-view viewer** (module `GraphicsViewer`). It holds:
- each page item's rotation and search-result cursor;
- the scene's map from page number to page item;
- the viewer's current page and rotation.

Module `Rotation` reproduces the normalisation `((d % 360) + 360) % 360` with C++'s
truncating `%`, and proves it is the mathematical remainder modulo 360.

Behaviour of the code worth noting (the model follows the code):
- `clearCache` does not reset the hit and miss counters or the access-frequency table.
- Requests and `data(PageSizeRole)` create entries without enforcing the entry limit. Only
  `setCacheSize` and `cleanupCache` bring the count back under it.
- The memory loops of `setMemoryLimit` and `cleanupCache` may empty the cache. The loop in
  `onThumbnailGenerated` stops at one entry.
- The memory counter equals the sum of entry sizes only as long as no completion lands on
  an entry that already holds a pixmap.
- `calculatePriority` returns 5 only as the fallback for pages missing from the priority
  table (ThumbnailModel.cpp:702-710).
- With no viewport set (start and end both -1), `updateViewportPriorities` gives the
  pages in [0, min(n-1, m-1)] priority 1 (pages 0 and 1 with the default margin of 2).
  This is because the right-margin loop runs from `end + 1` = 0.

## Model

| member | source | states |
|---|---|---|
| Rotation.CRem360 | app/ui/viewer/QGraphicsPDFViewer.cpp:47 | C++ `a % 360`: the remainder has the sign of `a`, its magnitude is below 360, and it is congruent to `a` |
| Rotation.Normalize | app/ui/viewer/QGraphicsPDFViewer.cpp:66 | the normalised rotation lies in [0, 360) and is congruent to the requested angle modulo 360 |
| Rotation.NormalizeIsModulo | app/ui/viewer/QGraphicsPDFViewer.cpp:605 | the C++ formula equals the Euclidean remainder `degrees % 360` for every angle, negative ones included |
| Rotation.NormalizeCanonical | app/ui/viewer/QGraphicsPDFViewer.cpp:605-606 | an angle already in [0, 360) normalises to itself, so setting the current rotation changes nothing |
| Rotation.QuarterTurnsClosed | app/ui/viewer/QGraphicsPDFViewer.cpp:598-600 | from 0, 90, 180 or 270, rotating left or right lands on 0, 90, 180 or 270 |
| Rotation.FourRightTurns | app/ui/viewer/QGraphicsPDFViewer.cpp:600 | four right rotations return any normalised rotation to itself |
| Rotation.LeftUndoesRight | app/ui/viewer/QGraphicsPDFViewer.cpp:598-600 | a left rotation after a right rotation restores the rotation |
| ThumbnailEntries.PixmapMemory | app/model/ThumbnailModel.cpp:580-587 | a pixmap holds width*height*4 bytes, never negative, and zero exactly when it is null in Qt's sense (no image, or a zero width or height) |
| ThumbnailEntries.StartLoading | app/model/ThumbnailModel.cpp:319-332 | a requested entry is loading with no error and an empty message; pixmap, size and page size are kept; a well-formed entry stays well formed |
| ThumbnailEntries.Completed | app/model/ThumbnailModel.cpp:463-468 | a completed entry holds the new pixmap and exactly its bytes, is neither loading nor failed, and is always well formed |
| ThumbnailEntries.Failed | app/model/ThumbnailModel.cpp:501-504 | a failed entry has the error and its message and is not loading; pixmap and bytes are kept |
| ThumbnailEntries.Invalidated | app/model/ThumbnailModel.cpp:203-208 | invalidation leaves a null pixmap with no bytes; access time, error state and page size are kept; an entry whose pixmap is already null is unchanged |
| ThumbnailEntries.TotalMemoryErase | app/model/ThumbnailModel.cpp:574-577 | erasing an entry lowers the total of entry sizes by exactly that entry's bytes |
| ThumbnailEntries.TotalMemoryStore | app/model/ThumbnailModel.cpp:463-470 | storing an entry changes the total by the new bytes minus the replaced entry's bytes (none if absent) |
| ThumbnailEntries.TotalMemoryOfInvalidated | app/model/ThumbnailModel.cpp:202-209 | after every pixmap is dropped, the entries hold no bytes |
| ThumbnailEntries.SumMemory | app/model/ThumbnailModel.cpp:592-595 | the summing loop returns the total of `memorySize` over all entries |
| ThumbnailPolicy.Efficiency | app/model/ThumbnailModel.cpp:803-809 | the efficiency lies in [0, 1], is 1.0 before any access, and otherwise times the access count equals the hits |
| ThumbnailPolicy.EfficiencyAboveExact | app/model/ThumbnailModel.cpp:792 | the integer test `den*hits > num*total` (`num < den` with no accesses) holds exactly when the efficiency exceeds num/den |
| ThumbnailPolicy.EfficiencyBelowExact | app/model/ThumbnailModel.cpp:827 | the integer test `den*hits < num*total` holds exactly when the efficiency is below num/den |
| ThumbnailPolicy.FindLeastRecentlyUsed | app/model/ThumbnailModel.cpp:562-571 | on a non-empty map the search returns a key whose last access is no later than any other's |
| ThumbnailPolicy.FindLeastFrequentlyUsed | app/model/ThumbnailModel.cpp:753-767 | on a non-empty map the search returns a key of minimal frequency (0 if untracked), and the oldest access among those |
| ThumbnailPolicy.AdaptedCacheSize | app/model/ThumbnailModel.cpp:821-830 | the limit rises only (a) at efficiency > 0.8 with memory below 80% of the limit, by at most 10 and to at most 300, or (b) at efficiency < 0.5 from below 50 up to exactly 50. It falls only (a) at efficiency < 0.5, by at most 5 and to no less than 50, or (b) at efficiency > 0.8 with memory below 80%, from above 300 down to exactly 300. Between 0.5 and 0.8 it stays. A limit in [50, 300] stays in [50, 300], and a positive limit stays positive |
| ThumbnailPolicy.PrioritisedIffInViewport | app/model/ThumbnailModel.cpp:666-686 | for a viewport with 0 <= start <= end and a margin >= 0, a document page gets a table priority exactly when it passes `isInViewport` (lines 712-721). The bounds are needed: with a negative margin a visible page gets priority 0 but fails the gate |
| ThumbnailPolicy.AfterAccessCounts | app/model/ThumbnailModel.cpp:730-745 | if the page keeps a count it is its old count (0 if untracked) plus one; it loses it only when the table has passed twice the limit and its old count was at most 0. No other page's count changes value. A page is dropped only once the table has passed twice the limit, and only with a count of at most 1; counts above 1 always survive. Below the threshold the keys are the old keys plus the page. The table grows by at most one entry |
| Thumbnails.ThumbnailModel.constructor | app/model/ThumbnailModel.cpp:10-26 | empty cache, counters 0, no viewport (-1, -1), margin 2, lazy loading and adaptive caching on, memory counter exact |
| Thumbnails.ThumbnailModel.ViewportGate | app/model/ThumbnailModel.cpp:712-721 | with no viewport set every page passes. With a margin >= 0 every visible page passes. A passing page lies in [max(0, start-margin), end+margin] |
| Thumbnails.ThumbnailModel.GenerationGate | app/model/ThumbnailModel.cpp:694-700 | without lazy loading, or with no viewport set, every page passes; under lazy loading with a viewport, a passing page lies in [0, end+margin] |
| Thumbnails.ThumbnailModel.PriorityFollowsViewport | app/model/ThumbnailModel.cpp:702-710 | after the table is rebuilt for the current viewport, `calculatePriority` gives 0 for a visible page, 1 for a margin page and 5 for any other page. For a viewport with 0 <= start <= end and margin >= 0, a document page ranks above the default exactly when it passes `isInViewport` |
| Thumbnails.ThumbnailModel.UpdateAccessFrequency | app/model/ThumbnailModel.cpp:730-745 | the erase-while-iterating loop leaves exactly the table `AfterAccess` describes |
| Thumbnails.ThumbnailModel.IsLoading | app/model/ThumbnailModel.cpp:381-385 | a loading page has an entry, and that entry has not failed |
| Thumbnails.ThumbnailModel.HasError | app/model/ThumbnailModel.cpp:387-391 | a failed page has an entry, and that entry is not loading |
| Thumbnails.ThumbnailModel.ErrorMessage | app/model/ThumbnailModel.cpp:393-397 | a page that has not failed reports an empty message |
| Thumbnails.ThumbnailModel.HasCachedThumbnail | app/model/ThumbnailModel.cpp:622-626 | a page has a cached thumbnail exactly when its entry holds bytes in the memory accounting |
| Thumbnails.ThumbnailModel.ShouldPreload | app/model/ThumbnailModel.cpp:601-619 | a page should be preloaded exactly when it is a document page that a range request would ask for (no entry, or a null pixmap with no load in flight) and it has not failed |
| Thumbnails.ThumbnailModel.RequestThumbnail | app/model/ThumbnailModel.cpp:290-350 | no document, a page out of range, or a page outside the lazy viewport: nothing changes. Cached: only the access time and frequency change. Loading: nothing changes. Otherwise: the entry (created if missing) starts loading with its error cleared, and exactly one call with `calculatePriority(page)` is appended. Afterwards a passing page is cached or loading. The memory counter keeps its relation to the entries |
| Thumbnails.ThumbnailModel.RepeatedRequestCallsOnce | app/model/ThumbnailModel.cpp:303-318 | two back-to-back requests for a page make at most one generator call, and the second makes none |
| Thumbnails.ThumbnailModel.RangeEntriesOutside | app/model/ThumbnailModel.cpp:362-373 | a range request does not touch entries of pages outside the range |
| Thumbnails.ThumbnailModel.RangeEntriesCover | app/model/ThumbnailModel.cpp:362-373 | after a range request every page of the range that passes the gate is cached or loading, and no entry is lost |
| Thumbnails.ThumbnailModel.RequestThumbnailRange | app/model/ThumbnailModel.cpp:352-379 | the range is clamped to [max(0, start), min(n-1, end)]. In page order, one call goes out per page that lacks an entry or has neither a pixmap nor a load in flight, and that passes the gate. The entries become exactly those the calls start. Access frequencies are untouched |
| Thumbnails.ThumbnailModel.DataPixmap | app/model/ThumbnailModel.cpp:91-108 | a document page with a non-null cached pixmap is a hit: it returns that pixmap, counts one hit and refreshes time and frequency. Any other document page counts one miss. An existing entry first gets the new access time and one more counted access. Then the page has the full effect of `requestThumbnail` from that state: a call exactly when it needs generation and passes the gate. Pages outside the document change nothing |
| Thumbnails.ThumbnailModel.DataPageSize | app/model/ThumbnailModel.cpp:125-148 | a cached non-empty page size is returned unchanged. Otherwise a loadable document page has its size stored in its entry (created if missing) and returned. An unloadable page or a page outside the document returns nothing and changes nothing |
| Thumbnails.ThumbnailModel.OnThumbnailGenerated | app/model/ThumbnailModel.cpp:453-479 | a completion for a page with no entry changes nothing. Otherwise the entry is completed and the counter grows by the pixmap's bytes less what eviction frees. Afterwards memory is within the limit or one entry remains. When the new bytes fit the limit, or the entry is the only one, nothing is evicted: the page holds the new pixmap and the counter grew by exactly its bytes. The victims follow the policy fixed for the call: every evicted entry is no newer than every survivor under LRU, and no later than every survivor in (frequency, last access) order under LFU, both measured on the map that already holds the completed entry. Under LFU the completed page itself may be evicted. As written, `Drift` grows by the replaced entry's bytes |
| Thumbnails.ThumbnailModel.OnThumbnailGeneratedCorrected | app/model/ThumbnailModel.cpp:462-470 | with the replaced bytes subtracted, the same completion keeps the memory counter exact (`Drift` unchanged). It has the same post-eviction bound, and nothing is evicted when the corrected count fits the limit or the entry is the only one. The victims follow the LRU or LFU order as in `OnThumbnailGenerated` |
| Thumbnails.ThumbnailModel.SecondCompletionOvercounts | app/model/ThumbnailModel.cpp:468-470 | two completions of page 0 with a 10x10 pixmap: the entries hold 400 bytes, the counter as written reaches 800 |
| Thumbnails.ThumbnailModel.EvictWhileOverMemory | app/model/ThumbnailModel.cpp:476-479 | adaptive eviction stops with memory within the limit or exactly one entry left; the counter drops by exactly the evicted bytes; when memory already fits or at most one entry exists, nothing changes. Every evicted entry precedes every survivor in the policy's order (last access under LRU, then (frequency, last access) under LFU), and survivors keep their frequencies |
| Thumbnails.ThumbnailModel.OnThumbnailError | app/model/ThumbnailModel.cpp:492-504 | a failure for a page with no entry changes nothing; otherwise the entry is failed with the message and not loading; pixmap, bytes, memory counter and keys are unchanged |
| Thumbnails.ThumbnailModel.EvictLeastRecentlyUsed | app/model/ThumbnailModel.cpp:557-578 | on a non-empty cache exactly one entry goes, one with the oldest access, and its bytes leave the counter; an empty cache is unchanged |
| Thumbnails.ThumbnailModel.EvictLeastFrequentlyUsed | app/model/ThumbnailModel.cpp:747-777 | on a non-empty cache exactly one entry goes, one of minimal frequency and oldest among those. Its bytes leave the counter and its frequency record is removed |
| Thumbnails.ThumbnailModel.EvictByAdaptivePolicy | app/model/ThumbnailModel.cpp:779-801 | evicts the LRU victim exactly when adaptive caching is off or efficiency exceeds 0.7 (1.0 with no accesses), and the LFU victim otherwise |
| Thumbnails.ThumbnailModel.SetCacheSize | app/model/ThumbnailModel.cpp:257-264 | the limit becomes max(1, n). The count becomes min(old count, limit). Survivors are unchanged, and every evicted entry is no newer than every survivor |
| Thumbnails.ThumbnailModel.SetMemoryLimit | app/model/ThumbnailModel.cpp:266-273 | the limit becomes max(1 MiB, m). Afterwards memory fits or the cache is empty. Nothing is evicted if memory already fitted, and eviction is oldest-first |
| Thumbnails.ThumbnailModel.ClearPixmaps | app/model/ThumbnailModel.cpp:200-210 | every entry becomes its invalidated form (keys, times, errors kept); the freed bytes leave the counter, which reaches 0 if it was exact |
| Thumbnails.ThumbnailModel.SetThumbnailSize | app/model/ThumbnailModel.cpp:187-219 | the same size changes nothing; a new size is stored and every pixmap is invalidated |
| Thumbnails.ThumbnailModel.SetThumbnailQuality | app/model/ThumbnailModel.cpp:222-254 | a quality within 0.001 changes nothing; otherwise it is stored and every pixmap is invalidated |
| Thumbnails.ThumbnailModel.ClearCache | app/model/ThumbnailModel.cpp:275-284 | no entries, no preload queue, counter 0; hit/miss counters and frequencies are not in the frame, so they stay |
| Thumbnails.ThumbnailModel.RefreshAllThumbnails | app/model/ThumbnailModel.cpp:422-428 | the same as `clearCache` |
| Thumbnails.ThumbnailModel.SetDocument | app/model/ThumbnailModel.cpp:173-185 | the document is stored and the cache cleared |
| Thumbnails.ThumbnailModel.RefreshThumbnail | app/model/ThumbnailModel.cpp:399-420 | outside the document nothing changes. Otherwise the entry and its bytes go, and the page is requested afresh: a new loading entry and one call if it passes the gate |
| Thumbnails.ThumbnailModel.UpdateMemoryUsage | app/model/ThumbnailModel.cpp:589-599 | the counter becomes the total of entry sizes |
| Thumbnails.ThumbnailModel.AdaptCacheSize | app/model/ThumbnailModel.cpp:811-831 | within 30000 ms of the last run nothing changes; otherwise the time is recorded and the limit becomes `AdaptedCacheSize` |
| Thumbnails.ThumbnailModel.CleanupCache | app/model/ThumbnailModel.cpp:534-555 | an empty cache is unchanged. Otherwise the limit is adapted, and afterwards the count is within it and memory fits or the cache is empty. Survivors are unchanged. When memory already fitted, the count becomes exactly min(old count, adapted limit); when, in addition, the count already fitted, nothing is evicted. Across both loops every evicted entry precedes every survivor in the policy's LRU or LFU order |
| Thumbnails.ThumbnailModel.EvictToEntryLimit | app/model/ThumbnailModel.cpp:545-547 | the count becomes exactly min(old count, limit), survivors are unchanged, the counter does not grow, and nothing changes when the count already fits. Every evicted entry precedes every survivor in the policy's LRU or LFU order, and survivors keep their frequencies |
| Thumbnails.ThumbnailModel.EvictToMemoryLimit | app/model/ThumbnailModel.cpp:550-552 | afterwards memory fits or the cache is empty, survivors are unchanged, and nothing changes when memory already fits. Every evicted entry precedes every survivor in the policy's LRU or LFU order, and survivors keep their frequencies |
| ThumbnailPolicy.EvictedByPolicyTrans | app/model/ThumbnailModel.cpp:545-552 | two eviction runs under one policy, the second starting from what the first kept with the survivors' frequencies unchanged, together evict in that policy's order: the two loops of `cleanupCache` compose |
| Thumbnails.ThumbnailModel.SetPreloadRange | app/model/ThumbnailModel.cpp:286-288 | the preload range becomes max(0, range) |
| Thumbnails.ThumbnailModel.PreloadVisibleRange | app/model/ThumbnailModel.cpp:430-446 | the queue gains exactly the pages of [max(0, first-range), min(n-1, last+range)] that `shouldPreload` accepts |
| Thumbnails.ThumbnailModel.OnPreloadTimer | app/model/ThumbnailModel.cpp:516-532 | an empty queue changes nothing; otherwise some queued page is removed and has the full effect of `requestThumbnail` |
| Thumbnails.ThumbnailModel.SetLazyLoadingEnabled | app/model/ThumbnailModel.cpp:635-642 | the flag is stored |
| Thumbnails.ThumbnailModel.UpdateViewportPriorities | app/model/ThumbnailModel.cpp:657-692 | without a document nothing changes. Otherwise the table holds exactly 0 for document pages in [s, e], 1 for pages in [max(0, s-m), s) and (e, min(n-1, e+m)], and nothing else |
| Thumbnails.ThumbnailModel.SetViewportRange | app/model/ThumbnailModel.cpp:644-655 | the viewport is stored; under lazy loading with a document the table is rebuilt as above |
| Thumbnails.ThumbnailModel.OnPriorityUpdateTimer | app/model/ThumbnailModel.cpp:723-727 | under lazy loading with a document the table is rebuilt, otherwise left alone |
| GraphicsViewer.PdfPageItem.constructor | app/ui/viewer/QGraphicsPDFViewer.cpp:15-27 | page -1, rotation 0, no search results, cursor -1 |
| GraphicsViewer.PdfPageItem.SetPage | app/ui/viewer/QGraphicsPDFViewer.cpp:43-55 | the rotation becomes the normalised angle; a real page sets the page number |
| GraphicsViewer.PdfPageItem.SetRotation | app/ui/viewer/QGraphicsPDFViewer.cpp:65-71 | the rotation becomes the normalised angle, and no other field changes |
| GraphicsViewer.PdfPageItem.SetSearchResults | app/ui/viewer/QGraphicsPDFViewer.cpp:165-169 | the results are stored and the cursor is reset to -1 |
| GraphicsViewer.PdfPageItem.ClearSearchHighlights | app/ui/viewer/QGraphicsPDFViewer.cpp:171-175 | no results and cursor -1 |
| GraphicsViewer.PdfPageItem.SetCurrentSearchResult | app/ui/viewer/QGraphicsPDFViewer.cpp:177-182 | an index in [0, size) becomes current and any other is ignored, so the cursor is always -1 or a valid index |
| GraphicsViewer.PdfScene.constructor | app/ui/viewer/QGraphicsPDFViewer.cpp:214-223 | no document, no items, rotation 0 |
| GraphicsViewer.PdfScene.GetPageItem | app/ui/viewer/QGraphicsPDFViewer.cpp:282-284 | an item is found exactly when the page has one. In a valid scene a found item belongs to a loadable page of the open document and carries that page's number and the scene's rotation; without a document nothing is found |
| GraphicsViewer.PdfScene.AddPage | app/ui/viewer/QGraphicsPDFViewer.cpp:244-264 | no document, an out-of-range page, a present page or an unloadable page leave the map unchanged; otherwise exactly one fresh item with that page number and the scene's rotation is added |
| GraphicsViewer.PdfScene.RemovePage | app/ui/viewer/QGraphicsPDFViewer.cpp:266-272 | exactly that key is removed |
| GraphicsViewer.PdfScene.RemoveAllPages | app/ui/viewer/QGraphicsPDFViewer.cpp:274-280 | the map is empty |
| GraphicsViewer.PdfScene.ClearDocument | app/ui/viewer/QGraphicsPDFViewer.cpp:239-242 | no items and no document |
| GraphicsViewer.PdfScene.SetDocument | app/ui/viewer/QGraphicsPDFViewer.cpp:225-237 | the keys become exactly the loadable pages of [0, n), which is all of {0..n-1} when every page loads; without a document the map is empty; all items are fresh |
| GraphicsViewer.PdfScene.SetRotation | app/ui/viewer/QGraphicsPDFViewer.cpp:327-336 | the scene and every item take the normalised angle; the map and the items' search data are unchanged; the current angle touches nothing |
| GraphicsViewer.PdfViewer.constructor | app/ui/viewer/QGraphicsPDFViewer.cpp:382-397 | no document, page 0, rotation 0, a fresh scene |
| GraphicsViewer.PdfViewer.GoToPage | app/ui/viewer/QGraphicsPDFViewer.cpp:538-552 | with a document and a page in [0, count) the page becomes current; otherwise nothing changes |
| GraphicsViewer.PdfViewer.NextPage | app/ui/viewer/QGraphicsPDFViewer.cpp:554-558 | moves forward by exactly one before the last page, does nothing at or past it, and keeps the page in range |
| GraphicsViewer.PdfViewer.PreviousPage | app/ui/viewer/QGraphicsPDFViewer.cpp:560-564 | moves back by exactly one after page 0, does nothing at 0, and keeps the page in range |
| GraphicsViewer.PdfViewer.FirstPage | app/ui/viewer/QGraphicsPDFViewer.cpp:566 | page 0 of a non-empty document, otherwise unchanged |
| GraphicsViewer.PdfViewer.LastPage | app/ui/viewer/QGraphicsPDFViewer.cpp:568 | page count-1 of a non-empty document, otherwise unchanged |
| GraphicsViewer.PdfViewer.ClearDocument | app/ui/viewer/QGraphicsPDFViewer.cpp:530-536 | scene emptied, no document, page 0 |
| GraphicsViewer.PdfViewer.SetDocument | app/ui/viewer/QGraphicsPDFViewer.cpp:494-528 | page 0, the document stored, the scene showing exactly its loadable pages (empty without a document) |
| GraphicsViewer.PdfViewer.OnScenePageClicked | app/ui/viewer/QGraphicsPDFViewer.cpp:768-774 | the clicked page becomes current without a range check; a page that has an item in the scene is in range |
| GraphicsViewer.PdfViewer.SetRotation | app/ui/viewer/QGraphicsPDFViewer.cpp:604-618 | the viewer, its scene and every item take the normalised angle. The scene keeps its items, and each item keeps its search results and cursor. The current angle leaves every item untouched |
| GraphicsViewer.PdfViewer.RotateLeft | app/ui/viewer/QGraphicsPDFViewer.cpp:598 | the rotation becomes Normalize(r - 90), which always differs from r, and a quarter turn stays a quarter turn; the scene keeps its items and their search data |
| GraphicsViewer.PdfViewer.RotateRight | app/ui/viewer/QGraphicsPDFViewer.cpp:600 | the rotation becomes Normalize(r + 90), which always differs from r, and a quarter turn stays a quarter turn; the scene keeps its items and their search data |
| GraphicsViewer.PdfViewer.ResetRotation | app/ui/viewer/QGraphicsPDFViewer.cpp:602 | the rotation becomes 0; the scene keeps its items and their search data, and at rotation 0 already no item is touched |

## Left out

- Locking (`QMutex`, `QMutexLocker`): every operation is atomic. Two places lock `m_thumbnailsMutex` while the caller already holds it. `evictLeastFrequentlyUsed` does so at ThumbnailModel.cpp:751, under 455 and 535. `requestThumbnail` does so at line 300, reached from `data` (which holds the lock from line 85) on every miss that passes the gate. These are concurrency defects and are not modelled.
- Timers, `QtConcurrent` and `QFutureWatcher`: the preload, cleanup and priority timers and the page items' render debouncing. Timer ticks (`onPreloadTimer`, `onPriorityUpdateTimer`, `cleanupCache`) are explicit method calls. Starting and stopping timers is not modelled.
- Qt signals, `dataChanged` notifications, logging, `rowCount`, `flags` and `roleNames`.
- Poppler: rendering, the page object and `pageSizeF`. The document is its page count plus the set of pages whose page object loads. A page size is an input to `DataPageSize`.
- Thumbnails.ThumbnailModel.constructor: the header `ThumbnailModel.h` is not part of this model. The default size, quality, limits and preload range are constructor parameters. A default-constructed entry is assumed to have a null pixmap, 0 bytes, cleared flags, an empty message, access time 0 and an invalid page size.
- Floating point: the quality is a `real`, compared exactly with the 0.001 tolerance. Efficiency thresholds are integer comparisons, proved equal to the real comparisons. Zoom, scale clamping, fit-to-view, layout offsets and `updateCurrentPage`'s overlap search are not modelled.
- Thumbnails.ThumbnailModel.EvictLeastFrequentlyUsed: the `INT_MAX` and `LLONG_MAX` starting values are taken to exceed every stored frequency and time. The search starts at an entry of the map. The `leastFrequentPage >= 0` guard always holds because keys are page numbers.
- The order in which Qt's hash containers iterate is not shown. A "first found" tie-break and `*m_preloadQueue.begin()` are therefore modelled as some element satisfying the condition.
- Integer widths: counters, sizes and byte counts are unbounded integers, so `int` and `qint64` overflow is not modelled.
- Thumbnails.ThumbnailModel.SetThumbnailSize: the `QSize` comparison is on the two stored integers; the generator's own size and quality settings are not part of this model.
- GraphicsViewer.PdfScene.RemoveAllPages: deleting the items and removing them from the Qt scene is memory management, so the model only empties the map.
- GraphicsViewer.PdfPageItem.SetPage: the scale factor, high-quality flag, pixmap and render requests are not modelled.
- Mouse, wheel, key and resize event forwarding, the toolbar (`QGraphicsPDFViewerToolbar`), view modes, page spacing and margins: these are widget plumbing.
- Helper methods `RequestPages`, `RequestRangePage`, `StartGeneration`, `TouchEntry`, `CountMissAndRequest`, `InvalidateEntry` and `MarkMargin` are single loops, loop bodies or steps of the operations above, split out to keep each proof small. The functions `Touched` and `DropRare` name the state `data` leaves after touching a page and the pruning step of `updateAccessFrequency`.

## Findings

| source | as written | input that shows it | evidently intended | confidence | as-written member | corrected member |
|---|---|---|---|---|---|---|
| app/model/ThumbnailModel.cpp:468-470 | the completion callback adds the new pixmap's bytes to `m_currentMemory` without subtracting the `memorySize` of the pixmap it replaces | a page with a 10x10 pixmap (400 bytes) gets a second completion with another 10x10 pixmap, e.g. after `refreshThumbnail` or `clearCache` left an earlier generation in flight: the entries hold 400 bytes, the counter 800 | `m_currentMemory` stays the sum of entry sizes, as `updateMemoryUsage` recomputes it | medium (whether the generator can deliver twice is outside this model); not executed | Thumbnails.ThumbnailModel.OnThumbnailGenerated, Thumbnails.ThumbnailModel.SecondCompletionOvercounts | Thumbnails.ThumbnailModel.OnThumbnailGeneratedCorrected |
