/** The decisions the thumbnail cache takes from its counters and tables:
    cache efficiency, the LRU and LFU victims, the periodic resizing of the
    entry limit, the viewport gate and priority table, and the access
    frequency table. */
module ThumbnailPolicy {
  import opened Common
  import opened ThumbnailEntries

  /** `calculateCacheEfficiency`: the hit rate, 1.0 before any access. */
  function Efficiency(hits: nat, misses: nat): (e: real)
    ensures 0.0 <= e <= 1.0
    ensures hits + misses > 0 ==> e * (hits + misses) as real == hits as real
  {
    if hits + misses == 0 then 1.0 else hits as real / (hits + misses) as real
  }

  /** `Efficiency(hits, misses) > num / den`, decided in integers. */
  predicate EfficiencyAbove(hits: nat, misses: nat, num: nat, den: nat)
    requires den > 0
  {
    var total := hits + misses;
    if total == 0 then num < den else den * hits > num * total
  }

  /** `Efficiency(hits, misses) < num / den`, decided in integers. */
  predicate EfficiencyBelow(hits: nat, misses: nat, num: nat, den: nat)
    requires den > 0
  {
    var total := hits + misses;
    if total == 0 then den < num else den * hits < num * total
  }

  /** The integer test is exactly the comparison of the hit rate with the threshold. */
  lemma EfficiencyAboveExact(hits: nat, misses: nat, num: nat, den: nat)
    requires den > 0
    ensures EfficiencyAbove(hits, misses, num, den) <==> Efficiency(hits, misses) > num as real / den as real
  {
    var total := hits + misses;
    if total > 0 {
      ScaledComparison(Efficiency(hits, misses), hits, total, num, den);
    } else {
      ScaledComparison(1.0, 1, 1, num, den);
    }
  }

  /** The integer test is exactly the comparison of the hit rate with the threshold. */
  lemma EfficiencyBelowExact(hits: nat, misses: nat, num: nat, den: nat)
    requires den > 0
    ensures EfficiencyBelow(hits, misses, num, den) <==> Efficiency(hits, misses) < num as real / den as real
  {
    var total := hits + misses;
    if total > 0 {
      ScaledComparison(Efficiency(hits, misses), hits, total, num, den);
    } else {
      ScaledComparison(1.0, 1, 1, num, den);
    }
  }

  /** A rate `e` with `e * t == h` compared with n / d is d * h compared with
      n * t, for positive t and d. */
  lemma ScaledComparison(e: real, h: nat, t: nat, n: nat, d: nat)
    requires t > 0 && d > 0 && e * t as real == h as real
    ensures e < n as real / d as real <==> d * h < n * t
    ensures e > n as real / d as real <==> d * h > n * t
  {
    var q := n as real / d as real;
    var k := t as real * d as real;
    assert q * d as real == n as real;
    assert k > 0.0;
    assert e * k == (e * t as real) * d as real == h as real * d as real == (d * h) as real;
    assert q * k == (q * d as real) * t as real == n as real * t as real == (n * t) as real;
    if e < q {
      assert (q - e) * k > 0.0;
    } else if e > q {
      assert (e - q) * k > 0.0;
    }
  }

  /** `evictByAdaptivePolicy` uses LRU when adaptive caching is off or the
      efficiency exceeds 0.7, and LFU otherwise. */
  predicate PrefersLru(adaptiveCaching: bool, hits: nat, misses: nat)
  {
    !adaptiveCaching || EfficiencyAbove(hits, misses, 7, 10)
  }

  /** `m_accessFrequency.value(page, 0)`. */
  function FrequencyOf(freq: map<int, int>, page: int): int
  {
    if page in freq then freq[page] else 0
  }

  /** `v` is an entry whose last access is no later than any other's. */
  predicate IsLruVictim(m: map<int, Entry>, v: int)
  {
    v in m && forall k :: k in m ==> m[v].lastAccessed <= m[k].lastAccessed
  }

  /** `v` has the lowest access frequency, and among those the oldest access. */
  predicate IsLfuVictim(m: map<int, Entry>, freq: map<int, int>, v: int)
  {
    v in m && forall k :: k in m ==> LfuPrecedes(m, freq, v, k)
  }

  /** The LFU order: `r` goes no later than `k` when its frequency is lower,
      or equal with an access no later. */
  predicate LfuPrecedes(m: map<int, Entry>, freq: map<int, int>, r: int, k: int)
    requires r in m && k in m
  {
    || FrequencyOf(freq, r) < FrequencyOf(freq, k)
    || (FrequencyOf(freq, r) == FrequencyOf(freq, k) && m[r].lastAccessed <= m[k].lastAccessed)
  }

  /** Every entry erased between `before` and `after` was accessed no later
      than every entry kept. */
  predicate EvictedOldestFirst(before: map<int, Entry>, after: map<int, Entry>)
  {
    forall r, k :: r in before && r !in after && k in after && k in before ==>
      before[r].lastAccessed <= before[k].lastAccessed
  }

  /** Every entry erased between `before` and `after` goes no later than
      every entry kept in the LFU order of `before` and `freq`. */
  predicate EvictedLeastFrequentFirst(before: map<int, Entry>, freq: map<int, int>, after: map<int, Entry>)
  {
    forall r, k :: r in before && r !in after && k in after && k in before ==> LfuPrecedes(before, freq, r, k)
  }

  /** The victims of repeated `evictByAdaptivePolicy` calls under one
      policy: oldest first under LRU, least frequent first under LFU. */
  predicate EvictedByPolicy(lru: bool, before: map<int, Entry>, freq: map<int, int>, after: map<int, Entry>)
  {
    if lru then EvictedOldestFirst(before, after) else EvictedLeastFrequentFirst(before, freq, after)
  }

  /** Two eviction runs under the same policy, the second started from what
      the first kept (with the frequencies of the kept entries unchanged),
      together evict in policy order: `cleanupCache`'s two loops. */
  lemma {:induction false} EvictedByPolicyTrans(lru: bool, a: map<int, Entry>, fa: map<int, int>,
                                                b: map<int, Entry>, fb: map<int, int>, c: map<int, Entry>)
    requires forall k :: k in b ==> k in a && b[k] == a[k]
    requires forall k :: k in c ==> k in b && c[k] == b[k]
    requires forall k :: k in b ==> FrequencyOf(fb, k) == FrequencyOf(fa, k)
    requires EvictedByPolicy(lru, a, fa, b) && EvictedByPolicy(lru, b, fb, c)
    ensures EvictedByPolicy(lru, a, fa, c)
  {
    forall r, k | r in a && r !in c && k in c && k in a
      ensures if lru then a[r].lastAccessed <= a[k].lastAccessed else LfuPrecedes(a, fa, r, k)
    {
      if r in b {
        assert if lru then b[r].lastAccessed <= b[k].lastAccessed else LfuPrecedes(b, fb, r, k);
      }
    }
  }

  /** The search loop of `evictLeastRecentlyUsed`: keeps the first entry seen
      with the smallest `lastAccessed`. */
  method FindLeastRecentlyUsed(m: map<int, Entry>) returns (victim: int)
    requires m != map[]
    ensures IsLruVictim(m, victim)
  {
    HasElement(m.Keys);
    victim :| victim in m;
    var oldestTime := m[victim].lastAccessed;
    var pending := m.Keys - {victim};
    while pending != {}
      invariant pending <= m.Keys && victim in m
      invariant oldestTime == m[victim].lastAccessed
      invariant forall k :: k in m && k !in pending ==> oldestTime <= m[k].lastAccessed
      decreases pending
    {
      HasElement(pending);
      var k :| k in pending;
      if m[k].lastAccessed < oldestTime {
        oldestTime := m[k].lastAccessed;
        victim := k;
      }
      pending := pending - {k};
    }
  }

  /** The search loop of `evictLeastFrequentlyUsed`: keeps the first entry
      seen with the smallest (frequency, lastAccessed) pair. */
  method FindLeastFrequentlyUsed(m: map<int, Entry>, freq: map<int, int>) returns (victim: int)
    requires m != map[]
    ensures IsLfuVictim(m, freq, victim)
  {
    HasElement(m.Keys);
    victim :| victim in m;
    var minFrequency := FrequencyOf(freq, victim);
    var oldestTime := m[victim].lastAccessed;
    var pending := m.Keys - {victim};
    while pending != {}
      invariant pending <= m.Keys && victim in m
      invariant minFrequency == FrequencyOf(freq, victim) && oldestTime == m[victim].lastAccessed
      invariant forall k :: k in m && k !in pending ==>
                  || minFrequency < FrequencyOf(freq, k)
                  || (minFrequency == FrequencyOf(freq, k) && oldestTime <= m[k].lastAccessed)
      decreases pending
    {
      HasElement(pending);
      var k :| k in pending;
      var frequency := FrequencyOf(freq, k);
      if frequency < minFrequency || (frequency == minFrequency && m[k].lastAccessed < oldestTime) {
        minFrequency := frequency;
        oldestTime := m[k].lastAccessed;
        victim := k;
      }
      pending := pending - {k};
    }
  }

  const MAX_ADAPTED_CACHE_SIZE := 300
  const MIN_ADAPTED_CACHE_SIZE := 50

  /** The entry limit `adaptCacheSize` settles on: grow by 10 (capped at 300)
      when efficiency exceeds 0.8 and memory use is below 80% of the limit,
      shrink by 5 (floored at 50) when efficiency is below 0.5. */
  function AdaptedCacheSize(size: int, hits: nat, misses: nat, currentMemory: int, maxMemory: int): (r: int)
    ensures r > size ==>
              || (EfficiencyAbove(hits, misses, 8, 10) && 5 * currentMemory < 4 * maxMemory
                  && r <= size + 10 && r <= MAX_ADAPTED_CACHE_SIZE)
              || (EfficiencyBelow(hits, misses, 1, 2) && r == MIN_ADAPTED_CACHE_SIZE)
    ensures r < size ==>
              || (EfficiencyBelow(hits, misses, 1, 2) && r >= size - 5 && r >= MIN_ADAPTED_CACHE_SIZE)
              || (EfficiencyAbove(hits, misses, 8, 10) && r == MAX_ADAPTED_CACHE_SIZE)
    ensures MIN_ADAPTED_CACHE_SIZE <= size <= MAX_ADAPTED_CACHE_SIZE ==>
              MIN_ADAPTED_CACHE_SIZE <= r <= MAX_ADAPTED_CACHE_SIZE
    ensures size >= 1 ==> r >= 1
    ensures !EfficiencyAbove(hits, misses, 8, 10) && !EfficiencyBelow(hits, misses, 1, 2) ==> r == size
  {
    if EfficiencyAbove(hits, misses, 8, 10) && 5 * currentMemory < 4 * maxMemory then
      Min(size + 10, MAX_ADAPTED_CACHE_SIZE)
    else if EfficiencyBelow(hits, misses, 1, 2) then
      Max(size - 5, MIN_ADAPTED_CACHE_SIZE)
    else
      size
  }

  /** `isInViewport`: every page passes until a viewport is set; afterwards
      the visible range widened by the margin (clamped at page 0). */
  predicate InViewport(visibleStart: int, visibleEnd: int, margin: int, page: int)
  {
    visibleStart < 0 || visibleEnd < 0 || (Max(0, visibleStart - margin) <= page <= visibleEnd + margin)
  }

  /** Pages `updateViewportPriorities` marks visible: [start, end] within the document. */
  predicate VisiblePage(start: int, end: int, numPages: int, page: int)
  {
    start <= page <= end && 0 <= page < numPages
  }

  /** Pages it marks as margin: [max(0, start - margin), start) and (end, min(numPages - 1, end + margin)]. */
  predicate MarginPage(start: int, end: int, margin: int, numPages: int, page: int)
  {
    || (Max(0, start - margin) <= page < start)
    || (end < page <= Min(numPages - 1, end + margin))
  }

  /** Inside a set viewport with a non-negative margin, the priority table
      covers exactly the document pages that pass the viewport gate. */
  lemma PrioritisedIffInViewport(start: int, end: int, margin: int, numPages: int, page: int)
    requires 0 <= start <= end && margin >= 0
    requires 0 <= page < numPages
    ensures VisiblePage(start, end, numPages, page) || MarginPage(start, end, margin, numPages, page)
            <==> InViewport(start, end, margin, page)
  {
  }

  /** The frequency table after one access to `page`: the count goes up by
      one and, once the table holds more than twice the entry limit, every
      count of at most one is dropped (the page just counted included). */
  function AfterAccess(freq: map<int, int>, page: int, maxCacheSize: int): map<int, int>
  {
    var bumped := freq[page := FrequencyOf(freq, page) + 1];
    if |bumped| > maxCacheSize * 2 then DropRare(bumped) else bumped
  }

  /** What one access does to the table, stated against the table before:
      the page's count rises by one unless pruning drops it, no other count
      changes, only rare counts are dropped and only past the threshold, and
      the table grows by at most one entry. */
  lemma AfterAccessCounts(freq: map<int, int>, page: int, maxCacheSize: int)
    ensures var r := AfterAccess(freq, page, maxCacheSize);
            && (page in r ==> r[page] == FrequencyOf(freq, page) + 1)
            && (page !in r ==> |freq.Keys + {page}| > maxCacheSize * 2 && FrequencyOf(freq, page) <= 0)
            && (forall k :: k in r && k != page ==> k in freq && r[k] == freq[k])
            && (forall k :: k in freq && k !in r ==> |freq.Keys + {page}| > maxCacheSize * 2 && (k == page || freq[k] <= 1))
            && (forall k :: k in freq && k != page && freq[k] > 1 ==> k in r)
            && (|freq.Keys + {page}| <= maxCacheSize * 2 ==> r.Keys == freq.Keys + {page})
            && |r| <= |freq| + 1
  {
    var bumped := freq[page := FrequencyOf(freq, page) + 1];
    assert bumped.Keys == freq.Keys + {page};
  }

  /** The counts above one, with their values; the table never grows. */
  function DropRare(freq: map<int, int>): (r: map<int, int>)
    ensures forall k :: k in r <==> k in freq && freq[k] > 1
    ensures forall k :: k in r ==> r[k] == freq[k]
    ensures |r| <= |freq|
  {
    var r := map k | k in freq && freq[k] > 1 :: freq[k];
    SubsetCardinality(r.Keys, freq.Keys);
    r
  }

  /** A subset is no larger than the set that contains it. */
  lemma {:induction false} SubsetCardinality(a: set<int>, b: set<int>)
    requires a <= b
    ensures |a| <= |b|
    decreases b
  {
    if a != {} {
      HasElement(a);
      var x :| x in a;
      SubsetCardinality(a - {x}, b - {x});
    }
  }
}
