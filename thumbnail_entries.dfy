/** The per-page record of the thumbnail cache and the accounting of the bytes
    its pixmaps hold. */
module ThumbnailEntries {
  import opened Common

  /** A rendered thumbnail: either a default-constructed `QPixmap` or an image
      of the given size. */
  datatype Pixmap = NullPixmap | Pixmap(width: nat, height: nat) {
    /** `QPixmap::isNull`: no image data, which includes a zero width or height. */
    predicate IsNull() { NullPixmap? || width == 0 || height == 0 }
  }

  /** A page size as Qt's `QSize`; a default-constructed one is (-1, -1). */
  datatype PageSize = PageSize(width: int, height: int) {
    predicate IsEmpty() { width <= 0 || height <= 0 }
  }

  /** One cached page (`ThumbnailItem`). */
  datatype Entry = Entry(
    pixmap: Pixmap,
    memorySize: int,
    isLoading: bool,
    hasError: bool,
    errorMessage: string,
    lastAccessed: int,
    pageSize: PageSize)

  const InvalidPageSize := PageSize(-1, -1)

  /** The record that `m_thumbnails[page]` default-constructs for a missing key. */
  const NewEntry := Entry(NullPixmap, 0, false, false, "", 0, InvalidPageSize)

  /** Bytes held by a pixmap: four per pixel (ARGB32), none for a null pixmap. */
  function PixmapMemory(p: Pixmap): (bytes: int)
    ensures bytes >= 0
    ensures bytes == 0 <==> p.IsNull()
  {
    if p.IsNull() then 0 else p.width * p.height * 4
  }

  /** The entry invariants every operation keeps: the entry holds exactly
      its pixmap's bytes (none for a null pixmap), a page is never loading and
      failed at the same time, and only a failed page carries a message. */
  predicate WellFormed(e: Entry)
  {
    && e.memorySize == PixmapMemory(e.pixmap)
    && !(e.isLoading && e.hasError)
    && (!e.hasError ==> e.errorMessage == "")
  }

  /** The entry for `page`, or the one `m_thumbnails[page]` would create. */
  function EntryOrNew(m: map<int, Entry>, page: int): Entry
  {
    if page in m then m[page] else NewEntry
  }

  /** A page needs a generator call: it has no entry, or its entry has no
      pixmap and nothing is loading (`requestThumbnailRange`'s `needRequest`). */
  predicate NeedsGeneration(m: map<int, Entry>, page: int)
  {
    page !in m || (m[page].pixmap.IsNull() && !m[page].isLoading)
  }

  /** The entry once a generator call has been issued for it. */
  function StartLoading(e: Entry, now: int): (r: Entry)
    ensures r.isLoading && !r.hasError && r.errorMessage == ""
    ensures r.pixmap == e.pixmap && r.memorySize == e.memorySize && r.pageSize == e.pageSize
    ensures WellFormed(e) ==> WellFormed(r)
  {
    e.(isLoading := true, hasError := false, errorMessage := "", lastAccessed := now)
  }

  /** The entry once the generator delivered `pixmap`. */
  function Completed(e: Entry, pixmap: Pixmap, now: int): (r: Entry)
    ensures WellFormed(r)
    ensures r.pixmap == pixmap && !r.isLoading && !r.hasError && r.pageSize == e.pageSize
  {
    e.(pixmap := pixmap, isLoading := false, hasError := false, errorMessage := "",
       lastAccessed := now, memorySize := PixmapMemory(pixmap))
  }

  /** The entry once the generator reported `message` as failure. */
  function Failed(e: Entry, message: string, now: int): (r: Entry)
    ensures r.hasError && !r.isLoading && r.errorMessage == message
    ensures r.pixmap == e.pixmap && r.memorySize == e.memorySize && r.pageSize == e.pageSize
    ensures WellFormed(e) ==> WellFormed(r)
  {
    e.(isLoading := false, hasError := true, errorMessage := message, lastAccessed := now)
  }

  /** The entry after a size or quality change: a rendered pixmap is dropped
      together with its memory and loading flag; everything else stays. */
  function Invalidated(e: Entry): (r: Entry)
    ensures r.pixmap.IsNull()
    ensures WellFormed(e) ==> WellFormed(r) && r.memorySize == 0
    ensures r.lastAccessed == e.lastAccessed && r.hasError == e.hasError
            && r.errorMessage == e.errorMessage && r.pageSize == e.pageSize
    ensures e.pixmap.IsNull() ==> r == e
  {
    if !e.pixmap.IsNull() then e.(pixmap := NullPixmap, memorySize := 0, isLoading := false) else e
  }

  /** Sum of `memorySize` over the given keys. */
  ghost function SumOver(m: map<int, Entry>, keys: set<int>): int
    requires keys <= m.Keys
    decreases keys
  {
    if keys == {} then 0
    else
      HasElement(keys);
      var k :| k in keys;
      m[k].memorySize + SumOver(m, keys - {k})
  }

  /** What `updateMemoryUsage` recomputes: the bytes of every cached entry. */
  ghost function TotalMemory(m: map<int, Entry>): int
  {
    SumOver(m, m.Keys)
  }

  /** Any key can be taken out of the sum first. */
  lemma {:induction false} SumOverRemove(m: map<int, Entry>, keys: set<int>, j: int)
    requires keys <= m.Keys && j in keys
    ensures SumOver(m, keys) == m[j].memorySize + SumOver(m, keys - {j})
    decreases keys
  {
    var k :| k in keys && SumOver(m, keys) == m[k].memorySize + SumOver(m, keys - {k});
    if k != j {
      SumOverRemove(m, keys - {k}, j);
      SumOverRemove(m, keys - {j}, k);
      assert keys - {k} - {j} == keys - {j} - {k};
    }
  }

  /** The sum only depends on the sizes stored under the summed keys. */
  lemma {:induction false} SumOverAgree(m1: map<int, Entry>, m2: map<int, Entry>, keys: set<int>)
    requires keys <= m1.Keys && keys <= m2.Keys
    requires forall k :: k in keys ==> m1[k].memorySize == m2[k].memorySize
    ensures SumOver(m1, keys) == SumOver(m2, keys)
    decreases keys
  {
    if keys != {} {
      HasElement(keys);
      var k :| k in keys;
      SumOverRemove(m1, keys, k);
      SumOverRemove(m2, keys, k);
      SumOverAgree(m1, m2, keys - {k});
    }
  }

  /** Erasing an entry frees exactly its `memorySize`. */
  lemma TotalMemoryErase(m: map<int, Entry>, k: int)
    requires k in m
    ensures TotalMemory(m - {k}) == TotalMemory(m) - m[k].memorySize
  {
    assert (m - {k}).Keys == m.Keys - {k};
    SumOverRemove(m, m.Keys, k);
    SumOverAgree(m - {k}, m, m.Keys - {k});
  }

  /** Storing an entry replaces the old entry's bytes (none if absent) by the new one's. */
  lemma TotalMemoryStore(m: map<int, Entry>, k: int, e: Entry)
    ensures TotalMemory(m[k := e]) == TotalMemory(m) - EntryOrNew(m, k).memorySize + e.memorySize
  {
    var m' := m[k := e];
    SumOverRemove(m', m'.Keys, k);
    assert m'.Keys - {k} == m.Keys - {k};
    SumOverAgree(m', m, m.Keys - {k});
    if k in m {
      SumOverRemove(m, m.Keys, k);
    } else {
      assert m.Keys - {k} == m.Keys;
    }
  }

  lemma {:induction false} SumOverZero(m: map<int, Entry>, keys: set<int>)
    requires keys <= m.Keys
    requires forall k :: k in keys ==> m[k].memorySize == 0
    ensures SumOver(m, keys) == 0
    decreases keys
  {
    if keys != {} {
      HasElement(keys);
      var k :| k in keys;
      SumOverRemove(m, keys, k);
      SumOverZero(m, keys - {k});
    }
  }

  /** A cache whose pixmaps are all null accounts for no memory. */
  lemma TotalMemoryOfInvalidated(m: map<int, Entry>)
    requires forall k :: k in m ==> WellFormed(m[k])
    ensures TotalMemory(map k | k in m :: Invalidated(m[k])) == 0
  {
    var m' := map k | k in m :: Invalidated(m[k]);
    SumOverZero(m', m'.Keys);
  }

  /** The loop of `updateMemoryUsage`: adds up `memorySize` over all entries. */
  method SumMemory(m: map<int, Entry>) returns (total: int)
    ensures total == TotalMemory(m)
  {
    total := 0;
    var pending := m.Keys;
    while pending != {}
      invariant pending <= m.Keys
      invariant total + SumOver(m, pending) == TotalMemory(m)
      decreases pending
    {
      HasElement(pending);
      var k :| k in pending;
      SumOverRemove(m, pending, k);
      total := total + m[k].memorySize;
      pending := pending - {k};
    }
  }
}
