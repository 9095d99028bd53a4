/**
 * DiskBackedMemoryCache: a memory tier in front of a disk tier of one file per key, with an
 * estimated byte counter that triggers a least-recently-used purge of the memory tier.
 * The background tasks of DiskBackedMemoryCache.cs (the disk write and the purge) run here synchronously,
 * at the point where the C# code starts them; the clock is the `now` parameter, in ticks.
 */
module DiskBackedMemory {
  import opened Wrappers
  import opened KeyEncoder
  import opened CacheEntries
  import opened MemoryStore

  /** The files of the cache folder: file name to the entry its bytes deserialize to. */
  type Disk = map<string, CacheEntry>

  /** The entry a read examines: the resident one, or else the one in the key's file. */
  function Lookup(memory: Memory, disk: Disk, key: string): (r: Option<CacheEntry>)
    ensures r.None? <==> (key !in memory || memory[key].None?) && GetFileName(key) !in disk
  {
    if key in memory && memory[key].Some? then memory[key]
    else if GetFileName(key) in disk then Some(disk[GetFileName(key)])
    else None
  }

  /** What GetCacheEntry returns: a fresh, current-version entry stamped as accessed now, or nothing. */
  function ReadResult(memory: Memory, disk: Disk, key: string, now: int, versionIdentifier: string)
    : (r: Option<CacheEntry>)
    ensures r.Some? ==> !IsStale(r.value, now, versionIdentifier) && r.value.lastAccessed == now
    ensures r.Some? ==> Lookup(memory, disk, key).Some?
                        && r.value == Lookup(memory, disk, key).value.(lastAccessed := now)
    ensures Lookup(memory, disk, key).Some? ==>
              (r.Some? <==> !IsStale(Lookup(memory, disk, key).value, now, versionIdentifier))
  {
    match Lookup(memory, disk, key)
    case None => None
    case Some(e) => if IsStale(e, now, versionIdentifier) then None else Some(e.(lastAccessed := now))
  }

  /**
   * The state a read leaves behind, from memory, counter and disk to memory', counter' and disk'.
   * A resident entry is refreshed or tombstoned, and its file is kept either way. A miss
   * without a file changes nothing. A miss with a file promotes the entry, adds its bytes to
   * the counter and lets the purge run; a stale promoted entry is then tombstoned, its bytes
   * taken back and its file deleted. The refreshed access time of a promoted entry reaches
   * the memory tier only if the purge has not just evicted it.
   */
  ghost predicate ReadTransition(memory: Memory, counter: int, disk: Disk, key: string, now: int,
                                 versionIdentifier: string, maxMemoryBytes: int,
                                 memory': Memory, counter': int, disk': Disk)
  {
    if key in memory && memory[key].Some? then
      var e := memory[key].value;
      && disk' == disk
      && if IsStale(e, now, versionIdentifier) then
           memory' == memory[key := None] && counter' == counter - BodyLength(e)
         else
           memory' == memory[key := Some(e.(lastAccessed := now))] && counter' == counter
    else if GetFileName(key) !in disk then
      memory' == memory && counter' == counter && disk' == disk
    else
      exists purged :: PromotedRead(memory, counter, disk, key, now, versionIdentifier, maxMemoryBytes,
                                    purged, memory', counter', disk')
  }

  /** A read that promoted the key's file, after which the purge left the memory tier as `purged`. */
  ghost predicate PromotedRead(memory: Memory, counter: int, disk: Disk, key: string, now: int,
                               versionIdentifier: string, maxMemoryBytes: int, purged: Memory,
                               memory': Memory, counter': int, disk': Disk)
    requires GetFileName(key) in disk
  {
    var fileName := GetFileName(key);
    var e := disk[fileName];
    var promoted := counter + BodyLength(e);
    && PurgedFrom(memory[key := Some(e)], purged, promoted, maxMemoryBytes)
    && if IsStale(e, now, versionIdentifier) then
         memory' == purged[key := None] && counter' == counter && disk' == disk - {fileName}
       else
         && counter' == promoted && disk' == disk
         && memory' == if purged[key] == Some(e) then purged[key := Some(e.(lastAccessed := now))] else purged
  }

  /**
   * The state an accepted Set leaves behind: the counter trades the old slot's body bytes for
   * the new entry's, the key's file holds the new entry, and the memory tier is what the purge
   * makes of the old one with the new entry in the key's slot.
   */
  ghost predicate SetTransition(memory: Memory, counter: int, disk: Disk, key: string, stored: CacheEntry,
                                maxMemoryBytes: int, memory': Memory, counter': int, disk': Disk)
  {
    var oldLength := if key in memory then ResidentLength(memory[key]) else 0;
    && counter' == counter - oldLength + BodyLength(stored)
    && disk' == disk[GetFileName(key) := stored]
    && PurgedFrom(memory[key := Some(stored)], memory', counter', maxMemoryBytes)
  }

  /**
   * After an accepted Set, a read of the same key before the entry goes stale finds the
   * stored entry, in memory or, if the purge evicted it, in its file; the caller gets back
   * exactly what it stored.
   */
  lemma SetThenGetRoundTrip(memory: Memory, counter: int, disk: Disk, key: string, entry: CachedEntry,
                            validFor: int, setAt: int, readAt: int, versionIdentifier: string,
                            maxResponseBodyBytes: int, maxMemoryBytes: int,
                            memory': Memory, counter': int, disk': Disk)
    requires entry.CachedResponse? ==> |entry.body| <= maxResponseBodyBytes && |entry.body| < 0x8000_0000
    requires SetTransition(memory, counter, disk, key,
                           ConvertToCacheEntry(entry, validFor, versionIdentifier, maxResponseBodyBytes, setAt).value,
                           maxMemoryBytes, memory', counter', disk')
    requires !IsStale(ConvertToCacheEntry(entry, validFor, versionIdentifier, maxResponseBodyBytes, setAt).value,
                      readAt, versionIdentifier)
    ensures ReadResult(memory', disk', key, readAt, versionIdentifier).Some?
    ensures ToCachedEntry(ReadResult(memory', disk', key, readAt, versionIdentifier).value) == entry
  {
    ConvertRoundTrip(entry, validFor, versionIdentifier, maxResponseBodyBytes, setAt, readAt);
    var stored := ConvertToCacheEntry(entry, validFor, versionIdentifier, maxResponseBodyBytes, setAt).value;
    var mid := memory[key := Some(stored)];
    PurgeTombstonesOnlyResponses(mid, memory', counter', maxMemoryBytes);
    assert key in mid;
    assert Lookup(memory', disk', key) == Some(stored);
    ConvertRoundTrip(entry, validFor, versionIdentifier, maxResponseBodyBytes, setAt, readAt);
  }

  /**
   * After an accepted Set, a read once the stored entry has expired, or a read by a build with
   * another version identifier, gets nothing, whether the entry is still resident or only in its file.
   */
  lemma SetThenStaleReadMisses(memory: Memory, counter: int, disk: Disk, key: string, stored: CacheEntry,
                               maxMemoryBytes: int, memory': Memory, counter': int, disk': Disk,
                               readAt: int, readVersion: string)
    requires SetTransition(memory, counter, disk, key, stored, maxMemoryBytes, memory', counter', disk')
    requires IsStale(stored, readAt, readVersion)
    ensures ReadResult(memory', disk', key, readAt, readVersion).None?
  {
    PurgeTombstonesOnlyResponses(memory[key := Some(stored)], memory', counter', maxMemoryBytes);
    assert Lookup(memory', disk', key) == Some(stored);
  }

  /** A redeploy invalidates: an entry written under one version identifier never reads back under another. */
  lemma OtherVersionNeverReads(memory: Memory, counter: int, disk: Disk, key: string, entry: CachedEntry,
                               validFor: int, setAt: int, readAt: int, versionIdentifier: string,
                               readVersion: string, maxResponseBodyBytes: int, maxMemoryBytes: int,
                               memory': Memory, counter': int, disk': Disk)
    requires ConvertToCacheEntry(entry, validFor, versionIdentifier, maxResponseBodyBytes, setAt).Some?
    requires SetTransition(memory, counter, disk, key,
                           ConvertToCacheEntry(entry, validFor, versionIdentifier, maxResponseBodyBytes, setAt).value,
                           maxMemoryBytes, memory', counter', disk')
    requires readVersion != versionIdentifier
    ensures ReadResult(memory', disk', key, readAt, readVersion).None?
  {
    SetThenStaleReadMisses(memory, counter, disk, key,
                           ConvertToCacheEntry(entry, validFor, versionIdentifier, maxResponseBodyBytes, setAt).value,
                           maxMemoryBytes, memory', counter', disk', readAt, readVersion);
  }

  /**
   * Because file names drop bits, a read of "/item/P" that misses the memory tier is served
   * the entry stored for "/item/0", if that one is still fresh.
   */
  lemma CollidingKeyServesOtherEntry(memory: Memory, disk: Disk, now: int, versionIdentifier: string)
    requires "/item/P" !in memory || memory["/item/P"].None?
    requires GetFileName("/item/0") in disk
    requires !IsStale(disk[GetFileName("/item/0")], now, versionIdentifier)
    ensures ReadResult(memory, disk, "/item/P", now, versionIdentifier)
            == Some(disk[GetFileName("/item/0")].(lastAccessed := now))
  {
    DistinctKeysShareFileName();
  }

  class DiskBackedMemoryCache {
    /** `_esimatedUsedMemoryBytes`. */
    var estimatedUsedMemoryBytes: int
    const maxMemoryBytes: int
    const maxResponseBodyBytes: int
    const versionIdentifier: string
    /** `_memoryCache`. */
    var memoryCache: Memory
    /** The cache folder. */
    var disk: Disk

    /**
     * In a sequential run the estimate never falls below the bytes really resident: every
     * update moves both by the same amount, and the purge lowers only the real figure.
     */
    ghost predicate Valid()
      reads this
    {
      ResidentBytes(memoryCache) <= estimatedUsedMemoryBytes
    }

    /** A cache over a folder that already holds `files`, from earlier runs. */
    constructor (maxMemoryBytes: int, maxResponseBodyBytes: int, versionIdentifier: string, files: Disk)
      ensures Valid()
      ensures this.maxMemoryBytes == maxMemoryBytes && this.versionIdentifier == versionIdentifier
      ensures this.maxResponseBodyBytes == Int32Of(maxResponseBodyBytes)
      ensures memoryCache == map[] && estimatedUsedMemoryBytes == 0 && disk == files
    {
      this.maxMemoryBytes := maxMemoryBytes;
      this.maxResponseBodyBytes := Int32Of(maxResponseBodyBytes);
      this.versionIdentifier := versionIdentifier;
      memoryCache := map[];
      estimatedUsedMemoryBytes := 0;
      disk := files;
    }

    /** The purge's recount: the body bytes of the response entries now resident. */
    method ActualUsedMemoryBytes() returns (total: int)
      ensures total == ResidentBytes(memoryCache)
    {
      total := 0;
      var rest := memoryCache;
      while rest != map[]
        invariant total + ResidentBytes(rest) == ResidentBytes(memoryCache)
        decreases rest.Keys
      {
        var key :| key in rest;
        ResidentBytesRemove(rest, key);
        total := total + ResidentLength(rest[key]);
        rest := rest - {key};
      }
    }

    /** The purge's snapshot of the resident response keys, least recently used first. */
    method LeastRecentlyUsedOrder() returns (order: seq<string>)
      ensures IsLruOrder(order, memoryCache)
    {
      var pending := set key | key in memoryCache && IsResidentResponse(memoryCache, key);
      order := [];
      while pending != {}
        invariant forall k :: k in pending ==> IsResidentResponse(memoryCache, k)
        invariant forall k :: k in order <==> IsResidentResponse(memoryCache, k) && k !in pending
        invariant forall i, j :: 0 <= i < j < |order| ==> order[i] != order[j]
        invariant forall i, j :: 0 <= i < j < |order| ==>
                    LastAccessedOf(memoryCache, order[i]) <= LastAccessedOf(memoryCache, order[j])
        invariant forall i, p :: 0 <= i < |order| && p in pending ==>
                    LastAccessedOf(memoryCache, order[i]) <= LastAccessedOf(memoryCache, p)
        decreases pending
      {
        EarliestAccessedExists(memoryCache, pending);
        var key :| key in pending && forall p :: p in pending ==> LastAccessedOf(memoryCache, key) <= LastAccessedOf(memoryCache, p);
        order := order + [key];
        pending := pending - {key};
      }
    }

    /**
     * PurgeExcessMemoryAsync, with the sweep over resident responses only (the C# sweep
     * also orders tombstones and then fails; see PurgedFromAsWritten). The estimate and the
     * disk are left alone.
     */
    method PurgeExcessMemory()
      modifies this
      ensures PurgedFrom(old(memoryCache), memoryCache, estimatedUsedMemoryBytes, maxMemoryBytes)
      ensures estimatedUsedMemoryBytes == old(estimatedUsedMemoryBytes) && disk == old(disk)
    {
      if estimatedUsedMemoryBytes < maxMemoryBytes {
        return;
      }
      var actualUsedMemoryBytes := ActualUsedMemoryBytes();
      var bytesToKeep := HalfTowardZero(maxMemoryBytes);
      var leastRecentlyUsedOrder := LeastRecentlyUsedOrder();
      ghost var before, order := memoryCache, leastRecentlyUsedOrder;
      ghost var evicted: nat := 0;
      while actualUsedMemoryBytes > bytesToKeep
        invariant evicted <= |order| && leastRecentlyUsedOrder == order[evicted..]
        invariant memoryCache == Tombstoned(before, order[..evicted])
        invariant actualUsedMemoryBytes == ResidentBytes(memoryCache)
        invariant OverTargetBefore(before, order, evicted, bytesToKeep)
        invariant estimatedUsedMemoryBytes == old(estimatedUsedMemoryBytes) && disk == old(disk)
        decreases |leastRecentlyUsedOrder|
      {
        if |leastRecentlyUsedOrder| == 0 {
          assert order[..evicted] == order;
          assert EvictedPrefix(before, order, evicted, bytesToKeep);
          return;
        }
        OverTargetBeforeNext(before, order, evicted, bytesToKeep);
        var key := leastRecentlyUsedOrder[0];
        leastRecentlyUsedOrder := leastRecentlyUsedOrder[1..];
        assert key == order[evicted] && key in order;
        TombstonedNext(before, order, evicted);
        ResidentBytesUpdate(memoryCache, key, None);
        var released := ResidentLength(memoryCache[key]);
        memoryCache := memoryCache[key := None];
        actualUsedMemoryBytes := actualUsedMemoryBytes - released;
        evicted := evicted + 1;
      }
      assert EvictedPrefix(before, order, evicted, bytesToKeep);
    }

    /** SaveToDiskAsync: the key's file now holds the entry. */
    method SaveToDisk(key: string, cacheEntry: CacheEntry)
      modifies this
      ensures disk == old(disk)[GetFileName(key) := cacheEntry]
      ensures memoryCache == old(memoryCache) && estimatedUsedMemoryBytes == old(estimatedUsedMemoryBytes)
    {
      disk := disk[GetFileName(key) := cacheEntry];
    }

    /**
     * The miss branch of GetCacheEntry: read the key's file, if there is one, into the key's
     * slot, count its bytes and let the purge run.
     */
    method PromoteFromDisk(key: string, fileName: string) returns (cacheEntry: Option<CacheEntry>)
      requires Valid()
      requires fileName == GetFileName(key) && (key !in memoryCache || memoryCache[key].None?)
      modifies this
      ensures fileName !in old(disk) ==>
                cacheEntry.None? && memoryCache == old(memoryCache)
                && estimatedUsedMemoryBytes == old(estimatedUsedMemoryBytes) && disk == old(disk)
      ensures fileName in old(disk) ==>
                && cacheEntry == Some(old(disk)[fileName]) && disk == old(disk)
                && estimatedUsedMemoryBytes == old(estimatedUsedMemoryBytes) + ResidentLength(cacheEntry)
                && PurgedFrom(old(memoryCache)[key := cacheEntry], memoryCache, estimatedUsedMemoryBytes, maxMemoryBytes)
                && key in memoryCache && (memoryCache[key] == cacheEntry || memoryCache[key] == None)
                && ResidentBytes(memoryCache) + ResidentLength(cacheEntry) - ResidentLength(memoryCache[key])
                   <= estimatedUsedMemoryBytes
    {
      if fileName !in disk {
        return None;
      }
      cacheEntry := Some(disk[fileName]);
      ResidentBytesUpdate(memoryCache, key, cacheEntry);
      memoryCache := memoryCache[key := cacheEntry];
      estimatedUsedMemoryBytes := estimatedUsedMemoryBytes + ResidentLength(cacheEntry);
      ghost var promoted := memoryCache;
      PurgeExcessMemory();
      PurgeReleasesEvicted(promoted, memoryCache, estimatedUsedMemoryBytes, maxMemoryBytes, key);
      PurgeTombstonesOnlyResponses(promoted, memoryCache, estimatedUsedMemoryBytes, maxMemoryBytes);
    }

    /**
     * GetCacheEntry: look in memory, promote from disk on a miss, reject stale entries. The
     * source runs both paths through one expiry check; here each path has its own.
     */
    method GetCacheEntry(key: string, now: int) returns (r: Option<CacheEntry>)
      requires Valid()
      modifies this
      ensures Valid()
      ensures r == ReadResult(old(memoryCache), old(disk), key, now, versionIdentifier)
      ensures ReadTransition(old(memoryCache), old(estimatedUsedMemoryBytes), old(disk), key, now,
                             versionIdentifier, maxMemoryBytes, memoryCache, estimatedUsedMemoryBytes, disk)
    {
      var cacheEntry := if key in memoryCache then memoryCache[key] else None;
      if cacheEntry.Some? {
        r := ReadResident(key, now);
      } else {
        r := ReadPromoted(key, now);
      }
    }

    /** The hit path of GetCacheEntry: a stale resident entry is tombstoned (its file stays), a fresh one is stamped. */
    method ReadResident(key: string, now: int) returns (r: Option<CacheEntry>)
      requires Valid() && key in memoryCache && memoryCache[key].Some?
      modifies this
      ensures Valid()
      ensures r == ReadResult(old(memoryCache), old(disk), key, now, versionIdentifier)
      ensures ReadTransition(old(memoryCache), old(estimatedUsedMemoryBytes), old(disk), key, now,
                             versionIdentifier, maxMemoryBytes, memoryCache, estimatedUsedMemoryBytes, disk)
    {
      var entry := memoryCache[key].value;
      if IsStale(entry, now, versionIdentifier) {
        ResidentBytesUpdate(memoryCache, key, None);
        memoryCache := memoryCache[key := None];
        estimatedUsedMemoryBytes := estimatedUsedMemoryBytes - BodyLength(entry);
        return None;
      }
      ResidentBytesUpdate(memoryCache, key, Some(entry.(lastAccessed := now)));
      memoryCache := memoryCache[key := Some(entry.(lastAccessed := now))];
      r := Some(entry.(lastAccessed := now));
    }

    /**
     * The miss path of GetCacheEntry: promote the key's file, if any; a stale promoted entry
     * is tombstoned, its bytes taken back and its file deleted, a fresh one is stamped.
     */
    method ReadPromoted(key: string, now: int) returns (r: Option<CacheEntry>)
      requires Valid() && (key !in memoryCache || memoryCache[key].None?)
      modifies this
      ensures Valid()
      ensures r == ReadResult(old(memoryCache), old(disk), key, now, versionIdentifier)
      ensures ReadTransition(old(memoryCache), old(estimatedUsedMemoryBytes), old(disk), key, now,
                             versionIdentifier, maxMemoryBytes, memoryCache, estimatedUsedMemoryBytes, disk)
    {
      var fileName := GetFileName(key);
      var cacheEntry := PromoteFromDisk(key, fileName);
      if cacheEntry.None? {
        return None;
      }
      var entry := cacheEntry.value;
      ghost var purged := memoryCache;
      if IsStale(entry, now, versionIdentifier) {
        ResidentBytesUpdate(memoryCache, key, None);
        memoryCache := memoryCache[key := None];
        estimatedUsedMemoryBytes := estimatedUsedMemoryBytes - BodyLength(entry);
        disk := disk - {fileName};
        assert PromotedRead(old(memoryCache), old(estimatedUsedMemoryBytes), old(disk), key, now,
                            versionIdentifier, maxMemoryBytes, purged,
                            memoryCache, estimatedUsedMemoryBytes, disk);
        return None;
      }
      // The C# code stamps the entry object itself, which the memory slot shares unless the purge emptied it.
      if memoryCache[key] == cacheEntry {
        ResidentBytesUpdate(memoryCache, key, Some(entry.(lastAccessed := now)));
        memoryCache := memoryCache[key := Some(entry.(lastAccessed := now))];
      }
      r := Some(entry.(lastAccessed := now));
      assert PromotedRead(old(memoryCache), old(estimatedUsedMemoryBytes), old(disk), key, now,
                          versionIdentifier, maxMemoryBytes, purged,
                          memoryCache, estimatedUsedMemoryBytes, disk);
    }

    /** Get: GetCacheEntry, translated to the shape the caller stored. */
    method Get(key: string, now: int) returns (r: Option<CachedEntry>)
      requires Valid()
      modifies this
      ensures Valid()
      ensures r == match ReadResult(old(memoryCache), old(disk), key, now, versionIdentifier)
                   case None => None
                   case Some(e) => Some(ToCachedEntry(e))
      ensures ReadTransition(old(memoryCache), old(estimatedUsedMemoryBytes), old(disk), key, now,
                             versionIdentifier, maxMemoryBytes, memoryCache, estimatedUsedMemoryBytes, disk)
    {
      var cacheEntry := GetCacheEntry(key, now);
      r := match cacheEntry
        case None => None
        case Some(e) => Some(ToCachedEntry(e));
    }

    /** Set: store the converted entry in memory and on disk, then let the purge run; a refused entry changes nothing. */
    method Set(key: string, entry: CachedEntry, validFor: int, now: int)
      requires Valid()
      modifies this
      ensures Valid()
      ensures match ConvertToCacheEntry(entry, validFor, versionIdentifier, maxResponseBodyBytes, now)
              case None =>
                memoryCache == old(memoryCache) && estimatedUsedMemoryBytes == old(estimatedUsedMemoryBytes)
                && disk == old(disk)
              case Some(stored) =>
                SetTransition(old(memoryCache), old(estimatedUsedMemoryBytes), old(disk), key, stored,
                              maxMemoryBytes, memoryCache, estimatedUsedMemoryBytes, disk)
    {
      var cacheEntry := ConvertToCacheEntry(entry, validFor, versionIdentifier, maxResponseBodyBytes, now);
      if cacheEntry.Some? {
        var oldCacheEntry := if key in memoryCache then memoryCache[key] else None;
        ResidentBytesUpdate(memoryCache, key, cacheEntry);
        estimatedUsedMemoryBytes := estimatedUsedMemoryBytes - ResidentLength(oldCacheEntry);
        memoryCache := memoryCache[key := cacheEntry];
        estimatedUsedMemoryBytes := estimatedUsedMemoryBytes + ResidentLength(cacheEntry);
        SaveToDisk(key, cacheEntry.value);
        ghost var stored := memoryCache;
        PurgeExcessMemory();
        PurgeReleasesEvicted(stored, memoryCache, estimatedUsedMemoryBytes, maxMemoryBytes, key);
      }
    }
  }
}
