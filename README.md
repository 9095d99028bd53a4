# DiskBackedMemoryCache, modelled in Dafny

`DiskBackedMemoryCache` is the two-tier response cache behind the custom response-caching
middleware. A memory tier (a dictionary from cache key to entry) sits in front of a disk tier
that holds one file per key. The file name is the key's UTF-8 bytes written in a 32-symbol
alphabet. The cache keeps a lock-free *estimate* of the response-body bytes held in memory.
When that estimate reaches the configured maximum, a purge recounts the real figure and
tombstones the least recently used response entries until at most half the maximum is left.
A read that misses memory promotes the key's file into memory. A read that finds an expired
entry, or one written by a different build, rejects it.

The project has five modules, one per concern of `DiskBackedMemoryCache.cs`:

- `Wrappers`: `Option`.
- `KeyEncoder`: `Base32Encode`, the UTF-8 step and `GetFileName`. It also holds a decoder that
  recovers the five bits the encoder keeps of every byte. Round trips are proved both ways,
  and so is the exact condition under which two keys share a file.
- `CacheEntries`: the stored entry shapes `VaryByKeysCacheEntry` and `ResponseCacheEntry`,
  and the caller-facing shapes `CachedVaryByRules` and `CachedResponse`. It holds
  `ConvertToCacheEntry` (including the `(int)` cast of the body length) and the translation
  done by `Get`. A stored entry reads back as the one stored.
- `MemoryStore`: the memory tier as a value (`None` is the `null` tombstone), the real number
  of resident body bytes, and the purge specified as a relation `PurgedFrom`. Its lemmas say
  that the purge:
  - only tombstones responses,
  - evicts in least-recently-used order,
  - reaches its target,
  - stops at the first point that fits.
- `DiskBackedMemory`: the class `DiskBackedMemoryCache`, whose fields are the memory tier,
  the estimate and the folder's files (file name to entry). It has imperative `Get`, `Set`,
  `GetCacheEntry`, `PurgeExcessMemory` (a loop over the LRU order) and `SaveToDisk`. Its
  invariant `Valid()` says the estimate never falls below the bytes really resident. The
  relations `ReadTransition` and `SetTransition` give every post-state. `SetThenGetRoundTrip`
  proves that a read after a write returns what was written until the entry goes stale, even
  if the purge evicted it in between.

Time is a `now` parameter in ticks. The background tasks (the disk write and the purge) run
synchronously at the point where the C# code starts them.

An expired entry found in memory is tombstoned and its file stays. Only an entry loaded from
its file in the same read has the file deleted, because `fileName` is set only on the miss
path (DiskBackedMemoryCache.cs:130-154). `ReadTransition` states exactly this.

The entry shapes are the datatypes `CacheEntries.CacheEntry` (the base class `CacheEntry`
with its subclasses `VaryByKeysCacheEntry` and `ResponseCacheEntry`,
DiskBackedMemoryCache.cs:45-87) and `CacheEntries.CachedEntry` (the `CachedVaryByRules` and
`CachedResponse` shapes that `Get` returns and `Set` accepts).

## Model

| member | source | states |
|---|---|---|
| KeyEncoder.Low5 | src/Implementations/DiskBackedMemory/DiskBackedMemoryCache.cs:37 | the symbol index of a byte is below 32 and is the byte's remainder modulo 32 |
| KeyEncoder.Low5IsMask | src/Implementations/DiskBackedMemory/DiskBackedMemoryCache.cs:37 | that index is exactly `b & 0x1F` on the 8-bit value |
| KeyEncoder.Base32Encode | src/Implementations/DiskBackedMemory/DiskBackedMemoryCache.cs:35-38 | one symbol per byte; symbol i is the alphabet entry at the low five bits of byte i |
| KeyEncoder.AlphabetDecodes | src/Implementations/DiskBackedMemory/DiskBackedMemoryCache.cs:37 | the 32 symbols of the alphabet (with 'o' before 'n') are distinct: each reads back as its own position |
| KeyEncoder.DecodeEncode | src/Implementations/DiskBackedMemory/DiskBackedMemoryCache.cs:35-38 | decoding a file name gives back exactly the low five bits of every encoded byte |
| KeyEncoder.EncodeDecode | src/Implementations/DiskBackedMemory/DiskBackedMemoryCache.cs:35-38 | every name made of alphabet symbols is the encoding of what it decodes to |
| KeyEncoder.SameNameIffSameLowBits | src/Implementations/DiskBackedMemory/DiskBackedMemoryCache.cs:37 | two byte strings get the same name if and only if they agree in the low five bits of every byte |
| KeyEncoder.EncodeScalar | src/Implementations/DiskBackedMemory/DiskBackedMemoryCache.cs:37 | UTF-8 writes one to four bytes per scalar value; exactly one, equal to the value, when it is below 0x80 |
| KeyEncoder.Utf8Encode | src/Implementations/DiskBackedMemory/DiskBackedMemoryCache.cs:37 | at least one byte per character; an ASCII key's bytes are its character codes |
| KeyEncoder.GetFileName | src/Implementations/DiskBackedMemory/DiskBackedMemoryCache.cs:40-43 | the name has one symbol per UTF-8 byte of the key, so an ASCII key's name is as long as the key |
| KeyEncoder.AsciiKeysCollide | src/Implementations/DiskBackedMemory/DiskBackedMemoryCache.cs:35-43 | ASCII keys of equal length whose characters agree modulo 32 share a file |
| KeyEncoder.DistinctKeysShareFileName | src/Implementations/DiskBackedMemory/DiskBackedMemoryCache.cs:35-43 | the different keys "/item/0" and "/item/P" get the same file name |
| CacheEntries.Int32Of | src/Implementations/DiskBackedMemory/DiskBackedMemoryCache.cs:175 | the `(int)` cast of a `long` lands in the 32-bit range, is congruent modulo 2^32, and is the identity inside the range |
| CacheEntries.HalfTowardZero | src/Implementations/DiskBackedMemory/DiskBackedMemoryCache.cs:238 | `_maxMemoryBytes / 2` halves with truncation toward zero for either sign |
| CacheEntries.ConvertToCacheEntry | src/Implementations/DiskBackedMemory/DiskBackedMemoryCache.cs:169-213 | a response is accepted iff its length is within the limit; the entry carries the build's version, the given lifetime and a never-accessed stamp; vary-by rules are created now; responses keep the caller's Created and a body that is a prefix of the caller's |
| CacheEntries.BodyLength | src/Implementations/DiskBackedMemory/DiskBackedMemoryCache.cs:143 | `(cacheEntry as ResponseCacheEntry)?.Body?.Length ?? 0`: a response's body length, 0 for vary-by rules |
| CacheEntries.ResidentLength | src/Implementations/DiskBackedMemory/DiskBackedMemoryCache.cs:280 | the same for a memory slot, 0 for an absent key or a tombstone |
| CacheEntries.IsStale | src/Implementations/DiskBackedMemory/DiskBackedMemoryCache.cs:147 | an entry is rejected when Created + ValidFor is strictly before now, or its version is not the running one |
| CacheEntries.ToCachedEntry | src/Implementations/DiskBackedMemory/DiskBackedMemoryCache.cs:95-116 | Get returns a CachedResponse exactly for a response entry, with its Created, status code, headers and body; vary-by rules come back with their headers, query keys and prefix |
| CacheEntries.ConvertRoundTrip | src/Implementations/DiskBackedMemory/DiskBackedMemoryCache.cs:169-213 | an entry within the limit is stored, and translating it back gives the caller's entry field for field, whatever LastAccessed says |
| MemoryStore.PurgedFrom | src/Implementations/DiskBackedMemory/DiskBackedMemoryCache.cs:216-254 | the memory tiers the purge may leave: unchanged below the limit, otherwise the first n keys of an LRU order of the resident responses tombstoned, where n is the first prefix that leaves at most half the limit (or all of them) |
| MemoryStore.Tombstoned | src/Implementations/DiskBackedMemory/DiskBackedMemoryCache.cs:247-249 | tombstoning a sequence of keys empties exactly those slots and leaves every other slot as it was |
| MemoryStore.PurgeTombstonesOnlyResponses | src/Implementations/DiskBackedMemory/DiskBackedMemoryCache.cs:239-251 | the purge keeps every key, and it changes a slot only by tombstoning a resident response entry |
| MemoryStore.PurgeEvictsLeastRecentlyUsed | src/Implementations/DiskBackedMemory/DiskBackedMemoryCache.cs:239-249 | every evicted response was accessed no later than every response kept |
| MemoryStore.PurgeReachesTarget | src/Implementations/DiskBackedMemory/DiskBackedMemoryCache.cs:237-251 | once the purge runs, at most half the limit stays resident, or no response is left |
| MemoryStore.PurgeStopsAtFirstFit | src/Implementations/DiskBackedMemory/DiskBackedMemoryCache.cs:240-251 | a purge that evicted anything stops as soon as it fits: putting back the evicted entry accessed last (no earlier than every other evicted one) exceeds half the limit |
| MemoryStore.PurgeReleasesEvicted | src/Implementations/DiskBackedMemory/DiskBackedMemoryCache.cs:249-250 | evicting a key releases its whole body, and the purge never adds bytes |
| MemoryStore.PurgedFromAsWritten | src/Implementations/DiskBackedMemory/DiskBackedMemoryCache.cs:239 | the sweep as written: with a tombstone in the memory tier it evicts nothing, otherwise it behaves as `PurgedFrom` |
| MemoryStore.TombstoneExample | src/Implementations/DiskBackedMemory/DiskBackedMemoryCache.cs:149 | a tier holding a tombstone (as an expired read leaves it) next to a resident response |
| MemoryStore.PurgeAsWrittenStallsOnTombstone | src/Implementations/DiskBackedMemory/DiskBackedMemoryCache.cs:239 | with the LRU sort as written, a tier with a tombstone keeps 4 bytes against a 2-byte target |
| MemoryStore.PurgeCorrectedMeetsTargetOnExample | src/Implementations/DiskBackedMemory/DiskBackedMemoryCache.cs:239 | the corrected sort brings the same tier down to its target |
| DiskBackedMemory.Lookup | src/Implementations/DiskBackedMemory/DiskBackedMemoryCache.cs:129-141 | a read finds nothing iff the slot is absent or tombstoned and the key's file does not exist |
| DiskBackedMemory.ReadResult | src/Implementations/DiskBackedMemory/DiskBackedMemoryCache.cs:147-160 | a read returns the entry it found, stamped as accessed now, exactly when that entry is fresh and of the current version; a stale or other-version entry reads as absent |
| DiskBackedMemory.ReadTransition | src/Implementations/DiskBackedMemory/DiskBackedMemoryCache.cs:125-167 | the state a read leaves: a resident entry is stamped or tombstoned and uncounted, its file kept; a miss without a file changes nothing; a promoted entry is counted and purged, and if stale tombstoned, uncounted and its file deleted |
| DiskBackedMemory.SetTransition | src/Implementations/DiskBackedMemory/DiskBackedMemoryCache.cs:276-284 | the state an accepted Set leaves: the estimate trades the old slot's bytes for the new entry's, the key's file holds the entry, and the memory tier is a purge of the old one with the entry in the key's slot |
| DiskBackedMemory.SetThenGetRoundTrip | src/Implementations/DiskBackedMemory/DiskBackedMemoryCache.cs:272-290 | after an accepted Set, a read of the key before it goes stale returns what the caller stored, from memory or from its file |
| DiskBackedMemory.SetThenStaleReadMisses | src/Implementations/DiskBackedMemory/DiskBackedMemoryCache.cs:147-157 | after an accepted Set, a read once the stored entry is expired or by another version gets nothing, whether the entry is resident or only on disk |
| DiskBackedMemory.OtherVersionNeverReads | src/Implementations/DiskBackedMemory/DiskBackedMemoryCache.cs:147 | an entry written under one version identifier never reads back under another |
| DiskBackedMemory.CollidingKeyServesOtherEntry | src/Implementations/DiskBackedMemory/DiskBackedMemoryCache.cs:129-141 | a read of "/item/P" that misses memory is served the fresh entry stored for "/item/0" |
| DiskBackedMemory.DiskBackedMemoryCache.constructor | src/Implementations/DiskBackedMemory/DiskBackedMemoryCache.cs:26-33 | empty memory tier, zero estimate, the folder's existing files, the body limit cast to int |
| DiskBackedMemory.DiskBackedMemoryCache.ActualUsedMemoryBytes | src/Implementations/DiskBackedMemory/DiskBackedMemoryCache.cs:237 | the recount is the body bytes of the resident response entries |
| DiskBackedMemory.DiskBackedMemoryCache.LeastRecentlyUsedOrder | src/Implementations/DiskBackedMemory/DiskBackedMemoryCache.cs:239 | every resident response key once, in non-decreasing LastAccessed order |
| DiskBackedMemory.DiskBackedMemoryCache.PurgeExcessMemory | src/Implementations/DiskBackedMemory/DiskBackedMemoryCache.cs:216-254 | the new memory tier is one `PurgedFrom` allows; the estimate and the disk are unchanged |
| DiskBackedMemory.DiskBackedMemoryCache.SaveToDisk | src/Implementations/DiskBackedMemory/DiskBackedMemoryCache.cs:256-270 | the key's file now holds the entry; nothing else changes |
| DiskBackedMemory.DiskBackedMemoryCache.PromoteFromDisk | src/Implementations/DiskBackedMemory/DiskBackedMemoryCache.cs:132-145 | without a file nothing changes; with one, the entry is loaded, counted and purged, and the estimate still covers the entry's bytes |
| DiskBackedMemory.DiskBackedMemoryCache.GetCacheEntry | src/Implementations/DiskBackedMemory/DiskBackedMemoryCache.cs:125-167 | returns ReadResult, leaves the state ReadTransition describes, and keeps the estimate at or above the resident bytes |
| DiskBackedMemory.DiskBackedMemoryCache.ReadResident | src/Implementations/DiskBackedMemory/DiskBackedMemoryCache.cs:147-160 | a stale resident entry is tombstoned and uncounted, and its file stays; a fresh one is stamped |
| DiskBackedMemory.DiskBackedMemoryCache.ReadPromoted | src/Implementations/DiskBackedMemory/DiskBackedMemoryCache.cs:132-160 | a stale promoted entry is tombstoned, uncounted and its file deleted; a fresh one is stamped unless the purge just evicted it |
| DiskBackedMemory.DiskBackedMemoryCache.Get | src/Implementations/DiskBackedMemory/DiskBackedMemoryCache.cs:89-123 | the read's result in the caller's shape, with the read's state change |
| DiskBackedMemory.DiskBackedMemoryCache.Set | src/Implementations/DiskBackedMemory/DiskBackedMemoryCache.cs:272-290 | a refused entry changes nothing; an accepted one trades the old slot's bytes for the new ones, writes the file and lets the purge run, keeping `Valid()` |

## Findings

| source | as written | input that shows it | evidently intended | confidence | as-written member | corrected member |
|---|---|---|---|---|---|---|
| src/Implementations/DiskBackedMemory/DiskBackedMemoryCache.cs:239 | `_memoryCache.OrderBy(x => x.Value.LastAccessed)` runs before `.Where(x => x.Value is ResponseCacheEntry)`, so a `null` tombstone throws inside the background task and nothing is evicted. Tombstones are written by the purge itself (:249) and by expired reads (:149), so after the first eviction the memory tier is not purged again while any tombstone remains in it (a tombstone goes only when its key is set again, :281, or read back fresh from its file, :142). | maximum 4 bytes, estimate 4, memory `{"/expired": null, "/page": response with a 4-byte body}`: 4 bytes stay resident against a target of 2 | filter out non-responses before ordering, so the sweep sees resident responses only | high (not executed) | MemoryStore.PurgeAsWrittenStallsOnTombstone | MemoryStore.PurgeCorrectedMeetsTargetOnExample |

`MemoryStore.PurgedFromAsWritten` is the sweep as written. The class uses the corrected
relation `MemoryStore.PurgedFrom`.

## Left out

- BinaryFormatter serialization of entries is not modelled. The disk tier maps each file name to the entry its bytes deserialize to, so the model assumes serialization round-trips.
- The cache folder and `Path.Combine` are not modelled. Every file lives in the one folder, so the disk tier is keyed by the encoded name alone. `Directory.CreateDirectory` is left out.
- Failing file I/O is not modelled, including a file that does not deserialize. Such a failure lands in the `catch` blocks of `GetCacheEntry`, `SaveToDiskAsync` and `Set`.
- Concurrency is not modelled: the `Task.Run` background work, `_purgeLock`, and the interleavings the class's opening comment accepts (DiskBackedMemoryCache.cs:17). The purge and the disk write run synchronously where the C# code starts them. The two re-checks of the estimate inside the task are therefore the same as the first.
- `GetAsync` and `SetAsync` (:292-304) only wrap `Get` and `Set` in tasks, and are left out.
- The wall clock is not modelled. `DateTime.UtcNow` is the `now` parameter, and `DateTimeOffset.Add` overflow is left out.
- Lone UTF-16 surrogates are not modelled. Dafny `char` values are Unicode scalar values, so the replacement character `GetBytes` writes for a lone surrogate cannot be expressed.
- A `null` body, headers or values (`Body?.Length ?? 0`) and an `IResponseCacheEntry` of another type are left out. The other type makes `ConvertToCacheEntry` return `null`.
- `Stream.Read` returning fewer bytes than requested is not modelled. The stored body is the first `(int)Length` bytes of the caller's body.
- The case-insensitive comparer of `HeaderDictionary` is not modelled. Headers are an ordinary map.
- DiskBackedMemory.DiskBackedMemoryCache.PurgeExcessMemory: the 64-bit `long` counters are unbounded integers, so their overflow is not modelled.
- DiskBackedMemory.DiskBackedMemoryCache.PurgeExcessMemory: the order among entries with the same LastAccessed is left open, because LINQ's stable sort follows dictionary enumeration order. The contract therefore allows any such order.
- DiskBackedMemory.DiskBackedMemoryCache.PurgeExcessMemory: the sweep subtracts the body lengths of the snapshot. In a sequential run these equal the resident entries, which is how the model computes them.
- DiskBackedMemory.DiskBackedMemoryCache.GetCacheEntry: the C# code stamps LastAccessed on the shared entry object. The model writes the stamped copy back to the key's slot when that slot still holds the entry, which has the same effect.
- The options class, dependency-injection wiring, policy provider and middleware are not part of this model.
