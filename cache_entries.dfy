/**
 * The two entry shapes the cache stores (CacheEntry with its subclasses VaryByKeysCacheEntry
 * and ResponseCacheEntry), the two shapes callers hand over and get back (CachedVaryByRules
 * and CachedResponse), and the conversions between them done by Set and Get.
 * Times are DateTimeOffset / TimeSpan ticks.
 */
module CacheEntries {
  import opened Wrappers
  import opened KeyEncoder

  /** A header name and its values, as `Dictionary<string, string[]>`. */
  type Headers = map<string, seq<string>>

  /** The ticks of `default(DateTimeOffset)`: the LastAccessed of an entry that was never read. */
  const NeverAccessed: int := 0

  /** An entry of either tier; the four common fields are those of the base class CacheEntry. */
  datatype CacheEntry =
    | VaryByKeysCacheEntry(serverVersion: string, lastAccessed: int, created: int, validFor: int,
                           headers: seq<string>, queryKeys: seq<string>, varyByKeyPrefix: string)
    | ResponseCacheEntry(serverVersion: string, lastAccessed: int, created: int, validFor: int,
                         statusCode: int, headerDictionary: Headers, body: seq<byte>)

  /** The caller-facing IResponseCacheEntry: the vary-by rules or the response itself. */
  datatype CachedEntry =
    | CachedVaryByRules(headers: seq<string>, queryKeys: seq<string>, varyByKeyPrefix: string)
    | CachedResponse(created: int, statusCode: int, headerDictionary: Headers, body: seq<byte>)

  /** `(entry as ResponseCacheEntry)?.Body?.Length ?? 0`: what an entry adds to the memory estimate. */
  function BodyLength(e: CacheEntry): nat {
    if e.ResponseCacheEntry? then |e.body| else 0
  }

  /** The same for a memory slot, where None is an absent key or a tombstone. */
  function ResidentLength(slot: Option<CacheEntry>): nat {
    if slot.Some? then BodyLength(slot.value) else 0
  }

  /** The rejection test of GetCacheEntry: expired strictly after Created + ValidFor, or written by another build. */
  predicate IsStale(e: CacheEntry, now: int, versionIdentifier: string) {
    e.created + e.validFor < now || e.serverVersion != versionIdentifier
  }

  /** C#'s unchecked `(int)` cast of a `long`: keeps the low 32 bits as a two's complement value. */
  function Int32Of(x: int): (r: int)
    ensures -0x8000_0000 <= r < 0x8000_0000
    ensures (x - r) % 0x1_0000_0000 == 0
    ensures -0x8000_0000 <= x < 0x8000_0000 ==> r == x
    ensures 0 <= r && 0 <= x ==> r <= x
  {
    var low := x % 0x1_0000_0000;
    if low < 0x8000_0000 then low else low - 0x1_0000_0000
  }

  /** C#'s `long / 2`, which truncates toward zero (Dafny's `/` rounds down). */
  function HalfTowardZero(x: int): (r: int)
    ensures 0 <= x ==> 0 <= r && 2 * r <= x <= 2 * r + 1
    ensures x < 0 ==> r <= 0 && 2 * r - 1 <= x <= 2 * r
  {
    if x >= 0 then x / 2 else -((-x) / 2)
  }

  /**
   * ConvertToCacheEntry: the entry Set stores, or None when Set must do nothing. A response
   * whose length, cast to int, is over the limit is refused; a negative cast length makes
   * `new byte[...]` throw, which Set's catch turns into a no-op as well. Vary-by rules are
   * stamped with the current time, responses keep the caller's Created.
   */
  function ConvertToCacheEntry(entry: CachedEntry, validFor: int, versionIdentifier: string,
                               maxResponseBodyBytes: int, now: int): (r: Option<CacheEntry>)
    ensures entry.CachedResponse? && |entry.body| < 0x8000_0000 ==>
              (r.Some? <==> |entry.body| <= maxResponseBodyBytes)
    ensures entry.CachedVaryByRules? ==> r.Some? && r.value.created == now
    ensures r.Some? ==> r.value.serverVersion == versionIdentifier && r.value.validFor == validFor
                        && r.value.lastAccessed == NeverAccessed
    ensures r.Some? ==> (r.value.ResponseCacheEntry? <==> entry.CachedResponse?)
    ensures r.Some? && entry.CachedResponse? ==>
              r.value.created == entry.created && |r.value.body| <= maxResponseBodyBytes
              && r.value.body <= entry.body
  {
    match entry
    case CachedResponse(created, statusCode, headerDictionary, body) =>
      var responseLengthInBytes := Int32Of(|body|);
      if responseLengthInBytes > maxResponseBodyBytes || responseLengthInBytes < 0 then None
      else Some(ResponseCacheEntry(versionIdentifier, NeverAccessed, created, validFor,
                                   statusCode, headerDictionary, body[..responseLengthInBytes]))
    case CachedVaryByRules(headers, queryKeys, varyByKeyPrefix) =>
      Some(VaryByKeysCacheEntry(versionIdentifier, NeverAccessed, now, validFor,
                                headers, queryKeys, varyByKeyPrefix))
  }

  /** The translation Get applies to the entry GetCacheEntry returns. */
  function ToCachedEntry(e: CacheEntry): (r: CachedEntry)
    ensures r.CachedResponse? <==> e.ResponseCacheEntry?
    ensures r.CachedResponse? ==> r.created == e.created && r.body == e.body
                                  && r.statusCode == e.statusCode && r.headerDictionary == e.headerDictionary
    ensures r.CachedVaryByRules? ==> r.headers == e.headers && r.queryKeys == e.queryKeys
                                     && r.varyByKeyPrefix == e.varyByKeyPrefix
  {
    match e
    case VaryByKeysCacheEntry(_, _, _, _, headers, queryKeys, varyByKeyPrefix) =>
      CachedVaryByRules(headers, queryKeys, varyByKeyPrefix)
    case ResponseCacheEntry(_, _, created, _, statusCode, headerDictionary, body) =>
      CachedResponse(created, statusCode, headerDictionary, body)
  }

  /**
   * Storing an entry and reading it back gives the caller the same entry, field for field,
   * whatever LastAccessed says; only an over-long response is not stored.
   */
  lemma ConvertRoundTrip(entry: CachedEntry, validFor: int, versionIdentifier: string,
                                            maxResponseBodyBytes: int, now: int, lastAccessed: int)
    requires entry.CachedResponse? ==> |entry.body| <= maxResponseBodyBytes && |entry.body| < 0x8000_0000
    ensures ConvertToCacheEntry(entry, validFor, versionIdentifier, maxResponseBodyBytes, now).Some?
    ensures ToCachedEntry(ConvertToCacheEntry(entry, validFor, versionIdentifier, maxResponseBodyBytes, now)
                            .value.(lastAccessed := lastAccessed)) == entry
  {
    if entry.CachedResponse? {
      assert Int32Of(|entry.body|) == |entry.body|;
      assert entry.body[..|entry.body|] == entry.body;
    }
  }
}
