/**
 * The memory tier (`_memoryCache`) as a value, the true number of body bytes it holds, and
 * the outcome of the least-recently-used sweep of PurgeExcessMemoryAsync.
 */
module MemoryStore {
  import opened Wrappers
  import opened CacheEntries

  /** Key to slot; a None slot is the `null` tombstone written by reads and by the purge. */
  type Memory = map<string, Option<CacheEntry>>

  /** The bytes a memory tier really holds: the body lengths of its resident response entries. */
  ghost function ResidentBytes(m: Memory): nat
    decreases m.Keys
  {
    if m == map[] then 0
    else
      var k :| k in m;
      ResidentLength(m[k]) + ResidentBytes(m - {k})
  }

  /** Any slot can be taken out of the sum first. */
  lemma {:induction false} ResidentBytesRemove(m: Memory, k: string)
    requires k in m
    ensures ResidentBytes(m) == ResidentLength(m[k]) + ResidentBytes(m - {k})
    decreases m.Keys
  {
    var j :| j in m && ResidentBytes(m) == ResidentLength(m[j]) + ResidentBytes(m - {j});
    if j != k {
      ResidentBytesRemove(m - {j}, k);
      ResidentBytesRemove(m - {k}, j);
      assert m - {j} - {k} == m - {k} - {j};
    }
  }

  /** Writing a slot changes the resident bytes by the new slot's length minus the old one's. */
  lemma ResidentBytesUpdate(m: Memory, k: string, slot: Option<CacheEntry>)
    ensures ResidentBytes(m[k := slot])
            == ResidentBytes(m) - (if k in m then ResidentLength(m[k]) else 0) + ResidentLength(slot)
  {
    ResidentBytesRemove(m[k := slot], k);
    assert m[k := slot] - {k} == m - {k};
    if k in m {
      ResidentBytesRemove(m, k);
    } else {
      assert m - {k} == m;
    }
  }

  /** A tier whose every slot holds no more bytes than the same slot of another holds no more bytes overall. */
  lemma {:induction false} ResidentBytesMonotone(a: Memory, b: Memory)
    requires a.Keys == b.Keys
    requires forall k :: k in a ==> ResidentLength(a[k]) <= ResidentLength(b[k])
    ensures ResidentBytes(a) <= ResidentBytes(b)
    decreases a.Keys
  {
    if a != map[] {
      var k :| k in a;
      ResidentBytesRemove(a, k);
      ResidentBytesRemove(b, k);
      ResidentBytesMonotone(a - {k}, b - {k});
    }
  }

  /** A tier without a resident response holds no bytes. */
  lemma {:induction false} ResidentBytesZero(m: Memory)
    requires forall k :: !IsResidentResponse(m, k)
    ensures ResidentBytes(m) == 0
    decreases m.Keys
  {
    if m != map[] {
      var k :| k in m;
      assert !IsResidentResponse(m, k);
      assert forall j :: IsResidentResponse(m - {k}, j) ==> IsResidentResponse(m, j);
      ResidentBytesRemove(m, k);
      ResidentBytesZero(m - {k});
    }
  }

  /** A slot that holds a response entry: the only kind the purge evicts. */
  predicate IsResidentResponse(m: Memory, k: string) {
    k in m && m[k].Some? && m[k].value.ResponseCacheEntry?
  }

  /** The LastAccessed of a slot, or the never-accessed value for an empty one. */
  function LastAccessedOf(m: Memory, k: string): int {
    if k in m && m[k].Some? then m[k].value.lastAccessed else NeverAccessed
  }

  /** Some key of a non-empty set was accessed no later than every other. */
  lemma {:induction false} EarliestAccessedExists(m: Memory, keys: set<string>)
    requires keys != {}
    ensures exists k :: k in keys && forall j :: j in keys ==> LastAccessedOf(m, k) <= LastAccessedOf(m, j)
    decreases keys
  {
    var x :| x in keys;
    if keys == {x} {
    } else {
      EarliestAccessedExists(m, keys - {x});
      var y :| y in keys - {x} && forall j :: j in keys - {x} ==> LastAccessedOf(m, y) <= LastAccessedOf(m, j);
      if LastAccessedOf(m, x) <= LastAccessedOf(m, y) {
        assert forall j :: j in keys ==> LastAccessedOf(m, x) <= LastAccessedOf(m, j);
      } else {
        assert forall j :: j in keys ==> LastAccessedOf(m, y) <= LastAccessedOf(m, j);
      }
    }
  }

  /**
   * `leastRecentlyUsedOrder`: every resident response key once, in non-decreasing LastAccessed
   * order. Keys accessed at the same tick may come in any order.
   */
  ghost predicate IsLruOrder(order: seq<string>, m: Memory) {
    && (forall i, j :: 0 <= i < j < |order| ==> order[i] != order[j])
    && (forall k :: k in order <==> IsResidentResponse(m, k))
    && (forall i, j :: 0 <= i < j < |order| ==> LastAccessedOf(m, order[i]) <= LastAccessedOf(m, order[j]))
  }

  /** The memory tier after tombstoning the given keys one after the other. */
  function Tombstoned(m: Memory, keys: seq<string>): (r: Memory)
    ensures forall k :: k in r <==> k in m || k in keys
    ensures forall k :: k in r ==> r[k] == if k in keys then None else m[k]
  {
    if keys == [] then m else Tombstoned(m, keys[..|keys| - 1])[keys[|keys| - 1] := None]
  }

  /** Tombstoning one more key of a duplicate-free order empties that key's slot, which still held its original entry. */
  lemma TombstonedNext(m: Memory, order: seq<string>, n: nat)
    requires n < |order| && order[n] in m
    requires forall i, j :: 0 <= i < j < |order| ==> order[i] != order[j]
    ensures order[..n + 1][..n] == order[..n]
    ensures Tombstoned(m, order[..n + 1]) == Tombstoned(m, order[..n])[order[n] := None]
    ensures order[n] in Tombstoned(m, order[..n]) && Tombstoned(m, order[..n])[order[n]] == m[order[n]]
  {
    assert order[..n + 1][..n] == order[..n];
    assert order[n] !in order[..n];
  }

  /** Each of the first n prefixes of the order still left more than the target resident. */
  ghost predicate OverTargetBefore(m: Memory, order: seq<string>, n: nat, bytesToKeep: int)
    requires n <= |order|
  {
    forall j :: 0 <= j < n ==> ResidentBytes(Tombstoned(m, order[..j])) > bytesToKeep
  }

  lemma OverTargetBeforeNext(m: Memory, order: seq<string>, n: nat, bytesToKeep: int)
    requires n < |order|
    requires OverTargetBefore(m, order, n, bytesToKeep)
    requires ResidentBytes(Tombstoned(m, order[..n])) > bytesToKeep
    ensures OverTargetBefore(m, order, n + 1, bytesToKeep)
  {
  }

  /**
   * The loop of the sweep evicted exactly the first n keys of the order: while it evicted, the
   * remaining bytes were over the target, and it stopped once they were not, or the order ran out.
   */
  ghost predicate EvictedPrefix(m: Memory, order: seq<string>, n: nat, bytesToKeep: int) {
    && n <= |order|
    && OverTargetBefore(m, order, n, bytesToKeep)
    && (n < |order| ==> ResidentBytes(Tombstoned(m, order[..n])) <= bytesToKeep)
  }

  /**
   * The memory tier `after` is one the purge can leave behind, starting from `before`, with the
   * estimated counter at `estimated`: nothing below the limit; otherwise the sweep tombstones
   * resident responses, least recently used first, until at most half the limit remains.
   */
  ghost predicate PurgedFrom(before: Memory, after: Memory, estimated: int, maxMemoryBytes: int) {
    if estimated < maxMemoryBytes then after == before
    else exists order: seq<string>, n: nat ::
      && IsLruOrder(order, before)
      && EvictedPrefix(before, order, n, HalfTowardZero(maxMemoryBytes))
      && after == Tombstoned(before, order[..n])
  }

  /** The purge keeps every key, and changes a slot only by tombstoning a resident response. */
  lemma PurgeTombstonesOnlyResponses(before: Memory, after: Memory, estimated: int, maxMemoryBytes: int)
    requires PurgedFrom(before, after, estimated, maxMemoryBytes)
    ensures after.Keys == before.Keys
    ensures forall k :: k in before ==> after[k] == before[k] || (IsResidentResponse(before, k) && after[k] == None)
  {
    if estimated >= maxMemoryBytes {
      var order: seq<string>, n: nat :| IsLruOrder(order, before) && EvictedPrefix(before, order, n, HalfTowardZero(maxMemoryBytes))
                      && after == Tombstoned(before, order[..n]);
      forall k | k in order[..n] ensures k in before {
        assert k in order;
      }
    }
  }

  /** Whatever the purge evicts was accessed no later than any response it keeps. */
  lemma PurgeEvictsLeastRecentlyUsed(before: Memory, after: Memory, estimated: int, maxMemoryBytes: int,
                                     evicted: string, kept: string)
    requires PurgedFrom(before, after, estimated, maxMemoryBytes)
    requires IsResidentResponse(before, evicted) && !IsResidentResponse(after, evicted)
    requires IsResidentResponse(after, kept)
    ensures LastAccessedOf(before, evicted) <= LastAccessedOf(before, kept)
  {
    if estimated >= maxMemoryBytes {
      var order: seq<string>, n: nat :| IsLruOrder(order, before) && EvictedPrefix(before, order, n, HalfTowardZero(maxMemoryBytes))
                      && after == Tombstoned(before, order[..n]);
      var prefix := order[..n];
      assert evicted in prefix;
      assert kept !in prefix;
      assert after[kept] == before[kept] && IsResidentResponse(before, kept);
      assert kept in order;
      var i :| 0 <= i < n && prefix[i] == evicted;
      var j :| 0 <= j < |order| && order[j] == kept;
      assert forall t :: 0 <= t < n ==> order[t] == prefix[t];
      assert i < j;
    }
  }

  /**
   * A purge that runs leaves at most half the limit resident, or has evicted every response.
   */
  lemma PurgeReachesTarget(before: Memory, after: Memory, estimated: int, maxMemoryBytes: int)
    requires PurgedFrom(before, after, estimated, maxMemoryBytes)
    requires estimated >= maxMemoryBytes
    ensures ResidentBytes(after) <= HalfTowardZero(maxMemoryBytes)
            || forall k :: !IsResidentResponse(after, k)
  {
    var order: seq<string>, n: nat :| IsLruOrder(order, before) && EvictedPrefix(before, order, n, HalfTowardZero(maxMemoryBytes))
                    && after == Tombstoned(before, order[..n]);
    if n == |order| {
      assert order[..n] == order;
      forall k ensures !IsResidentResponse(after, k) {
        if k in after && k in before && IsResidentResponse(before, k) {
          assert k in order;
        }
      }
    }
  }

  /**
   * The purge stops at the first point where it has evicted enough: putting back the last
   * entry it evicted (one accessed no earlier than any other it evicted) would leave more
   * than half the limit resident.
   */
  lemma PurgeStopsAtFirstFit(before: Memory, after: Memory, estimated: int, maxMemoryBytes: int)
    requires PurgedFrom(before, after, estimated, maxMemoryBytes)
    requires after != before
    ensures exists k :: && k in before && after[k] == None && before[k] != None
                        && ResidentBytes(after[k := before[k]]) > HalfTowardZero(maxMemoryBytes)
                        && forall j :: j in before && after[j] == None && before[j] != None ==>
                                         LastAccessedOf(before, j) <= LastAccessedOf(before, k)
  {
    var order: seq<string>, n: nat :| IsLruOrder(order, before) && EvictedPrefix(before, order, n, HalfTowardZero(maxMemoryBytes))
                    && after == Tombstoned(before, order[..n]);
    assert order[..0] == [];
    assert Tombstoned(before, order[..0]) == before;
    assert n != 0;
    var k := order[n - 1];
    assert k in order;
    TombstonedNext(before, order, n - 1);
    var previous := Tombstoned(before, order[..n - 1]);
    assert ResidentBytes(previous) > HalfTowardZero(maxMemoryBytes);
    RestoreTombstoned(previous, k);
    assert after[k := before[k]] == previous;
    forall j | j in before && after[j] == None && before[j] != None
      ensures LastAccessedOf(before, j) <= LastAccessedOf(before, k)
    {
      EvictedNoLaterThanLast(before, order, n, j);
    }
  }

  /** A key emptied by tombstoning the first n keys of an LRU order was accessed no later than the n-th. */
  lemma EvictedNoLaterThanLast(m: Memory, order: seq<string>, n: nat, j: string)
    requires IsLruOrder(order, m) && 0 < n <= |order|
    requires j in m && m[j] != None && Tombstoned(m, order[..n])[j] == None
    ensures LastAccessedOf(m, j) <= LastAccessedOf(m, order[n - 1])
  {
    assert j in order[..n];
    var t :| 0 <= t < n && order[..n][t] == j;
    assert order[t] == j;
  }

  /** Putting back the value a slot held before it was tombstoned restores the map. */
  lemma RestoreTombstoned(m: Memory, k: string)
    requires k in m
    ensures m[k := None][k := m[k]] == m
  {
  }

  /** Evicting never adds bytes, and a key the purge emptied released its whole body. */
  lemma PurgeReleasesEvicted(before: Memory, after: Memory, estimated: int, maxMemoryBytes: int, k: string)
    requires PurgedFrom(before, after, estimated, maxMemoryBytes)
    requires k in before
    ensures ResidentBytes(after) + ResidentLength(before[k]) - ResidentLength(after[k]) <= ResidentBytes(before)
  {
    PurgeTombstonesOnlyResponses(before, after, estimated, maxMemoryBytes);
    ResidentBytesUpdate(after, k, before[k]);
    ResidentBytesMonotone(after[k := before[k]], before);
  }

  // ---------------------------------------------------------------------------------------
  // The sweep as written. Its LRU ordering evaluates `x.Value.LastAccessed` for every slot
  // before filtering out non-responses, so a single tombstone makes it throw; the exception
  // ends the background task, and nothing is evicted.

  /** The memory tier holds at least one tombstone. */
  predicate HasTombstone(m: Memory) {
    exists k :: k in m && m[k] == None
  }

  /** The outcomes of the purge as written. */
  ghost predicate PurgedFromAsWritten(before: Memory, after: Memory, estimated: int, maxMemoryBytes: int) {
    if estimated < maxMemoryBytes || HasTombstone(before) then after == before
    else PurgedFrom(before, after, estimated, maxMemoryBytes)
  }

  /** A tier holding one 4-byte response and one tombstone, as the first purge or an expired read leaves it. */
  function TombstoneExample(): (m: Memory)
    ensures HasTombstone(m)
    ensures IsResidentResponse(m, "/page")
  {
    var m := map["/expired" := None,
                  "/page" := Some(ResponseCacheEntry("v1", NeverAccessed, 0, 100, 200, map[], [1, 2, 3, 4]))];
    assert "/expired" in m && m["/expired"] == None;
    m
  }

  lemma TombstoneExampleBytes()
    ensures ResidentBytes(TombstoneExample()) == 4
  {
    var m := TombstoneExample();
    ResidentBytesRemove(m, "/page");
    var rest := m - {"/page"};
    assert rest == map["/expired" := None];
    ResidentBytesRemove(rest, "/expired");
    assert rest - {"/expired"} == map[];
  }

  /**
   * With a 4-byte limit and an estimate of 4, the sweep as written leaves all 4 bytes resident,
   * twice its 2-byte target.
   */
  lemma PurgeAsWrittenStallsOnTombstone(after: Memory)
    requires PurgedFromAsWritten(TombstoneExample(), after, 4, 4)
    ensures after == TombstoneExample()
    ensures ResidentBytes(after) == 4 > HalfTowardZero(4)
  {
    TombstoneExampleBytes();
  }

  /** From the same tier, the corrected sweep gets down to its target. */
  lemma PurgeCorrectedMeetsTargetOnExample(after: Memory)
    requires PurgedFrom(TombstoneExample(), after, 4, 4)
    ensures ResidentBytes(after) <= HalfTowardZero(4)
  {
    PurgeReachesTarget(TombstoneExample(), after, 4, 4);
    if ResidentBytes(after) > HalfTowardZero(4) {
      ResidentBytesZero(after);
    }
  }
}
