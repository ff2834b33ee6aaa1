/** One pass of `cleanup_retrieval_cache` over the store: classify every scanned key,
    delete the age-expired ones in one batch, then, when the live entries are too big,
    delete the shortest TTL-ordered run of them that brings the total under the ceiling. */
module Cleaner {
  import opened CacheConfig
  import opened EvictionPolicy

  /** The key-value store as the pass sees it: every existing key with its remaining
      TTL and its memory footprint. */
  class Store {
    var entries: Snapshot

    constructor (entries: Snapshot)
      ensures this.entries == entries
    {
      this.entries := entries;
    }

    /** The remaining TTL; `ABSENT` (-2) for a key that does not exist. */
    function GetTtl(key: Key): int
      reads this
    {
      TtlOf(entries, key)
    }

    function GetMemoryUsage(key: Key): nat
      reads this
    {
      SizeOf(entries, key)
    }

    /** Deletes the given keys and reports how many of them existed. */
    method DeleteMany(keys: seq<Key>) returns (deletedCount: nat)
      modifies this
      ensures entries == old(entries) - KeySet(keys)
      ensures deletedCount == |old(entries).Keys * KeySet(keys)|
    {
      deletedCount := |entries.Keys * KeySet(keys)|;
      entries := entries - KeySet(keys);
    }
  }

  /** The classification loop: the age batch, the live tuples and their summed size. */
  method ClassifyKeys(store: Store, cacheKeys: seq<Key>)
      returns (keysToDelete: seq<Key>, keysWithAge: seq<LiveEntry>, totalSize: nat)
    ensures keysToDelete == AgeBatch(store.entries, cacheKeys)
    ensures keysWithAge == LiveEntries(store.entries, cacheKeys)
    ensures totalSize == Sum(keysWithAge)
  {
    keysToDelete, keysWithAge, totalSize := [], [], 0;
    ghost var snap := store.entries;
    for i := 0 to |cacheKeys|
      invariant keysToDelete == AgeBatch(snap, cacheKeys[..i])
      invariant keysWithAge == LiveEntries(snap, cacheKeys[..i])
      invariant totalSize == Sum(keysWithAge)
    {
      var key := cacheKeys[i];
      assert cacheKeys[..i + 1] == cacheKeys[..i] + [key];
      AgeBatchSnoc(snap, cacheKeys[..i], key);
      LiveKeysSnoc(snap, cacheKeys[..i], key);
      var ttl := store.GetTtl(key);
      if ttl == ABSENT {
        assert ClassOf(snap, key) == Skipped;
        continue;
      }
      if ttl == NO_EXPIRY {
        assert ClassOf(snap, key) == AgeExpired;
        keysToDelete := keysToDelete + [key];
        continue;
      }
      var cacheAge := if ttl > 0 then RETRIEVAL_CACHE_EXPIRY - ttl else RETRIEVAL_CACHE_EXPIRY;
      if cacheAge >= RETRIEVAL_CACHE_MAX_AGE {
        assert ClassOf(snap, key) == AgeExpired;
        keysToDelete := keysToDelete + [key];
      } else {
        assert ClassOf(snap, key) == Live;
        var size := store.GetMemoryUsage(key);
        SumAppend(keysWithAge, [LiveEntry(key, ttl, size)]);
        totalSize := totalSize + size;
        keysWithAge := keysWithAge + [LiveEntry(key, ttl, size)];
      }
    }
    assert cacheKeys[..|cacheKeys|] == cacheKeys;
  }

  lemma SelectStep(s: seq<LiveEntry>, i: nat)
    requires i < |s|
    ensures Sum(s[..i + 1]) == Sum(s[..i]) + s[i].size
    ensures KeysOf(s[..i + 1]) == KeysOf(s[..i]) + [s[i].key]
    ensures s[i..] != [] && s[i..][0] == s[i] && s[i..][1..] == s[i + 1..]
  {
    assert s[..i + 1] == s[..i] + [s[i]];
    SumAppend(s[..i], [s[i]]);
    KeysOfAppend(s[..i], [s[i]]);
  }

  /** The size loop over the sorted live tuples: takes them one at a time and stops as
      soon as what remains of `totalSize` fits the ceiling. */
  method SelectBySize(keysWithAge: seq<LiveEntry>, totalSize: int)
      returns (keysToDeleteSize: seq<Key>, deletedSize: nat)
    ensures |keysToDeleteSize| == FitLength(totalSize, keysWithAge)
    ensures keysToDeleteSize == KeysOf(keysWithAge[..|keysToDeleteSize|])
    ensures deletedSize == Sum(keysWithAge[..|keysToDeleteSize|])
    ensures keysWithAge != [] ==> 1 <= |keysToDeleteSize|
    ensures keysWithAge != [] ==>
              totalSize - deletedSize <= RETRIEVAL_CACHE_MAX_SIZE || |keysToDeleteSize| == |keysWithAge|
    ensures forall j :: 1 <= j < |keysToDeleteSize| ==>
              totalSize - Sum(keysWithAge[..j]) > RETRIEVAL_CACHE_MAX_SIZE
  {
    keysToDeleteSize, deletedSize := [], 0;
    for i := 0 to |keysWithAge|
      invariant keysToDeleteSize == KeysOf(keysWithAge[..i])
      invariant deletedSize == Sum(keysWithAge[..i])
      invariant FitLength(totalSize, keysWithAge) == i + FitLength(totalSize - deletedSize, keysWithAge[i..])
    {
      var e := keysWithAge[i];
      SelectStep(keysWithAge, i);
      keysToDeleteSize := keysToDeleteSize + [e.key];
      deletedSize := deletedSize + e.size;
      if totalSize - deletedSize <= RETRIEVAL_CACHE_MAX_SIZE {
        break;
      }
    }
    FitLengthShortest(totalSize, keysWithAge);
  }

  lemma SizePassIsSizeBatch(live: seq<LiveEntry>, sorted: seq<LiveEntry>, batch: seq<Key>)
    requires Sum(live) > RETRIEVAL_CACHE_MAX_SIZE && sorted == SortByTtl(live)
    requires |batch| == FitLength(Sum(live), sorted) && batch == KeysOf(sorted[..|batch|])
    ensures batch == SizeBatch(live)
  {
  }

  lemma PlanOfPasses(before: Snapshot, keys: seq<Key>, ageBatch: seq<Key>, live: seq<LiveEntry>,
                     sizeBatch: seq<Key>)
    requires ageBatch == AgeBatch(before, keys) && live == LiveEntries(before, keys)
    requires sizeBatch == SizeBatch(live)
    ensures Plan(ageBatch, sizeBatch) == CleanupPlan(before, keys)
    ensures before - KeySet(ageBatch) - KeySet(sizeBatch) == AfterCleanup(before, keys)
  {
  }

  /** A guarded batch delete: nothing is sent to the store for an empty batch. */
  method DeleteIfAny(store: Store, keys: seq<Key>) returns (deletedCount: nat)
    modifies store
    ensures store.entries == old(store.entries) - KeySet(keys)
    ensures deletedCount == |old(store.entries).Keys * KeySet(keys)|
  {
    if keys != [] {
      deletedCount := store.DeleteMany(keys);
    } else {
      assert KeySet(keys) == {};
      assert store.entries == old(store.entries) - KeySet(keys);
      deletedCount := 0;
    }
  }

  /** The size pass: when the live entries exceed the ceiling, sort them by TTL, select
      the shortest prefix that brings the total under it, and delete that prefix. */
  method EvictBySize(store: Store, keysWithAge: seq<LiveEntry>, totalSize: int)
      returns (keysToDeleteSize: seq<Key>)
    requires totalSize == Sum(keysWithAge)
    modifies store
    ensures keysToDeleteSize == SizeBatch(keysWithAge)
    ensures store.entries == old(store.entries) - KeySet(keysToDeleteSize)
  {
    keysToDeleteSize := [];
    if totalSize > RETRIEVAL_CACHE_MAX_SIZE {
      var sorted := SortByTtl(keysWithAge);
      var deletedSize;
      keysToDeleteSize, deletedSize := SelectBySize(sorted, totalSize);
      SizePassIsSizeBatch(keysWithAge, sorted, keysToDeleteSize);
      var deletedCount := DeleteIfAny(store, keysToDeleteSize);
    } else {
      assert KeySet(keysToDeleteSize) == {};
      assert store.entries == old(store.entries) - KeySet(keysToDeleteSize);
    }
  }

  /** `cleanup_retrieval_cache`. `alive` is the store's liveness check and `cacheKeys`
      the result of scanning for the namespace prefix. Returns the two batches deleted. */
  method CleanupRetrievalCache(store: Store, alive: bool, cacheKeys: seq<Key>) returns (plan: Plan)
    modifies store
    ensures !alive ==> plan == Plan([], []) && store.entries == old(store.entries)
    ensures alive ==> (plan == CleanupPlan(old(store.entries), cacheKeys)
                       && store.entries == AfterCleanup(old(store.entries), cacheKeys))
  {
    if !alive {
      return Plan([], []);
    }
    ghost var before := store.entries;
    if cacheKeys == [] {
      assert KeySet([]) == {};
      return Plan([], []);
    }
    var keysToDelete, keysWithAge, totalSize := ClassifyKeys(store, cacheKeys);
    var deletedCount := DeleteIfAny(store, keysToDelete);
    var keysToDeleteSize := EvictBySize(store, keysWithAge, totalSize);
    plan := Plan(keysToDelete, keysToDeleteSize);
    PlanOfPasses(before, cacheKeys, keysToDelete, keysWithAge, keysToDeleteSize);
  }
}
