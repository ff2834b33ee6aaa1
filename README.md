# Retrieval cache: eviction policy and key derivation

This project models the retrieval cache in `api/utils/cache_utils.py` and proves
properties of that model. The cache keeps the results of retrieval queries in a
key-value store under the namespace `retrieval_cache:`. The model covers two parts:

- **The cleanup pass** (`cleanup_retrieval_cache`). It scans the namespace and reads
  each key's remaining TTL. Keys that no longer exist (TTL `-2`) are skipped. Keys with
  no expiry (TTL `-1`) or whose age `EXPIRY - ttl` is at least 90 days are deleted in
  one batch. The remaining live entries have their memory footprints summed. When the
  sum exceeds 10 GiB, the live entries are stably sorted by ascending remaining TTL,
  and the shortest prefix whose removal brings the total within the ceiling is
  deleted as a second batch.
- **The cache key** (`generate_retrieval_cache_key`). The query's eleven parameters
  are rendered as text in a fixed order. The knowledge-base and document identifier
  lists are sorted first, and an absent document list counts as empty. The texts are
  fed to an xxh64 hasher, and the hex digest is appended to the prefix.

Modules:

- `CacheConfig` holds the four limits (`Config.dfy`).
- `StableSort` is a generic insertion sort. It is proved sorted, a permutation,
  stable, and unique when the order has no ties (`StableSort.dfy`).
- `CacheKey` is the key derivation, kept pure (`CacheKey.dfy`).
- `EvictionPolicy` is the cleanup decision, stated on a snapshot of the store
  (`map<Key, Entry(ttl, size)>`) together with its lemmas (`EvictionPolicy.dfy`).
- `Cleaner` holds the imperative pass: a `Store` class whose `entries` map the
  deletions change, and the two loops of the source as methods. Each method is proved
  to compute exactly the `EvictionPolicy` plan (`Cleaner.dfy`).

The store's liveness check and the namespace scan are parameters of
`CleanupRetrievalCache`: `alive` and `cacheKeys`. The xxh64 hash is a function
parameter `Hasher` from text to a 16-character hex digest. Feeding the texts to the
hasher one by one is modelled as hashing their concatenation.

The model follows the code's TTL convention: `-2` means the key is missing and is
skipped; `-1` means the key has no expiry and is deleted by age. Some descriptions of
this pass call `-2` the "no expiry" value; the code does not, and the model follows the
code. Under the configured limits, an entry with only 10 or 20 seconds left is deleted
by age, so it never reaches the size pass (`EvictionPolicy.ShortTtlsAreAgeExpired`).
The worked size-eviction example (`EvictionPolicy.SizeEvictionExample`) therefore uses
live TTLs of 100 and 120 days.

## Model

| member | source | states |
|---|---|---|
| EvictionPolicy.Classify | api/utils/cache_utils.py:97-116 | A key is skipped iff its TTL is -2. It is live iff TTL > EXPIRY - MAX_AGE (> 0). Otherwise it is age-expired, which includes TTL -1 and every TTL <= 0. |
| EvictionPolicy.ShortTtlsAreAgeExpired | api/utils/cache_utils.py:112-116 | Remaining TTLs of 10 and 20 seconds mean an age of at least 90 days, so such keys are deleted by age. |
| EvictionPolicy.AgeBatch | api/utils/cache_utils.py:96-116 | A key is in the age batch iff it was scanned and it is age-expired. |
| EvictionPolicy.LiveEntries | api/utils/cache_utils.py:96-121 | A tuple is among the live entries iff its key was scanned and is live, and the tuple carries the key's own TTL and size as read from the store. |
| EvictionPolicy.MissingAndNoExpiryKeys | api/utils/cache_utils.py:97-107 | A missing key (-2) is in neither batch and in no live tuple. A scanned key with no expiry (-1) is in the age batch, not in the size batch, and in no live tuple. |
| EvictionPolicy.ScanCoverage | api/utils/cache_utils.py:96-121 | Each scanned occurrence of an existing key is counted exactly once across the age batch and the live keys, and a missing key zero times. So the two are disjoint and cover the existing scanned keys. |
| EvictionPolicy.ScanOrderPreserved | api/utils/cache_utils.py:96-121 | The age batch and the live keys are each subsequences of the scan, so scan order is kept. |
| EvictionPolicy.LiveEntriesOutliveBound | api/utils/cache_utils.py:112-133 | Every live entry has TTL > EXPIRY - MAX_AGE > 0, so its sort key is its TTL and the infinite sort key is never used. |
| EvictionPolicy.TtlOrderIsPreorder | api/utils/cache_utils.py:133 | The sort key `ttl if ttl > 0 else inf` gives a total, transitive order. |
| EvictionPolicy.SortByTtlCorrect | api/utils/cache_utils.py:133 | For positive TTLs, the sorted list is ascending in TTL and is a permutation of the live list. The tuples sharing any one TTL keep their scan order (stability). |
| EvictionPolicy.SumSortByTtl | api/utils/cache_utils.py:119-133 | Sorting the live entries does not change their total size. |
| EvictionPolicy.FitLengthShortest | api/utils/cache_utils.py:136-142 | Every shorter non-empty prefix leaves more than MAX_SIZE. The chosen prefix leaves at most MAX_SIZE, unless it is the whole list. |
| EvictionPolicy.SizeBatchShortestPrefix | api/utils/cache_utils.py:129-142 | The size batch is empty unless the live total exceeds MAX_SIZE. When it exceeds, the batch is the keys of the shortest non-empty prefix of the TTL-sorted list whose removal leaves at most MAX_SIZE. |
| EvictionPolicy.KeptWithinLimit | api/utils/cache_utils.py:129-142 | The live entries not in the size batch total at most MAX_SIZE. |
| EvictionPolicy.SizeBatchFromLive | api/utils/cache_utils.py:136-139 | Every key in the size batch belongs to a live tuple. |
| EvictionPolicy.SecondPassDeletesNothing | api/utils/cache_utils.py:96-149 | After a pass over distinct keys, a second pass over any distinct subset of them, with no time elapsed, deletes nothing. |
| EvictionPolicy.NoAgeExpiredAfterPass | api/utils/cache_utils.py:96-126 | After a pass, no re-scanned key from the first scan is age-expired. |
| EvictionPolicy.RescannedLiveWereKept | api/utils/cache_utils.py:96-149 | After a pass, every live entry of a re-scan is one of the entries the size pass kept. |
| EvictionPolicy.SizeEvictionExample | api/utils/cache_utils.py:96-149 | Two live 6 GiB entries with 100 and 120 days left, scanned in the order k2, k1: the age batch is empty and the size batch is the shorter-lived k1 alone. |
| Cleaner.Store.DeleteMany | api/utils/cache_utils.py:124-126 | The given keys are removed from the store and nothing else changes. The count is the number of given keys that existed. |
| Cleaner.DeleteIfAny | api/utils/cache_utils.py:124-126 | The guarded batch delete: the store loses exactly the batch's keys, and an empty batch leaves it unchanged. |
| Cleaner.ClassifyKeys | api/utils/cache_utils.py:91-121 | The classification loop returns exactly the age batch, exactly the live tuples in scan order, and their summed size. |
| Cleaner.SelectBySize | api/utils/cache_utils.py:136-142 | The size loop returns the keys of the shortest qualifying prefix of the sorted list and that prefix's size. At least one key is taken from a non-empty list, and the loop stops at the first prefix within the ceiling or at the end. |
| Cleaner.EvictBySize | api/utils/cache_utils.py:129-149 | The size pass returns the size batch of the live entries, and the store loses exactly those keys. |
| Cleaner.CleanupRetrievalCache | api/utils/cache_utils.py:78-149 | With the store unavailable, nothing is deleted. Otherwise the two batches are the plan for the scanned keys and the store afterwards is the old store minus both batches. |
| CacheKey.StrLeTotalOrder | api/utils/cache_utils.py:34-35 | Python's string order, as used by `sorted`, is total, transitive and antisymmetric. |
| CacheKey.SortedIdsCanonical | api/utils/cache_utils.py:34-35 | Sorting identifiers gives a sorted list that depends only on the multiset of the input. |
| CacheKey.FieldsNormalizeIds | api/utils/cache_utils.py:33-43 | The rendered field texts do not change when the knowledge-base or document identifiers are permuted, or when an absent document list is replaced by an empty one. |
| CacheKey.KeyAsWritten | api/utils/cache_utils.py:28-44 | The key as the source builds it: the prefix followed by a 16-digit hex digest. |
| CacheKey.PageSizeCollision | api/utils/cache_utils.py:36-37 | Two different queries (page 1, size 23 and page 12, size 3) get the same key under every hash function. |
| CacheKey.RetrievalCacheKey | api/utils/cache_utils.py:28-44 | The corrected key: the prefix followed by a 16-digit hex digest of the framed field texts. |
| CacheKey.FrameRoundTrip | api/utils/cache_utils.py:33-43 | The framed text decodes back to exactly the field texts. |
| CacheKey.FrameInjective | api/utils/cache_utils.py:33-43 | Different field-text lists give different framed texts. |
| CacheKey.SharedKeyMeansSameFieldsOrHashCollision | api/utils/cache_utils.py:28-44 | Two corrected keys are equal only if the queries render the same field texts, or the hash collides on two different framed texts. |
| CacheKey.KeyIgnoresIdOrder | api/utils/cache_utils.py:34-35 | Both the corrected key and the key as written are unchanged under permutation of either identifier list, and when an absent document list is replaced by an empty one. |
| StableSort.SortBySorted | api/utils/cache_utils.py:133 | For a total preorder, the sort's output is sorted. |
| StableSort.SortByStable | api/utils/cache_utils.py:133 | For a transitive order, the sort keeps, in input order, the elements tied with any given element. |
| StableSort.SortByCanonical | api/utils/cache_utils.py:34-35 | For an order without ties, inputs that are permutations of one another sort to the same list. |
| StableSort.SortedUnique | api/utils/cache_utils.py:34-35 | For an order without ties, two sorted arrangements of one multiset are equal. |

## Left out

- The store connection (`rag/utils/redis_conn.py`) is not part of this model. Its liveness check and key scan become the parameters `alive` and `cacheKeys`. Each TTL and memory footprint is read from the modelled snapshot.
- `get_retrieval_cache` and `set_retrieval_cache` are thin wrappers over the store and JSON with fail-open returns, and are not modelled.
- Logging, the gigabyte formatting in log messages, and the returned delete counts reach no decision. The counts appear only in `DeleteMany`'s contract.
- The outer `except Exception` is not modelled. A failing store call aborts the source's pass part-way; the model's pass always completes.
- A key that vanishes between its TTL read and its memory-usage read makes the store return no size (`None`), and the source's sum then raises. The model reads both values from one snapshot, so that race is absent.
- Concurrent cleanup passes, and races with cache reads and writes, are not modelled: the source has no coordination.
- The internals of xxh64 are not modelled: the hash is an arbitrary function to 16 hex digits.
- `str()` of the two float parameters is given as already-rendered text (`similarityThreshold`, `vectorSimilarityWeight`).
- `str()` of a list of identifiers is rendered as `['a', 'b']` without Python's escaping. Quote characters or backslashes inside an identifier are therefore not re-escaped.
- `question`, `tenant_id` and the identifiers are strings; `page`, `size` and `top` are integers. Other argument types are not modelled.
- CacheKey.RetrievalCacheKey: only the key's shape and its injectivity up to hash collisions are proved. That changing any single parameter changes the key is not stated.

## Findings

| source | as written | input that shows it | evidently intended | confidence | as-written member | corrected member |
|---|---|---|---|---|---|---|
| api/utils/cache_utils.py:33-43 | The field texts are fed to the hasher back to back with no delimiter, so the pair page text then size text is ambiguous. | page=1, size=23 and page=12, size=3, all other parameters equal: both feed "…123…" to the hasher and so get the same key. | A key that is unique per query, as the function's own docstring says: distinct field texts should give distinct hashed texts. | not executed | CacheKey.PageSizeCollision | CacheKey.SharedKeyMeansSameFieldsOrHashCollision |
