/** What one pass of `cleanup_retrieval_cache` decides, as functions of a snapshot of the
    store and of the scanned keys, together with the properties of that decision.
    The pass itself, with its loops and its deletions, is in module Cleaner. */
module EvictionPolicy {
  import opened CacheConfig
  import StableSort

  type Key = string

  /** What the store holds for one key: its remaining time-to-live, as the store
      reports it, and its memory footprint in bytes. */
  datatype Entry = Entry(ttl: int, size: nat)

  /** The store's contents at the moment of the pass. */
  type Snapshot = map<Key, Entry>

  /** The store's remaining-TTL answer for a key that does not exist. */
  const ABSENT: int := -2
  /** The store's remaining-TTL answer for a key that has no expiry. */
  const NO_EXPIRY: int := -1

  function TtlOf(store: Snapshot, k: Key): int
  {
    if k in store then store[k].ttl else ABSENT
  }

  function SizeOf(store: Snapshot, k: Key): nat
  {
    if k in store then store[k].size else 0
  }

  /** How long an entry has been stored, assuming it was written with the full expiry
      and never renewed; a non-positive remaining TTL counts as the full expiry. */
  function Age(ttl: int): int
  {
    if ttl > 0 then RETRIEVAL_CACHE_EXPIRY - ttl else RETRIEVAL_CACHE_EXPIRY
  }

  /** The group one scanned key falls into. */
  datatype Class = Skipped | AgeExpired | Live

  /** The classification of one scanned key by its remaining TTL. In closed form: a
      missing key is skipped, a key is live exactly when more than
      EXPIRY - MAX_AGE seconds remain (a positive bound), and every other key,
      including one without expiry and one with a non-positive TTL, is age-expired. */
  function Classify(ttl: int): (c: Class)
    ensures c == Skipped <==> ttl == ABSENT
    ensures c == Live <==> ttl > RETRIEVAL_CACHE_EXPIRY - RETRIEVAL_CACHE_MAX_AGE > 0
    ensures c == AgeExpired <==> ttl != ABSENT && ttl <= RETRIEVAL_CACHE_EXPIRY - RETRIEVAL_CACHE_MAX_AGE
    ensures ttl == NO_EXPIRY ==> c == AgeExpired
  {
    if ttl == ABSENT then Skipped
    else if ttl == NO_EXPIRY then AgeExpired
    else if Age(ttl) >= RETRIEVAL_CACHE_MAX_AGE then AgeExpired
    else Live
  }

  function ClassOf(store: Snapshot, k: Key): Class
  {
    Classify(TtlOf(store, k))
  }

  /** A live key with the TTL and size read for it: one `(key, ttl, size)` tuple. */
  datatype LiveEntry = LiveEntry(key: Key, ttl: int, size: nat)

  function Observed(store: Snapshot, k: Key): LiveEntry
  {
    LiveEntry(k, TtlOf(store, k), SizeOf(store, k))
  }

  // ---------------------------------------------------------------------------
  // The classification pass.

  /** The keys marked for deletion by age, in scan order. */
  function AgeBatch(store: Snapshot, keys: seq<Key>): (r: seq<Key>)
    ensures forall k :: k in r <==> k in keys && ClassOf(store, k) == AgeExpired
  {
    if keys == [] then []
    else
      var last := keys[|keys| - 1];
      assert keys == keys[..|keys| - 1] + [last];
      AgeBatch(store, keys[..|keys| - 1]) + (if ClassOf(store, last) == AgeExpired then [last] else [])
  }

  /** The `(key, ttl, size)` tuples kept for the size pass, in scan order. */
  function LiveEntries(store: Snapshot, keys: seq<Key>): (r: seq<LiveEntry>)
    ensures forall e :: e in r <==> e.key in keys && ClassOf(store, e.key) == Live && e == Observed(store, e.key)
  {
    if keys == [] then []
    else
      var last := keys[|keys| - 1];
      assert keys == keys[..|keys| - 1] + [last];
      LiveEntries(store, keys[..|keys| - 1]) + (if ClassOf(store, last) == Live then [Observed(store, last)] else [])
  }

  function KeysOf(es: seq<LiveEntry>): (ks: seq<Key>)
    ensures |ks| == |es|
    ensures forall i :: 0 <= i < |es| ==> ks[i] == es[i].key
  {
    if es == [] then [] else [es[0].key] + KeysOf(es[1..])
  }

  /** The summed sizes of a list of tuples. */
  function Sum(es: seq<LiveEntry>): nat
  {
    if es == [] then 0 else es[0].size + Sum(es[1..])
  }

  lemma {:induction false} SumAppend(a: seq<LiveEntry>, b: seq<LiveEntry>)
    ensures Sum(a + b) == Sum(a) + Sum(b)
  {
    if a == [] {
      assert a + b == b;
    } else {
      SumAppend(a[1..], b);
      assert (a + b)[1..] == a[1..] + b;
    }
  }

  // ---------------------------------------------------------------------------
  // The order of the size pass: ascending remaining TTL, a non-positive TTL last.

  datatype SortKey = Finite(n: int) | Infinite

  /** The sort key `ttl if ttl > 0 else inf`. */
  function SortKeyOf(e: LiveEntry): SortKey
  {
    if e.ttl > 0 then Finite(e.ttl) else Infinite
  }

  predicate SortKeyLe(a: SortKey, b: SortKey)
  {
    match (a, b)
    case (Finite(m), Finite(n)) => m <= n
    case (_, Infinite) => true
    case (Infinite, Finite(_)) => false
  }

  predicate TtlOrder(x: LiveEntry, y: LiveEntry)
  {
    SortKeyLe(SortKeyOf(x), SortKeyOf(y))
  }

  lemma TtlOrderIsPreorder()
    ensures StableSort.TotalPreorder(TtlOrder)
  {
  }

  /** `list.sort(key=...)` on the live tuples: a stable sort by the sort key. */
  function SortByTtl(es: seq<LiveEntry>): seq<LiveEntry>
  {
    StableSort.SortBy(es, TtlOrder)
  }

  /** The tuples of `es` with remaining TTL `t`, in order. */
  function WithTtl(es: seq<LiveEntry>, t: int): seq<LiveEntry>
  {
    if es == [] then [] else (if es[0].ttl == t then [es[0]] else []) + WithTtl(es[1..], t)
  }

  lemma {:induction false} TiedWithIsWithTtl(es: seq<LiveEntry>, t: int)
    requires t > 0
    requires forall e :: e in es ==> e.ttl > 0
    ensures StableSort.TiedWith(es, LiveEntry("", t, 0), TtlOrder) == WithTtl(es, t)
  {
    if es != [] {
      assert es[0] in es;
      TiedWithIsWithTtl(es[1..], t);
    }
  }

  /** On tuples whose TTLs are all positive (every live tuple, see
      LiveEntriesOutliveBound), the size pass's order is ascending by TTL, is a
      permutation, and keeps tuples of equal TTL in scan order. */
  lemma SortByTtlCorrect(es: seq<LiveEntry>, t: int)
    requires forall e :: e in es ==> e.ttl > 0
    ensures forall i, j :: 0 <= i < j < |SortByTtl(es)| ==> SortByTtl(es)[i].ttl <= SortByTtl(es)[j].ttl
    ensures multiset(SortByTtl(es)) == multiset(es)
    ensures WithTtl(SortByTtl(es), t) == WithTtl(es, t)
  {
    var r := SortByTtl(es);
    TtlOrderIsPreorder();
    StableSort.SortBySorted(es, TtlOrder);
    forall e | e in r ensures e.ttl > 0 {
      assert e in multiset(r);
    }
    if t > 0 {
      StableSort.SortByStable(es, LiveEntry("", t, 0), TtlOrder);
      TiedWithIsWithTtl(es, t);
      TiedWithIsWithTtl(r, t);
    } else {
      WithTtlNone(es, t);
      WithTtlNone(r, t);
    }
    forall i, j | 0 <= i < j < |r| ensures r[i].ttl <= r[j].ttl {
      assert r[i] in r && r[j] in r;
      assert TtlOrder(r[i], r[j]);
    }
  }

  lemma {:induction false} WithTtlNone(es: seq<LiveEntry>, t: int)
    requires forall e :: e in es ==> e.ttl != t
    ensures WithTtl(es, t) == []
  {
    if es != [] {
      assert es[0] in es;
      WithTtlNone(es[1..], t);
    }
  }

  lemma {:induction false} SumInsertByTtl(x: LiveEntry, s: seq<LiveEntry>)
    ensures Sum(StableSort.InsertBy(x, s, TtlOrder)) == x.size + Sum(s)
  {
    if s != [] && !TtlOrder(x, s[0]) {
      SumInsertByTtl(x, s[1..]);
      var r := StableSort.InsertBy(x, s, TtlOrder);
      assert r[1..] == StableSort.InsertBy(x, s[1..], TtlOrder);
    } else {
      assert ([x] + s)[1..] == s;
    }
  }

  /** Sorting does not change the summed size. */
  lemma {:induction false} SumSortByTtl(es: seq<LiveEntry>)
    ensures Sum(SortByTtl(es)) == Sum(es)
  {
    if es != [] {
      SumSortByTtl(es[1..]);
      SumInsertByTtl(es[0], SortByTtl(es[1..]));
    }
  }

  // ---------------------------------------------------------------------------
  // The size pass.

  /** How many sorted tuples the size pass deletes when `remaining` bytes are cached:
      it takes tuples one at a time and stops as soon as the rest fits the ceiling. */
  function FitLength(remaining: int, sorted: seq<LiveEntry>): (n: nat)
    ensures n <= |sorted|
    ensures sorted != [] ==> n >= 1
  {
    if sorted == [] then 0
    else if remaining - sorted[0].size <= RETRIEVAL_CACHE_MAX_SIZE then 1
    else 1 + FitLength(remaining - sorted[0].size, sorted[1..])
  }

  lemma PrefixSum(s: seq<LiveEntry>, j: nat)
    requires 1 <= j <= |s|
    ensures Sum(s[..j]) == s[0].size + Sum(s[1..][..j - 1])
  {
    assert s[..j][1..] == s[1..][..j - 1];
  }

  /** FitLength is the shortest prefix after which the rest fits the ceiling: every
      shorter non-empty prefix leaves too much, and the prefix itself fits unless it is
      the whole list. */
  lemma {:induction false} FitLengthShortest(remaining: int, sorted: seq<LiveEntry>)
    ensures forall j :: 1 <= j < FitLength(remaining, sorted) ==>
              remaining - Sum(sorted[..j]) > RETRIEVAL_CACHE_MAX_SIZE
    ensures sorted != [] ==>
              remaining - Sum(sorted[..FitLength(remaining, sorted)]) <= RETRIEVAL_CACHE_MAX_SIZE
              || FitLength(remaining, sorted) == |sorted|
  {
    if sorted != [] {
      var n := FitLength(remaining, sorted);
      PrefixSum(sorted, 1);
      if remaining - sorted[0].size > RETRIEVAL_CACHE_MAX_SIZE {
        var rest := sorted[1..];
        FitLengthShortest(remaining - sorted[0].size, rest);
        forall j | 1 <= j < n ensures remaining - Sum(sorted[..j]) > RETRIEVAL_CACHE_MAX_SIZE {
          PrefixSum(sorted, j);
        }
        PrefixSum(sorted, n);
      }
    }
  }

  /** The keys the size pass deletes, given the live tuples in scan order. */
  function SizeBatch(live: seq<LiveEntry>): seq<Key>
  {
    var total := Sum(live);
    if total > RETRIEVAL_CACHE_MAX_SIZE then
      var sorted := SortByTtl(live);
      KeysOf(sorted[..FitLength(total, sorted)])
    else []
  }

  // ---------------------------------------------------------------------------
  // A whole pass.

  /** The two deletion batches of one pass. */
  datatype Plan = Plan(ageBatch: seq<Key>, sizeBatch: seq<Key>)

  function CleanupPlan(store: Snapshot, keys: seq<Key>): Plan
  {
    Plan(AgeBatch(store, keys), SizeBatch(LiveEntries(store, keys)))
  }

  /** The keys of a batch, as a set. */
  function KeySet(ks: seq<Key>): (s: set<Key>)
    ensures forall k :: k in s <==> k in ks
  {
    set k | k in ks
  }

  /** The store after both batches are deleted. */
  function AfterCleanup(store: Snapshot, keys: seq<Key>): Snapshot
  {
    var plan := CleanupPlan(store, keys);
    store - KeySet(plan.ageBatch) - KeySet(plan.sizeBatch)
  }

  ghost predicate Distinct<T>(s: seq<T>)
  {
    forall i, j :: 0 <= i < j < |s| ==> s[i] != s[j]
  }

  /** `a` is `b` with some elements left out, the rest in order. */
  predicate IsSubsequence<T(==)>(a: seq<T>, b: seq<T>)
  {
    if a == [] then true
    else if b == [] then false
    else if a[|a| - 1] == b[|b| - 1] then IsSubsequence(a[..|a| - 1], b[..|b| - 1])
    else IsSubsequence(a, b[..|b| - 1])
  }

  // ---------------------------------------------------------------------------
  // Properties of the classification pass.

  lemma AgeBatchSnoc(store: Snapshot, init: seq<Key>, last: Key)
    ensures AgeBatch(store, init + [last])
         == AgeBatch(store, init) + (if ClassOf(store, last) == AgeExpired then [last] else [])
  {
    assert (init + [last])[..|init + [last]| - 1] == init;
  }

  lemma LiveKeysSnoc(store: Snapshot, init: seq<Key>, last: Key)
    ensures LiveEntries(store, init + [last])
         == LiveEntries(store, init) + (if ClassOf(store, last) == Live then [Observed(store, last)] else [])
    ensures KeysOf(LiveEntries(store, init + [last]))
         == KeysOf(LiveEntries(store, init)) + (if ClassOf(store, last) == Live then [last] else [])
  {
    assert (init + [last])[..|init + [last]| - 1] == init;
    KeysOfAppend(LiveEntries(store, init), [Observed(store, last)]);
  }

  /** The age batch and the live keys each keep scan order. */
  lemma {:induction false} ScanOrderPreserved(store: Snapshot, keys: seq<Key>)
    ensures IsSubsequence(AgeBatch(store, keys), keys)
    ensures IsSubsequence(KeysOf(LiveEntries(store, keys)), keys)
  {
    if keys != [] {
      var init, last := keys[..|keys| - 1], keys[|keys| - 1];
      assert keys == init + [last];
      ScanOrderPreserved(store, init);
      AgeBatchSnoc(store, init, last);
      LiveKeysSnoc(store, init, last);
      var age, live := AgeBatch(store, init), KeysOf(LiveEntries(store, init));
      if ClassOf(store, last) == AgeExpired {
        SubsequenceBoth(age, init, last);
      } else {
        assert AgeBatch(store, keys) == age + [] == age;
        SubsequenceExtend(age, init, last);
      }
      if ClassOf(store, last) == Live {
        SubsequenceBoth(live, init, last);
      } else {
        assert KeysOf(LiveEntries(store, keys)) == live + [] == live;
        SubsequenceExtend(live, init, last);
      }
    }
  }

  /** How often `k` is in the age batch plus how often it is among the live keys. */
  function Placed(store: Snapshot, keys: seq<Key>, k: Key): nat
  {
    multiset(AgeBatch(store, keys))[k] + multiset(KeysOf(LiveEntries(store, keys)))[k]
  }

  /** The age batch and the live keys partition the scanned keys that exist: each
      scanned occurrence of an existing key lands in exactly one of them, and a missing
      key in neither. */
  lemma {:induction false} ScanCoverage(store: Snapshot, keys: seq<Key>, k: Key)
    ensures Placed(store, keys, k) == if TtlOf(store, k) == ABSENT then 0 else multiset(keys)[k]
  {
    if keys != [] {
      var init, last := keys[..|keys| - 1], keys[|keys| - 1];
      assert keys == init + [last];
      ScanCoverage(store, init, k);
      AgeBatchSnoc(store, init, last);
      LiveKeysSnoc(store, init, last);
      var ageTail := if ClassOf(store, last) == AgeExpired then [last] else [];
      var liveTail := if ClassOf(store, last) == Live then [last] else [];
      assert multiset(keys)[k] == multiset(init)[k] + multiset([last])[k];
      assert multiset(AgeBatch(store, keys))[k] == multiset(AgeBatch(store, init))[k] + multiset(ageTail)[k];
      assert multiset(KeysOf(LiveEntries(store, keys)))[k]
          == multiset(KeysOf(LiveEntries(store, init)))[k] + multiset(liveTail)[k];
    }
  }

  lemma KeysOfAppend(a: seq<LiveEntry>, b: seq<LiveEntry>)
    ensures KeysOf(a + b) == KeysOf(a) + KeysOf(b)
  {
  }

  lemma {:induction false} SubsequenceExtend<T>(a: seq<T>, b: seq<T>, x: T)
    requires IsSubsequence(a, b)
    ensures IsSubsequence(a, b + [x])
    decreases |b|, 1
  {
    var b' := b + [x];
    assert b'[..|b'| - 1] == b;
    if a != [] && a[|a| - 1] == x {
      SubsequenceInit(a, b);
    }
  }

  lemma {:induction false} SubsequenceInit<T>(a: seq<T>, b: seq<T>)
    requires a != [] && IsSubsequence(a, b)
    ensures IsSubsequence(a[..|a| - 1], b)
    decreases |b|, 0
  {
    if a[|a| - 1] == b[|b| - 1] {
      SubsequenceExtend(a[..|a| - 1], b[..|b| - 1], b[|b| - 1]);
      assert b[..|b| - 1] + [b[|b| - 1]] == b;
    } else {
      SubsequenceInit(a, b[..|b| - 1]);
      SubsequenceExtend(a[..|a| - 1], b[..|b| - 1], b[|b| - 1]);
      assert b[..|b| - 1] + [b[|b| - 1]] == b;
    }
  }

  lemma SubsequenceBoth<T>(a: seq<T>, b: seq<T>, x: T)
    requires IsSubsequence(a, b)
    ensures IsSubsequence(a + [x], b + [x])
  {
    assert (a + [x])[..|a + [x]| - 1] == a;
    assert (b + [x])[..|b + [x]| - 1] == b;
  }

  /** A key the store no longer has is in neither batch and contributes no tuple, so its
      size is never counted; a key without expiry is always in the age batch and never
      among the live tuples. */
  lemma MissingAndNoExpiryKeys(store: Snapshot, keys: seq<Key>, k: Key)
    ensures TtlOf(store, k) == ABSENT ==>
              k !in CleanupPlan(store, keys).ageBatch && k !in CleanupPlan(store, keys).sizeBatch
              && forall e :: e in LiveEntries(store, keys) ==> e.key != k
    ensures TtlOf(store, k) == NO_EXPIRY && k in keys ==>
              k in CleanupPlan(store, keys).ageBatch && k !in CleanupPlan(store, keys).sizeBatch
              && forall e :: e in LiveEntries(store, keys) ==> e.key != k
  {
    SizeBatchFromLive(LiveEntries(store, keys));
  }

  /** Every key the size pass deletes is the key of a live tuple. */
  lemma SizeBatchFromLive(live: seq<LiveEntry>)
    ensures forall k :: k in SizeBatch(live) ==> exists e :: e in live && e.key == k
  {
    var total := Sum(live);
    if total > RETRIEVAL_CACHE_MAX_SIZE {
      var sorted := SortByTtl(live);
      var n := FitLength(total, sorted);
      forall k | k in SizeBatch(live) ensures exists e :: e in live && e.key == k {
        var i :| 0 <= i < n && KeysOf(sorted[..n])[i] == k;
        assert sorted[i] in multiset(live);
      }
    }
  }

  /** Every live tuple has more than EXPIRY - MAX_AGE > 0 seconds left, so its sort key
      is its TTL and the infinite sort key is never used. */
  lemma LiveEntriesOutliveBound(store: Snapshot, keys: seq<Key>)
    ensures RETRIEVAL_CACHE_EXPIRY - RETRIEVAL_CACHE_MAX_AGE > 0
    ensures forall e :: e in LiveEntries(store, keys) ==>
              e.ttl > RETRIEVAL_CACHE_EXPIRY - RETRIEVAL_CACHE_MAX_AGE && SortKeyOf(e) == Finite(e.ttl)
  {
  }

  // ---------------------------------------------------------------------------
  // Properties of the size pass.

  /** The size batch is empty unless the live total exceeds the ceiling. Otherwise it is
      the keys of the shortest non-empty prefix of the TTL-sorted live tuples after which
      the rest fits: the rest fits (the boundary is inclusive) and every shorter prefix,
      the empty one included, leaves too much. */
  lemma SizeBatchShortestPrefix(live: seq<LiveEntry>)
    ensures Sum(live) <= RETRIEVAL_CACHE_MAX_SIZE ==> SizeBatch(live) == []
    ensures Sum(live) > RETRIEVAL_CACHE_MAX_SIZE ==>
              var sorted, n := SortByTtl(live), |SizeBatch(live)|;
              && 1 <= n <= |sorted|
              && SizeBatch(live) == KeysOf(sorted[..n])
              && Sum(live) - Sum(sorted[..n]) <= RETRIEVAL_CACHE_MAX_SIZE
              && forall j :: 0 <= j < n ==> Sum(live) - Sum(sorted[..j]) > RETRIEVAL_CACHE_MAX_SIZE
  {
    var total := Sum(live);
    if total > RETRIEVAL_CACHE_MAX_SIZE {
      var sorted := SortByTtl(live);
      var n := FitLength(total, sorted);
      SumSortByTtl(live);
      assert sorted != [];
      FitLengthShortest(total, sorted);
      assert sorted[..|sorted|] == sorted;
      assert sorted[..0] == [];
    }
  }

  /** The live tuples the size pass keeps sum to at most the ceiling. */
  lemma {:induction false} KeptWithinLimit(live: seq<LiveEntry>)
    ensures Sum(SortByTtl(live)[|SizeBatch(live)|..]) <= RETRIEVAL_CACHE_MAX_SIZE
  {
    var sorted, n := SortByTtl(live), |SizeBatch(live)|;
    SumSortByTtl(live);
    SizeBatchShortestPrefix(live);
    assert sorted == sorted[..n] + sorted[n..];
    SumAppend(sorted[..n], sorted[n..]);
  }

  // ---------------------------------------------------------------------------
  // A second pass.

  lemma {:induction false} LiveEntriesDistinct(store: Snapshot, keys: seq<Key>)
    requires Distinct(keys)
    ensures Distinct(LiveEntries(store, keys))
  {
    if keys != [] {
      var init, last := keys[..|keys| - 1], keys[|keys| - 1];
      assert keys == init + [last];
      assert Distinct(init);
      LiveEntriesDistinct(store, init);
      assert last !in init;
    }
  }

  /** Sizes are non-negative, so a list without repetitions sums to at most any list
      that contains all its elements. */
  lemma {:induction false} SumOfDistinctSubset(xs: seq<LiveEntry>, ys: seq<LiveEntry>)
    requires Distinct(xs)
    requires forall x :: x in xs ==> x in ys
    ensures Sum(xs) <= Sum(ys)
    decreases |xs|
  {
    if xs != [] {
      var x := xs[0];
      assert x in xs;
      var i :| 0 <= i < |ys| && ys[i] == x;
      var others := ys[..i] + ys[i + 1..];
      assert ys == ys[..i] + ([x] + ys[i + 1..]);
      SumAppend(ys[..i], [x] + ys[i + 1..]);
      SumAppend(ys[..i], ys[i + 1..]);
      assert ([x] + ys[i + 1..])[1..] == ys[i + 1..];
      forall y | y in xs[1..] ensures y in others {
        var j :| 0 <= j < |xs[1..]| && xs[1..][j] == y;
        assert xs[j + 1] == y && y != x;
        assert y in ys;
      }
      assert Distinct(xs[1..]);
      SumOfDistinctSubset(xs[1..], others);
    }
  }

  lemma {:induction false} AgeBatchEmpty(store: Snapshot, keys: seq<Key>)
    requires forall k :: k in keys ==> ClassOf(store, k) != AgeExpired
    ensures AgeBatch(store, keys) == []
  {
    if keys != [] {
      var init, last := keys[..|keys| - 1], keys[|keys| - 1];
      assert keys == init + [last];
      AgeBatchEmpty(store, init);
      AgeBatchSnoc(store, init, last);
    }
  }

  /** After a pass, no scanned key that survived is age-expired. */
  lemma NoAgeExpiredAfterPass(store: Snapshot, keys: seq<Key>, rescan: seq<Key>)
    requires forall k :: k in rescan ==> k in keys
    ensures AgeBatch(AfterCleanup(store, keys), rescan) == []
  {
    var after := AfterCleanup(store, keys);
    forall k | k in rescan ensures ClassOf(after, k) != AgeExpired {
      if k in after {
        assert after[k] == store[k];
      }
    }
    AgeBatchEmpty(after, rescan);
  }

  /** A tuple that a rescan after a pass finds live was kept by that pass. */
  lemma LiveAfterPassWasKept(store: Snapshot, keys: seq<Key>, e: LiveEntry)
    requires e.key in keys
    requires ClassOf(AfterCleanup(store, keys), e.key) == Live
    requires e == Observed(AfterCleanup(store, keys), e.key)
    ensures var live := LiveEntries(store, keys);
            e in SortByTtl(live)[|SizeBatch(live)|..]
  {
    var live := LiveEntries(store, keys);
    var k := e.key;
    assert k in AfterCleanup(store, keys) && k !in SizeBatch(live) && e == Observed(store, k) by {
      var after := AfterCleanup(store, keys);
      assert k in after && after[k] == store[k];
    }
    assert e in live;
    KeptUnlessBatched(live, e);
  }

  /** A live tuple whose key the size pass does not delete is among the kept tuples. */
  lemma KeptUnlessBatched(live: seq<LiveEntry>, e: LiveEntry)
    requires e in live && e.key !in SizeBatch(live)
    ensures e in SortByTtl(live)[|SizeBatch(live)|..]
  {
    var sorted, n := SortByTtl(live), |SizeBatch(live)|;
    assert e in sorted by {
      SortByTtlMultiset(live);
      assert e in multiset(sorted);
    }
    SizeBatchShortestPrefix(live);
    assert sorted == sorted[..n] + sorted[n..];
  }

  lemma SortByTtlMultiset(es: seq<LiveEntry>)
    ensures multiset(SortByTtl(es)) == multiset(es)
  {
  }

  /** After a pass, every live tuple seen by a rescan is one the size pass kept. */
  lemma RescannedLiveWereKept(store: Snapshot, keys: seq<Key>, rescan: seq<Key>)
    requires forall k :: k in rescan ==> k in keys
    ensures var live := LiveEntries(store, keys);
            forall e :: e in LiveEntries(AfterCleanup(store, keys), rescan) ==>
              e in SortByTtl(live)[|SizeBatch(live)|..]
  {
    forall e | e in LiveEntries(AfterCleanup(store, keys), rescan)
      ensures e in SortByTtl(LiveEntries(store, keys))[|SizeBatch(LiveEntries(store, keys))|..]
    {
      LiveAfterPassWasKept(store, keys, e);
    }
  }

  /** A pass right after a pass, scanning each surviving key at most once and with no
      time elapsed, deletes nothing: what survived is live and fits the ceiling. */
  lemma SecondPassDeletesNothing(store: Snapshot, keys: seq<Key>, rescan: seq<Key>)
    requires Distinct(rescan)
    requires forall k :: k in rescan ==> k in keys
    ensures CleanupPlan(AfterCleanup(store, keys), rescan) == Plan([], [])
  {
    var live := LiveEntries(store, keys);
    var live2 := LiveEntries(AfterCleanup(store, keys), rescan);
    NoAgeExpiredAfterPass(store, keys, rescan);
    RescannedLiveWereKept(store, keys, rescan);
    KeptWithinLimit(live);
    LiveEntriesDistinct(AfterCleanup(store, keys), rescan);
    SumOfDistinctSubset(live2, SortByTtl(live)[|SizeBatch(live)|..]);
  }

  // ---------------------------------------------------------------------------
  // Worked examples.

  /** Two live entries of 6 GiB each, 100 and 120 days left, scanned newest first:
      nothing is age-expired, only the one with less time left is deleted for size,
      and the 6 GiB that remain fit the 10 GiB ceiling. */
  lemma SizeEvictionExample()
    ensures var gib := 1024 * 1024 * 1024;
            var store := map["k1" := Entry(100 * 24 * 3600, 6 * gib), "k2" := Entry(120 * 24 * 3600, 6 * gib)];
            CleanupPlan(store, ["k2", "k1"]) == Plan([], ["k1"])
  {
    var gib := 1024 * 1024 * 1024;
    var store := map["k1" := Entry(100 * 24 * 3600, 6 * gib), "k2" := Entry(120 * 24 * 3600, 6 * gib)];
    var e1, e2 := LiveEntry("k1", 100 * 24 * 3600, 6 * gib), LiveEntry("k2", 120 * 24 * 3600, 6 * gib);
    ExampleScan(store, e1, e2);
    ExampleSizePass(e1, e2);
  }

  lemma ExampleScan(store: Snapshot, e1: LiveEntry, e2: LiveEntry)
    requires store == map["k1" := Entry(e1.ttl, e1.size), "k2" := Entry(e2.ttl, e2.size)]
    requires e1.key == "k1" && e2.key == "k2"
    requires RETRIEVAL_CACHE_EXPIRY - RETRIEVAL_CACHE_MAX_AGE < e1.ttl
    requires RETRIEVAL_CACHE_EXPIRY - RETRIEVAL_CACHE_MAX_AGE < e2.ttl
    ensures AgeBatch(store, ["k2", "k1"]) == []
    ensures LiveEntries(store, ["k2", "k1"]) == [e2, e1]
  {
    var keys := ["k2", "k1"];
    assert ClassOf(store, "k1") == Live && ClassOf(store, "k2") == Live;
    assert [] + ["k2"] == ["k2"] && ["k2"] + ["k1"] == keys;
    assert AgeBatch(store, keys) == [] by {
      AgeBatchSnoc(store, [], "k2");
      AgeBatchSnoc(store, ["k2"], "k1");
    }
    LiveKeysSnoc(store, [], "k2");
    LiveKeysSnoc(store, ["k2"], "k1");
    assert Observed(store, "k1") == e1 && Observed(store, "k2") == e2;
  }

  lemma ExampleSizePass(e1: LiveEntry, e2: LiveEntry)
    requires e1 == LiveEntry("k1", 100 * 24 * 3600, 6 * 1024 * 1024 * 1024)
    requires e2 == LiveEntry("k2", 120 * 24 * 3600, 6 * 1024 * 1024 * 1024)
    ensures SizeBatch([e2, e1]) == ["k1"]
  {
    var gib := 1024 * 1024 * 1024;
    assert Sum([e2, e1]) == 12 * gib by {
      assert [e1][1..] == [];
      assert Sum([e1]) == e1.size + Sum([]);
      assert [e2, e1][1..] == [e1];
      assert Sum([e2, e1]) == e2.size + Sum([e1]);
    }
    assert SortByTtl([e2, e1]) == [e1, e2] by {
      assert [e2, e1][1..] == [e1];
      assert [e1][1..] == [];
      assert SortByTtl([e1]) == [e1];
      assert StableSort.InsertBy(e2, [e1], TtlOrder) == [e1, e2] by {
        assert !TtlOrder(e2, e1);
      }
    }
    assert FitLength(12 * gib, [e1, e2]) == 1;
    assert KeysOf([e1, e2][..1]) == ["k1"] by {
      assert [e1, e2][..1] == [e1];
    }
  }

  /** Under the configured limits an entry with only 10 or 20 seconds left is 180 days
      minus a few seconds old, so it is deleted by age and never considered for size. */
  lemma ShortTtlsAreAgeExpired()
    ensures Classify(10) == AgeExpired && Classify(20) == AgeExpired
  {
  }
}
