/** The background service's `analysisCache`: a `Map` from cache keys to batch results, bounded
    at 100 entries by deleting the earliest inserted key before an insertion into a full cache. */
module Cache {
  import opened Wrappers
  import opened Json
  import opened Text

  /** `MAX_CACHE_SIZE`. */
  const MaxCacheSize: nat := 100

  /** The cache as a value: the keys in insertion order (the iteration order of a `Map`) and the
      `results` array stored under each. */
  datatype Store = Store(order: seq<string>, entries: map<string, seq<Json>>)

  /** The keys listed, and no more of them than the bound. */
  ghost predicate Valid(c: Store) {
    Listed(c) && |c.order| <= MaxCacheSize
  }

  /** The cache when the service starts. */
  const Empty: Store := Store([], map[])

  lemma EmptyValid()
    ensures Valid(Empty) && |Empty.entries| == 0
  {
  }

  /** `analysisCache.get(key)`, `undefined` for a missing key. */
  function Lookup(c: Store, key: string): (r: Option<seq<Json>>)
    ensures r.Some? <==> key in c.entries
    ensures r.Some? ==> r.value == c.entries[key]
  {
    if key in c.entries then Some(c.entries[key]) else None
  }

  /** Keys listed once each and exactly the keys of the map. */
  ghost predicate Listed(c: Store) {
    Distinct(c.order) && forall k :: k in c.entries <==> k in c.order
  }

  lemma {:induction false} DistinctCard(ks: seq<string>)
    requires Distinct(ks)
    ensures |(set k | k in ks)| == |ks|
  {
    if ks != [] {
      var init := ks[..|ks| - 1];
      var last := ks[|ks| - 1];
      DistinctCard(init);
      assert (set k | k in ks) == (set k | k in init) + {last};
      assert last !in (set k | k in init);
    }
  }

  /** The map's size is the number of listed keys. */
  lemma SizeIsLength(c: Store)
    requires Listed(c)
    ensures |c.entries| == |c.order|
  {
    assert c.entries.Keys == set k | k in c.order;
    DistinctCard(c.order);
  }

  /** `analysisCache.delete(analysisCache.keys().next().value)` on a full cache. */
  function EvictOldest(c: Store): (r: Store)
    requires c.order != []
  {
    Store(c.order[1..], c.entries - {c.order[0]})
  }

  /** `analysisCache.set(key, value)`: a new key goes last, a present one keeps its place. */
  function Put(c: Store, key: string, value: seq<Json>): (r: Store) {
    if key in c.entries then Store(c.order, c.entries[key := value])
    else Store(c.order + [key], c.entries[key := value])
  }

  /** An insertion: the eviction check on the map's size, then the `set`. */
  function Insert(c: Store, key: string, value: seq<Json>): (r: Store)
    requires Valid(c)
  {
    SizeIsLength(c);
    Put(if |c.entries| >= MaxCacheSize then EvictOldest(c) else c, key, value)
  }

  lemma EvictListed(c: Store)
    requires Listed(c) && c.order != []
    ensures Listed(EvictOldest(c))
  {
    var r := EvictOldest(c);
    forall k | k in c.order && k != c.order[0] ensures k in r.order {
      var i :| 0 <= i < |c.order| && c.order[i] == k;
      assert r.order[i - 1] == k;
    }
  }

  lemma PutListed(c: Store, key: string, value: seq<Json>)
    requires Listed(c)
    ensures Listed(Put(c, key, value))
    ensures |Put(c, key, value).order| == if key in c.entries then |c.order| else |c.order| + 1
  {
    var r := Put(c, key, value);
    if key !in c.entries {
      forall i, j | 0 <= i < j < |r.order| ensures r.order[i] != r.order[j] {
        if j == |c.order| {
          assert r.order[i] == c.order[i] && c.order[i] in c.order;
        }
      }
    }
  }

  /** An insertion keeps the cache valid, so it never holds more than 100 entries, and stores
      the value under the key. */
  lemma InsertValid(c: Store, key: string, value: seq<Json>)
    requires Valid(c)
    ensures Valid(Insert(c, key, value))
    ensures Lookup(Insert(c, key, value), key) == Some(value)
  {
    SizeIsLength(c);
    var c1 := if |c.entries| >= MaxCacheSize then EvictOldest(c) else c;
    if |c.entries| >= MaxCacheSize {
      EvictListed(c);
    }
    PutListed(c1, key, value);
  }

  /** An insertion of a new key into a cache below the bound appends it and changes nothing else. */
  lemma InsertBelowBound(c: Store, key: string, value: seq<Json>)
    requires Valid(c) && |c.order| < MaxCacheSize && key !in c.entries
    ensures Insert(c, key, value).order == c.order + [key]
    ensures Insert(c, key, value).entries == c.entries[key := value]
  {
    SizeIsLength(c);
  }

  /** An insertion of a new key into a full cache evicts exactly the earliest inserted key; the
      new key is present and every other entry is unchanged. */
  lemma InsertIntoFull(c: Store, key: string, value: seq<Json>)
    requires Valid(c) && |c.order| == MaxCacheSize && key !in c.entries
    ensures var r := Insert(c, key, value);
      && r.order == c.order[1..] + [key]
      && c.order[0] !in r.entries
      && Lookup(r, key) == Some(value)
      && forall k :: k in c.entries && k != c.order[0] ==> Lookup(r, k) == Lookup(c, k)
  {
    SizeIsLength(c);
    assert c.order[0] in c.order;
  }

  /** A key that stays stored keeps its value until it is inserted again. */
  lemma InsertKeepsOthers(c: Store, key: string, value: seq<Json>, other: string)
    requires Valid(c) && other != key && other in Insert(c, key, value).entries
    ensures Lookup(Insert(c, key, value), other) == Lookup(c, other)
  {
  }

  /** The cache itself, updated in place. */
  class AnalysisCache {
    var order: seq<string>
    var entries: map<string, seq<Json>>

    function Contents(): Store
      reads this
    {
      Store(order, entries)
    }

    /** `new Map()`. */
    constructor ()
      ensures Contents() == Empty
    {
      order := [];
      entries := map[];
    }

    /** `analysisCache.has(key)` and `analysisCache.get(key)`. */
    method Get(key: string) returns (r: Option<seq<Json>>)
      ensures r == Lookup(Contents(), key)
    {
      if key in entries {
        r := Some(entries[key]);
      } else {
        r := None;
      }
    }

    /** The insertion of the batch path: the eviction check, then `analysisCache.set`. */
    method Set(key: string, value: seq<Json>)
      requires Valid(Contents())
      modifies this
      ensures Contents() == Insert(old(Contents()), key, value)
      ensures Valid(Contents())
    {
      InsertValid(Contents(), key, value);
      SizeIsLength(Contents());
      if |entries| >= MaxCacheSize {
        var firstKey := order[0];
        order := order[1..];
        entries := entries - {firstKey};
      }
      if key in entries {
        entries := entries[key := value];
      } else {
        order := order + [key];
        entries := entries[key := value];
      }
    }
  }
}
