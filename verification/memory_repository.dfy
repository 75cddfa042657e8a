/** `ItemsInMemoryRepository`: the staging area of a bulk import. It keeps
    the staged list in the process-wide memory cache under one constant
    key, so every repository instance reads and writes the same slot. */
module MemoryRepository {
  import opened Wrappers
  import opened Models

  /** The cache key every instance uses. */
  const CacheKey := "BulkImportItems"

  /** The shared `IMemoryCache`, reduced to the lists it holds. */
  type Cache = map<string, seq<Item>>

  /** `GetAsync`: the staged list, or an empty list when nothing is staged. */
  function Get(cache: Cache): (items: seq<Item>)
    ensures CacheKey !in cache ==> items == []
  {
    if CacheKey in cache then cache[CacheKey] else []
  }

  /** `SaveAsync`: stages `items` (a null list stages an empty one),
      replacing whatever was staged; no other cache entry changes. */
  function Save(cache: Cache, items: Option<seq<Item>>): (cache': Cache)
    ensures Get(cache') == items.GetOr([])
    ensures CacheKey in cache'
    ensures forall key :: key != CacheKey ==> (key in cache' <==> key in cache)
    ensures forall key :: key != CacheKey && key in cache ==> cache'[key] == cache[key]
  {
    cache[CacheKey := items.GetOr([])]
  }

  /** `ClearAsync`: removes the staged list; no other cache entry changes. */
  function Clear(cache: Cache): (cache': Cache)
    ensures Get(cache') == []
    ensures CacheKey !in cache'
    ensures forall key :: key != CacheKey ==> (key in cache' <==> key in cache)
    ensures forall key :: key != CacheKey && key in cache ==> cache'[key] == cache[key]
  {
    cache - {CacheKey}
  }

  /** A later save replaces an earlier one wholesale: nothing is merged. */
  lemma SaveReplaces(cache: Cache, first: Option<seq<Item>>, second: Option<seq<Item>>)
    ensures Save(Save(cache, first), second) == Save(cache, second)
    ensures Get(Save(Save(cache, first), second)) == second.GetOr([])
  {
  }

  /** Clearing twice is clearing once. */
  lemma ClearIdempotent(cache: Cache)
    ensures Clear(Clear(cache)) == Clear(cache)
  {
  }

  /** Clearing after a save forgets the save. */
  lemma ClearUndoesSave(cache: Cache, items: Option<seq<Item>>)
    ensures Clear(Save(cache, items)) == Clear(cache)
  {
  }
}
