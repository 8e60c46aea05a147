/**
 * The get-or-create memo table of cache results: one CacheResult object per
 * key, created on first request and shared by every later request.
 */
module CacheResultMemo {
  import opened CacheResultModel

  /** The state the memo adds to a class that uses it. */
  class CachedResults {
    var cachedResult: map<string, CacheResult>

    constructor()
      ensures cachedResult == map[]
      ensures Valid()
    {
      cachedResult := map[];
    }

    /** Every stored result was created for the key it is stored under. */
    ghost predicate Valid()
      reads this, cachedResult.Values
    {
      forall k :: k in cachedResult ==> cachedResult[k].source == k
    }

    /**
     * The stored result for the key, or a new empty one stored under it.
     * On a hit the map is unchanged and the very same object comes back; in a
     * valid table that object was created for this key.
     */
    method Cached(item: string) returns (c: CacheResult)
      modifies this
      ensures cachedResult == old(cachedResult)[item := c]
      ensures item in old(cachedResult) ==> c == old(cachedResult)[item] && cachedResult == old(cachedResult)
      ensures item !in old(cachedResult) ==> fresh(c) && c.source == item && c.result == map[]
      ensures old(Valid()) ==> Valid() && c.source == item
    {
      if item in cachedResult {
        c := cachedResult[item];
        return;
      }
      c := new CacheResult(item);
      cachedResult := cachedResult[item := c];
    }

    /** Two consecutive requests for a key return the same object, and store it under that key. */
    method CachedTwice(item: string) returns (first: CacheResult, second: CacheResult)
      modifies this
      ensures first == second
      ensures cachedResult == old(cachedResult)[item := first]
    {
      first := Cached(item);
      second := Cached(item);
    }
  }
}
