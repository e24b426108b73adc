/**
 * The response cache (`CACHE_STORE`, `get_cache`, `save_cache`): responses
 * keyed by request URL, each with the time it was saved and its
 * `Last-Modified` value. The clock is the `now` argument.
 */
module Cache {
  import opened Wrappers

  newtype Byte = b: int | 0 <= b < 256

  /** `CACHE_TIMEOUT`: how many seconds a saved response is served without revalidation. */
  const CacheTimeout: int := 5

  /** One value of `CACHE_STORE`: `(data, timestamp, last_modified)`. */
  datatype Entry = Entry(data: seq<Byte>, timestamp: int, lastModified: Option<string>)

  /** What `get_cache` returns: `(data, last_modified)`. */
  datatype Lookup = Lookup(data: Option<seq<Byte>>, lastModified: Option<string>)

  /** An entry is fresh while less than `CACHE_TIMEOUT` seconds have passed since it was saved. */
  predicate IsFresh(e: Entry, now: int): (b: bool)
    ensures now <= e.timestamp ==> b
    ensures now >= e.timestamp + CacheTimeout ==> !b
  {
    now - e.timestamp < CacheTimeout
  }

  /**
   * Freshness only lapses: an entry is fresh when it is saved, stale
   * `CACHE_TIMEOUT` seconds later, and once stale it stays stale.
   */
  lemma FreshnessLapses(e: Entry, now: int, later: int)
    requires now <= later
    ensures IsFresh(e, e.timestamp) && !IsFresh(e, e.timestamp + CacheTimeout)
    ensures !IsFresh(e, now) ==> !IsFresh(e, later)
  {
  }

  class ResponseCache {
    var store: map<string, Entry>

    /** `save_cache` skips empty responses, so every stored response has data. */
    ghost predicate Valid()
      reads this
    {
      forall url :: url in store ==> store[url].data != []
    }

    /** The store starts empty. */
    constructor ()
      ensures Valid() && store == map[]
    {
      store := map[];
    }

    /**
     * `get_cache(url)` at time `now`: a miss gives `(None, None)`; a fresh hit
     * gives the data and no validator; a stale hit gives the data and its
     * `Last-Modified`, so that the caller can revalidate.
     */
    function Get(url: string, now: int): (r: Lookup)
      reads this
      ensures url !in store ==> r == Lookup(None, None)
      ensures url in store && IsFresh(store[url], now) ==> r == Lookup(Some(store[url].data), None)
      ensures url in store && !IsFresh(store[url], now) ==> r == Lookup(Some(store[url].data), store[url].lastModified)
      ensures Valid() ==> (r.data.Some? <==> url in store) && (r.data.Some? ==> r.data.value != [])
    {
      if url in store then
        var e := store[url];
        if IsFresh(e, now) then Lookup(Some(e.data), None)
        else Lookup(Some(e.data), e.lastModified)
      else Lookup(None, None)
    }

    /**
     * `save_cache(url, data, last_modified)` at time `now`: empty data leaves
     * the store as it was; otherwise the entry for `url` is replaced, every
     * other URL keeps its entry, and `url` is a fresh hit for the next
     * `CACHE_TIMEOUT` seconds.
     */
    method Save(url: string, data: seq<Byte>, lastModified: Option<string>, now: int)
      requires Valid()
      modifies this
      ensures Valid()
      ensures data == [] ==> store == old(store)
      ensures data != [] ==> store == old(store)[url := Entry(data, now, lastModified)]
      ensures forall u, t :: u != url ==> Get(u, t) == old(Get(u, t))
      ensures data != [] ==> forall t :: t - now < CacheTimeout ==> Get(url, t) == Lookup(Some(data), None)
    {
      if data != [] {
        store := store[url := Entry(data, now, lastModified)];
      }
    }
  }
}
