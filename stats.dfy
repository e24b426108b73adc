/**
 * The usage counters (`TOTAL_REQUESTS`, `BLOCKED_REQUESTS`, `CACHE_HITS`,
 * `BYTES_TRANSFERRED`) and the four functions that update them.
 */
module Stats {
  /** A snapshot of the four counters. */
  datatype Counters = Counters(totalRequests: nat, blockedRequests: nat, cacheHits: nat, bytesTransferred: int)

  /** One call of an update function. */
  datatype Update = TotalInc | BlockedInc | CacheInc | BytesInc(count: int)

  /** The counters after one call. */
  function Step(c: Counters, u: Update): (r: Counters)
    ensures r.totalRequests + r.blockedRequests + r.cacheHits ==
      c.totalRequests + c.blockedRequests + c.cacheHits + (if u.BytesInc? then 0 else 1)
    ensures u.BytesInc? ==> r.bytesTransferred == c.bytesTransferred + u.count
    ensures u.BytesInc? ==>
      && r.totalRequests == c.totalRequests
      && r.blockedRequests == c.blockedRequests
      && r.cacheHits == c.cacheHits
    ensures !u.BytesInc? ==> r.bytesTransferred == c.bytesTransferred
    ensures !u.BytesInc? || u.count >= 0 ==> AtMost(c, r)
  {
    match u
    case TotalInc => c.(totalRequests := c.totalRequests + 1)
    case BlockedInc => c.(blockedRequests := c.blockedRequests + 1)
    case CacheInc => c.(cacheHits := c.cacheHits + 1)
    case BytesInc(n) => c.(bytesTransferred := c.bytesTransferred + n)
  }

  /** The counters after a sequence of calls, in order. */
  function Run(c: Counters, updates: seq<Update>): (r: Counters)
    ensures r.totalRequests >= c.totalRequests && r.blockedRequests >= c.blockedRequests
    ensures r.cacheHits >= c.cacheHits
    decreases |updates|
  {
    if updates == [] then c else Run(Step(c, updates[0]), updates[1..])
  }

  /** How many of the calls are `u`. */
  function Occurrences(updates: seq<Update>, u: Update): nat {
    if updates == [] then 0
    else (if updates[0] == u then 1 else 0) + Occurrences(updates[1..], u)
  }

  /** The total of the counts passed to `add_bytes`. */
  function BytesAdded(updates: seq<Update>): int {
    if updates == [] then 0
    else (if updates[0].BytesInc? then updates[0].count else 0) + BytesAdded(updates[1..])
  }

  /** No call of `add_bytes` passes a negative count. */
  predicate NoNegativeCounts(updates: seq<Update>) {
    forall i :: 0 <= i < |updates| && updates[i].BytesInc? ==> updates[i].count >= 0
  }

  /** Every counter of `a` is at most the same counter of `b`. */
  predicate AtMost(a: Counters, b: Counters) {
    && a.totalRequests <= b.totalRequests
    && a.blockedRequests <= b.blockedRequests
    && a.cacheHits <= b.cacheHits
    && a.bytesTransferred <= b.bytesTransferred
  }

  /**
   * No update is lost: after any sequence of calls each counter has grown by
   * exactly the number of its increments, and the byte counter by the sum
   * of the counts passed to `add_bytes`.
   */
  lemma {:induction false} RunTallies(c: Counters, updates: seq<Update>)
    ensures Run(c, updates) == Counters(
      c.totalRequests + Occurrences(updates, TotalInc),
      c.blockedRequests + Occurrences(updates, BlockedInc),
      c.cacheHits + Occurrences(updates, CacheInc),
      c.bytesTransferred + BytesAdded(updates))
    decreases |updates|
  {
    if updates != [] {
      RunTallies(Step(c, updates[0]), updates[1..]);
    }
  }

  lemma {:induction false} BytesAddedNonNegative(updates: seq<Update>)
    requires NoNegativeCounts(updates)
    ensures BytesAdded(updates) >= 0
    decreases |updates|
  {
    if updates != [] {
      assert NoNegativeCounts(updates[1..]) by {
        forall i | 0 <= i < |updates| - 1 && updates[1..][i].BytesInc?
          ensures updates[1..][i].count >= 0
        {
          assert updates[1..][i] == updates[i + 1];
        }
      }
      BytesAddedNonNegative(updates[1..]);
    }
  }

  /** With no negative byte counts, no counter ever decreases over any sequence of calls. */
  lemma Monotone(c: Counters, updates: seq<Update>)
    requires NoNegativeCounts(updates)
    ensures AtMost(c, Run(c, updates))
  {
    RunTallies(c, updates);
    BytesAddedNonNegative(updates);
  }

  /** The module-global counters. */
  class UsageStats {
    var totalRequests: nat
    var blockedRequests: nat
    var cacheHits: nat
    var bytesTransferred: int

    function Snapshot(): Counters
      reads this
    {
      Counters(totalRequests, blockedRequests, cacheHits, bytesTransferred)
    }

    /** All four counters start at 0. */
    constructor ()
      ensures Snapshot() == Counters(0, 0, 0, 0)
    {
      totalRequests, blockedRequests, cacheHits, bytesTransferred := 0, 0, 0, 0;
    }

    /** `increment_total`: one more request, nothing else changes. */
    method IncrementTotal()
      modifies this
      ensures totalRequests == old(totalRequests) + 1
      ensures blockedRequests == old(blockedRequests) && cacheHits == old(cacheHits)
      ensures bytesTransferred == old(bytesTransferred)
      ensures Snapshot() == Step(old(Snapshot()), TotalInc)
    {
      totalRequests := totalRequests + 1;
    }

    /** `increment_blocked`: one more blocked request, nothing else changes. */
    method IncrementBlocked()
      modifies this
      ensures blockedRequests == old(blockedRequests) + 1
      ensures totalRequests == old(totalRequests) && cacheHits == old(cacheHits)
      ensures bytesTransferred == old(bytesTransferred)
      ensures Snapshot() == Step(old(Snapshot()), BlockedInc)
    {
      blockedRequests := blockedRequests + 1;
    }

    /** `increment_cache`: one more cache hit, nothing else changes. */
    method IncrementCache()
      modifies this
      ensures cacheHits == old(cacheHits) + 1
      ensures totalRequests == old(totalRequests) && blockedRequests == old(blockedRequests)
      ensures bytesTransferred == old(bytesTransferred)
      ensures Snapshot() == Step(old(Snapshot()), CacheInc)
    {
      cacheHits := cacheHits + 1;
    }

    /** `add_bytes(count)`: the byte counter grows by `count`, nothing else changes. */
    method AddBytes(count: int)
      modifies this
      ensures bytesTransferred == old(bytesTransferred) + count
      ensures totalRequests == old(totalRequests) && blockedRequests == old(blockedRequests)
      ensures cacheHits == old(cacheHits)
      ensures Snapshot() == Step(old(Snapshot()), BytesInc(count))
    {
      bytesTransferred := bytesTransferred + count;
    }
  }
}
