/**
  The two duties of the background `shrinkCache` loop, each taken as one
  atomic step: the shrink run that a `Put` over `high` requests, and the
  periodic sweep of expired items.
 */
module Janitor {
  import opened Entry
  import opened Recency
  import opened LruCache

  /** The shrink run: evict from the front of the list while the running
      size is above `low`. `evicted` counts the evictions. With a negative
      `low` the loop outlives the list and `Remove(Front())` is reached on
      an empty list, which panics in the source; `panicked` reports it. */
  method ShrinkToLow<V>(c: Cache<V>, vsize: V -> nat) returns (r: Cache<V>, evicted: nat, panicked: bool)
    requires Valid(c, vsize)
    ensures Valid(r, vsize)
    ensures r.low == c.low && r.high == c.high
    ensures evicted <= |c.order| && r.order == c.order[evicted..]
    ensures forall m | 0 <= m < evicted :: TotalSize(c.order[m..], vsize) > c.low
    ensures !panicked ==> r.curCacheSize <= c.low
    ensures panicked <==> c.low < 0
    ensures panicked ==> r.order == []
  {
    r := c;
    evicted := 0;
    while r.curCacheSize > r.low && |r.order| > 0
      invariant Valid(r, vsize)
      invariant r.low == c.low && r.high == c.high
      invariant evicted <= |c.order| && r.order == c.order[evicted..]
      invariant EvictedWhileAbove(c, evicted, vsize)
      decreases |r.order|
    {
      EvictedWhileAboveStep(c, evicted, vsize);
      EvictFront(r, vsize);
      assert c.order[evicted..][1..] == c.order[evicted + 1..];
      r := Remove(r, r.order[0].key, vsize);
      evicted := evicted + 1;
    }
    // still above `low` with an empty list: the source's `Front()` is nil
    // here and removing it panics; the running size is 0, so `low < 0`
    panicked := r.curCacheSize > r.low;
  }

  /** Every eviction so far happened while the running size was above
      `low`. */
  ghost predicate EvictedWhileAbove<V>(c: Cache<V>, evicted: nat, vsize: V -> nat)
  {
    evicted <= |c.order| && forall m | 0 <= m < evicted :: TotalSize(c.order[m..], vsize) > c.low
  }

  lemma EvictedWhileAboveStep<V>(c: Cache<V>, evicted: nat, vsize: V -> nat)
    requires EvictedWhileAbove(c, evicted, vsize)
    requires evicted < |c.order| && TotalSize(c.order[evicted..], vsize) > c.low
    ensures EvictedWhileAbove(c, evicted + 1, vsize)
  {
  }

  /** One pass of the shrink loop: `Remove(Front())` on a valid cache
      unlinks exactly the front element and keeps the cache valid. */
  lemma EvictFront<V>(r: Cache<V>, vsize: V -> nat)
    requires Valid(r, vsize) && |r.order| > 0
    ensures r.order[0].key in r.index
    ensures Valid(Remove(r, r.order[0].key, vsize), vsize)
    ensures Remove(r, r.order[0].key, vsize).order == r.order[1..]
  {
    RemoveValid(r, r.order[0].key, vsize);
    WithoutFront(r.order);
  }

  /** The selection the sweep applies to each snapshot key at time `now`. */
  function ExpiredMatch<V>(now: int): (string, MemoryItem<V>) -> bool
  {
    (key: string, itm: MemoryItem<V>) => Expired(itm, now)
  }

  /** The sweep as one step: exactly the items expired at `now` are gone,
      the survivors keep their values and their relative order. */
  function WithoutExpired<V>(c: Cache<V>, now: int, vsize: V -> nat): (r: Cache<V>)
    ensures forall k :: k in r.index <==> k in c.index && !Expired(c.index[k], now)
    ensures forall k | k in r.index :: r.index[k] == c.index[k]
    ensures r.order == Without(c.order, set k | k in c.index && Expired(c.index[k], now))
    ensures r.curCacheSize == c.curCacheSize - TotalSize(Only(c.order, set k | k in c.index && Expired(c.index[k], now)), vsize)
    ensures r.low == c.low && r.high == c.high
  {
    assert forall k | k in c.index :: ExpiredMatch(now)(k, c.index[k]) == Expired(c.index[k], now);
    assert DoomedKeys(c, ExpiredMatch(now)) == set k | k in c.index && Expired(c.index[k], now);
    WithoutMatching(c, ExpiredMatch(now), vsize)
  }

  /** The timer branch of `shrinkCache`: snapshot the keys, then unlink
      every key still present whose item is expired at `now`. */
  method ExpirySweep<V>(c: Cache<V>, now: int, snapshot: seq<string>, vsize: V -> nat) returns (r: Cache<V>)
    requires Valid(c, vsize)
    requires forall k :: k in c.index <==> k in snapshot
    ensures r == WithoutExpired(c, now, vsize)
  {
    r := RemoveMatchingBySnapshot(c, snapshot, ExpiredMatch(now), vsize);
  }

  /** After the sweep no expired item is left, and reads at `now` see
      exactly what they saw before it. */
  lemma SweepKeepsReads<V>(c: Cache<V>, now: int, key: string, vsize: V -> nat)
    requires Valid(c, vsize)
    ensures Valid(WithoutExpired(c, now, vsize), vsize)
    ensures forall k | k in WithoutExpired(c, now, vsize).index :: !Expired(WithoutExpired(c, now, vsize).index[k], now)
    ensures IsExist(WithoutExpired(c, now, vsize), key, now) == IsExist(c, key, now)
  {
    WithoutMatchingValid(c, ExpiredMatch(now), vsize);
  }
}
