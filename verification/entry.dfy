/**
  The record the cache keeps per key (`MemoryItem` in util.go) and its
  size heuristic.

  The stored value is of an arbitrary type `V`; its deep size (what
  `Sizeof(val)` measures by reflection) is abstracted as a function
  `vsize: V -> nat` that every size-dependent operation receives.
 */
module Entry {

  /** `defaultExpire` is one year expressed as a `time.Duration`, i.e. in
      nanoseconds; the cache compares `int64(expired)` with a difference of
      Unix seconds, so this is the integer that takes part in that test. */
  const DefaultExpire: int := 24 * 3600 * 365 * 1_000_000_000

  /** One cache entry. `expired` is the TTL as the integer `int64(expired)`;
      `lastAccess` is a Unix time in seconds. */
  datatype MemoryItem<V> = MemoryItem(key: string, val: V, lastAccess: int, expired: int)

  /** `MemoryItem.Size`: the map-index copy of the key, the value, the
      expiry bookkeeping and the list pointers. */
  function Size<V>(it: MemoryItem<V>, vsize: V -> nat): (n: nat)
    ensures n >= 80 + 2 * |it.key|
    ensures n == 80 + 2 * |it.key| <==> vsize(it.val) == 0
  {
    (|it.key| + 16) * 2 + vsize(it.val) + 16 + 32
  }

  /** The liveness test shared by every read path: strictly more time has
      passed since the last access than the TTL allows. */
  predicate Expired<V>(it: MemoryItem<V>, now: int)
  {
    now - it.lastAccess > it.expired
  }

  /** The TTL that `Put` stores: a negative request means "the default". */
  function StoredTtl(ttl: int): (e: int)
    ensures e >= 0
    ensures ttl >= 0 ==> e == ttl
    ensures ttl < 0 ==> e == DefaultExpire
  {
    if ttl < 0 then DefaultExpire else ttl
  }

  /** The size of an item depends on its key and value only, so
      re-timing an item (as `DelayDelete` and `Put` do) keeps it. */
  lemma SizeIgnoresTimes<V>(it: MemoryItem<V>, lastAccess: int, expired: int, vsize: V -> nat)
    ensures Size(it.(lastAccess := lastAccess, expired := expired), vsize) == Size(it, vsize)
  {
  }
}
