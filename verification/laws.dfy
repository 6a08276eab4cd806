/**
  Laws relating the cache operations to one another: what a read sees
  after a write, which writes undo or supersede each other, and how the
  bulk removals compare with `ClearAll`.
 */
module Laws {
  import opened Entry
  import opened Recency
  import opened LruCache

  /** A `Put` is read back by `Get` for exactly as long as its TTL allows:
      at any time `t` no more than the stored TTL after `now`, the value;
      afterwards, `nil`. A negative `ttl` means the one-year default. */
  lemma PutThenGet<V>(c: Cache<V>, key: string, val: V, ttl: int, now: int, t: int, nil: V, vsize: V -> nat)
    ensures IsExist(Put(c, key, val, ttl, now, vsize).0, key, t) <==> t - now <= StoredTtl(ttl)
    ensures Get(Put(c, key, val, ttl, now, vsize).0, key, t, nil).0 == if t - now <= StoredTtl(ttl) then val else nil
  {
  }

  /** A `Put` changes what no other key reads. */
  lemma PutLeavesOthers<V>(c: Cache<V>, key: string, val: V, ttl: int, now: int, other: string, t: int, nil: V, vsize: V -> nat)
    requires other != key
    ensures IsExist(Put(c, key, val, ttl, now, vsize).0, other, t) == IsExist(c, other, t)
    ensures Get(Put(c, key, val, ttl, now, vsize).0, other, t, nil).0 == Get(c, other, t, nil).0
  {
  }

  /** After a `Delete` the key reads as absent at every time, and no other
      key reads differently. */
  lemma DeleteThenGet<V>(c: Cache<V>, key: string, other: string, t: int, nil: V, vsize: V -> nat)
    ensures !IsExist(Delete(c, key, vsize).0, key, t)
    ensures Get(Delete(c, key, vsize).0, key, t, nil).0 == nil
    ensures other != key ==> IsExist(Delete(c, key, vsize).0, other, t) == IsExist(c, other, t)
    ensures other != key ==> Get(Delete(c, key, vsize).0, other, t, nil).0 == Get(c, other, t, nil).0
  {
  }

  /** Deleting a key that a `Put` just added restores the cache exactly:
      list, index and running size. */
  lemma DeleteUndoesPut<V>(c: Cache<V>, key: string, val: V, ttl: int, now: int, vsize: V -> nat)
    requires Valid(c, vsize) && key !in c.index
    ensures Delete(Put(c, key, val, ttl, now, vsize).0, key, vsize) == (c, Ok)
  {
    var itm := MemoryItem(key, val, now, StoredTtl(ttl));
    var p := Cache(c.order + [itm], c.index[key := itm], c.curCacheSize + Size(itm, vsize), c.low, c.high);
    assert Put(c, key, val, ttl, now, vsize).0 == p;
    WithoutAppend(c.order, [itm], {key});
    WithoutAbsent(c.order, {key});
    WithoutSingle(itm, {key});
    assert c.order + [] == c.order;
    assert p.index - {key} == c.index;
    assert Remove(p, key, vsize) == c;
  }

  /** Of two `Put`s to one key the second wins outright: the cache is the
      one the second alone would have produced. */
  lemma PutPutLastWins<V>(c: Cache<V>, key: string, v1: V, ttl1: int, now1: int, v2: V, ttl2: int, now2: int, vsize: V -> nat)
    requires Valid(c, vsize)
    ensures Put(Put(c, key, v1, ttl1, now1, vsize).0, key, v2, ttl2, now2, vsize).0 == Put(c, key, v2, ttl2, now2, vsize).0
  {
    var i1 := MemoryItem(key, v1, now1, StoredTtl(ttl1));
    var i2 := MemoryItem(key, v2, now2, StoredTtl(ttl2));
    var p1 := Put(c, key, v1, ttl1, now1, vsize).0;
    var rest := Without(c.order, {key});
    if key in c.index {
      assert p1.order == rest + [i1];
    } else {
      assert p1.order == c.order + [i1];
      WithoutAbsent(c.order, {key});
    }
    WithoutAppend(rest, [i1], {key});
    WithoutIdempotent(c.order, {key});
    WithoutSingle(i1, {key});
    WithoutAppend(c.order, [i1], {key});
    assert rest + [] == rest;
    assert p1.index[key := i2] == c.index[key := i2];
  }

  /** Reading a key twice at one time is reading it once: the second read
      finds the item already at the back. */
  lemma GetTwice<V>(c: Cache<V>, key: string, now: int, nil: V, vsize: V -> nat)
    requires Valid(c, vsize)
    ensures Get(Get(c, key, now, nil).1, key, now, nil) == Get(c, key, now, nil)
  {
    if IsExist(c, key, now) {
      var i := KeyAt(c, key, vsize);
      var itm := c.index[key];
      var rest := Without(c.order, {key});
      WithoutAppend(rest, [itm], {key});
      WithoutIdempotent(c.order, {key});
      WithoutSingle(itm, {key});
      assert rest + [] == rest;
    }
  }

  /** Reading keeps every other item's position relative to the rest. */
  lemma GetKeepsOthersInOrder<V>(c: Cache<V>, key: string, now: int, nil: V, vsize: V -> nat)
    requires Valid(c, vsize)
    ensures Without(Get(c, key, now, nil).1.order, {key}) == Without(c.order, {key})
  {
    if IsExist(c, key, now) {
      var i := KeyAt(c, key, vsize);
    }
  }

  /** `DelayDelete` re-times only its own key. */
  lemma DelayDeleteLeavesOthers<V>(c: Cache<V>, key: string, delay: int, now: int, other: string, t: int, nil: V)
    requires other != key
    ensures IsExist(DelayDelete(c, key, delay, now).0, other, t) == IsExist(c, other, t)
    ensures Get(DelayDelete(c, key, delay, now).0, other, t, nil).0 == Get(c, other, t, nil).0
  {
  }

  /** After `ClearPrefixKeys` a key reads as before exactly when it does
      not start with the prefix, and as absent otherwise. */
  lemma ClearPrefixThenGet<V>(c: Cache<V>, prefix: string, key: string, t: int, nil: V, vsize: V -> nat)
    ensures IsExist(WithoutPrefix(c, prefix, vsize), key, t) <==> IsExist(c, key, t) && !(prefix <= key)
    ensures Get(WithoutPrefix(c, prefix, vsize), key, t, nil).0 == if prefix <= key then nil else Get(c, key, t, nil).0
  {
  }

  /** Every key starts with the empty prefix, so clearing it is `ClearAll`:
      the same empty list and index, and a running size of 0. */
  lemma ClearEmptyPrefixIsClearAll<V>(c: Cache<V>, vsize: V -> nat)
    requires Valid(c, vsize)
    ensures WithoutPrefix(c, "", vsize) == ClearAll(c)
  {
    var all := set k | k in c.index && "" <= k;
    assert all == KeySet(c.order);
    var r := WithoutPrefix(c, "", vsize);
    assert r.index == map[];
    EmptyIffNoKeys(r.order);
    TotalSizePartition(c.order, all, vsize);
    assert DoomedKeys(c, PrefixMatch("")) == all;
  }
}
