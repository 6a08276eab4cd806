/**
  The cache engine of lrucache.go as a sequential state machine. Every
  public operation is one atomic step (the mutex is erased) and takes the
  current Unix time `now` as an argument; operations that account for
  size take the value-size function `vsize`; reads take the value Go
  returns for "no value" as `nil`.
 */
module LruCache {
  import opened Entry
  import opened Recency

  datatype Option<T> = None | Some(value: T)

  /** The error result of `Delete` and `DelayDelete`. */
  datatype Status = Ok | KeyNotExist

  const DefaultLowSize: int := 800 * 1048576
  const DefaultHighSize: int := 1073741824

  /** `LruCache` without its mutex, channels and name: the recency list,
      the key index, the running size and the two thresholds. */
  datatype Cache<V> = Cache(
    order: seq<MemoryItem<V>>,
    index: map<string, MemoryItem<V>>,
    curCacheSize: int,
    low: int,
    high: int)

  /** The representation invariant: the index and the list hold the same
      keys, each linked once, the index points at the list's element, and
      `curCacheSize` is the sum of `Size()` over the list. */
  ghost predicate Valid<V>(c: Cache<V>, vsize: V -> nat)
  {
    && DistinctKeys(c.order)
    && c.index.Keys == KeySet(c.order)
    && (forall i | 0 <= i < |c.order| :: c.order[i].key in c.index && c.index[c.order[i].key] == c.order[i])
    && c.curCacheSize == TotalSize(c.order, vsize)
  }

  /** `NewLruCache` after configuration: the only check is `high < low`,
      which panics (modelled as `None`). */
  function NewLruCache<V>(low: int, high: int): (r: Option<Cache<V>>)
    ensures r.Some? <==> low <= high
    ensures r.Some? ==> r.value.low == low && r.value.high == high
    ensures r.Some? ==> r.value.order == [] && r.value.index == map[] && r.value.curCacheSize == 0
  {
    if high < low then None else Some(Cache([], map[], 0, low, high))
  }

  // ---------------------------------------------------------------------
  // List primitives shared by the operations
  // ---------------------------------------------------------------------

  /** `MoveToBack` of the element holding `key`. */
  function Touch<V>(c: Cache<V>, key: string): (r: Cache<V>)
    requires key in c.index
    ensures |r.order| > 0 && r.order[|r.order| - 1] == c.index[key]
    ensures c.index[key].key == key ==> Without(r.order, {key}) == Without(c.order, {key})
    ensures r.index == c.index && r.curCacheSize == c.curCacheSize
    ensures r.low == c.low && r.high == c.high
  {
    var rest := Without(c.order, {key});
    WithoutAppend(rest, [c.index[key]], {key});
    WithoutIdempotent(c.order, {key});
    WithoutSingle(c.index[key], {key});
    assert rest + [] == rest;
    c.(order := rest + [c.index[key]])
  }

  /** Unlink `key` from list and index and subtract its size: the key is
      gone from both, every other key keeps its item, the list keeps the
      other elements in their order, and the size drops by exactly the
      unlinked item's `Size()`. */
  function Remove<V>(c: Cache<V>, key: string, vsize: V -> nat): (r: Cache<V>)
    requires key in c.index
    ensures key !in r.index && r.index.Keys == c.index.Keys - {key}
    ensures forall k | k in r.index :: r.index[k] == c.index[k]
    ensures KeySet(r.order) == KeySet(c.order) - {key} && |r.order| <= |c.order|
    ensures Without(r.order, {key}) == Without(c.order, {key})
    ensures r.curCacheSize + Size(c.index[key], vsize) == c.curCacheSize
    ensures r.low == c.low && r.high == c.high
  {
    WithoutIdempotent(c.order, {key});
    Cache(Without(c.order, {key}), c.index - {key}, c.curCacheSize - Size(c.index[key], vsize), c.low, c.high)
  }

  // ---------------------------------------------------------------------
  // Reads
  // ---------------------------------------------------------------------

  /** `IsExist`: present and not expired. It returns no state. */
  function IsExist<V>(c: Cache<V>, key: string, now: int): (b: bool)
  {
    key in c.index && !Expired(c.index[key], now)
  }

  /** `Get`: the value of a live key, which moves to the back; otherwise
      `nil` and no change at all (an expired item is not unlinked and not
      moved). `lastAccess` is not refreshed by a read. */
  function Get<V>(c: Cache<V>, key: string, now: int, nil: V): (r: (V, Cache<V>))
    ensures r.1.index == c.index && r.1.curCacheSize == c.curCacheSize
    ensures r.1.low == c.low && r.1.high == c.high
    ensures !IsExist(c, key, now) ==> r == (nil, c)
    ensures IsExist(c, key, now) ==>
      && r.0 == c.index[key].val
      && |r.1.order| > 0 && r.1.order[|r.1.order| - 1] == c.index[key]
      && (c.index[key].key == key ==> Without(r.1.order, {key}) == Without(c.order, {key}))
  {
    if key in c.index then
      var itm := c.index[key];
      if Expired(itm, now) then (nil, c)
      else (itm.val, Touch(c, key))
    else (nil, c)
  }

  /** `GetEx`: `Get` with an explicit found flag, so that a stored `nil`
      is told apart from a missing or expired key. */
  function GetEx<V>(c: Cache<V>, key: string, now: int, nil: V): (r: (V, bool, Cache<V>))
    ensures r.1 <==> IsExist(c, key, now)
    ensures r.1 ==> r.0 == c.index[key].val
    ensures !r.1 ==> r.0 == nil && r.2 == c
    ensures (r.0, r.2) == Get(c, key, now, nil)
  {
    if key in c.index then
      var itm := c.index[key];
      if Expired(itm, now) then (nil, false, c)
      else (itm.val, true, Touch(c, key))
    else (nil, false, c)
  }

  /** `GetMulti` as written: its expiry test is the opposite of `Get`'s,
      so an EXPIRED item yields its value (and moves to the back) while a
      live one yields `nil`. Keys are served in input order. */
  function GetMulti<V>(c: Cache<V>, keys: seq<string>, now: int, nil: V): (r: (seq<V>, Cache<V>))
    ensures |r.0| == |keys|
    ensures r.1.index == c.index && r.1.curCacheSize == c.curCacheSize
    ensures r.1.low == c.low && r.1.high == c.high
    ensures forall i | 0 <= i < |keys| ::
      r.0[i] == (if keys[i] in c.index && Expired(c.index[keys[i]], now) then c.index[keys[i]].val else nil)
    decreases |keys|
  {
    if |keys| == 0 then ([], c)
    else
      var key := keys[0];
      var step: (V, Cache<V>) :=
        if key in c.index && Expired(c.index[key], now) then (c.index[key].val, Touch(c, key)) else (nil, c);
      var tail := GetMulti(step.1, keys[1..], now, nil);
      ([step.0] + tail.0, tail.1)
  }

  /** `GetMulti` with the expiry test the function's own comment promises
      ("the valid data"): every key is served exactly as `Get` serves it. */
  function GetMultiLive<V>(c: Cache<V>, keys: seq<string>, now: int, nil: V): (r: (seq<V>, Cache<V>))
    ensures |r.0| == |keys|
    ensures r.1.index == c.index && r.1.curCacheSize == c.curCacheSize
    ensures r.1.low == c.low && r.1.high == c.high
    ensures forall i | 0 <= i < |keys| :: r.0[i] == Get(c, keys[i], now, nil).0
    decreases |keys|
  {
    if |keys| == 0 then ([], c)
    else
      var step := Get(c, keys[0], now, nil);
      var tail := GetMultiLive(step.1, keys[1..], now, nil);
      ([step.0] + tail.0, tail.1)
  }

  // ---------------------------------------------------------------------
  // Writes
  // ---------------------------------------------------------------------

  /** `Put`: store `val` under `key` at the back of the list with
      `lastAccess = now`; the second result is the shrink request raised
      when the running size reaches `high`. */
  function Put<V>(c: Cache<V>, key: string, val: V, ttl: int, now: int, vsize: V -> nat): (r: (Cache<V>, bool))
    ensures var itm := MemoryItem(key, val, now, StoredTtl(ttl));
      && r.0.index == c.index[key := itm]
      && |r.0.order| > 0 && r.0.order[|r.0.order| - 1] == itm
      && (key in c.index ==> Without(r.0.order, {key}) == Without(c.order, {key}))
      && (key !in c.index ==> r.0.order[..|r.0.order| - 1] == c.order)
      && r.0.curCacheSize == c.curCacheSize - (if key in c.index then Size(c.index[key], vsize) else 0) + Size(itm, vsize)
    ensures r.1 <==> r.0.curCacheSize >= c.high
    ensures r.0.low == c.low && r.0.high == c.high
  {
    var itm := MemoryItem(key, val, now, StoredTtl(ttl));
    if key in c.index then
      // MoveToBack, then the element's item is updated in place
      var rest := Without(c.order, {key});
      WithoutAppend(rest, [itm], {key});
      WithoutIdempotent(c.order, {key});
      WithoutSingle(itm, {key});
      var r := Cache(rest + [itm], c.index[key := itm],
                     c.curCacheSize - Size(c.index[key], vsize) + Size(itm, vsize), c.low, c.high);
      (r, r.curCacheSize >= r.high)
    else
      // PushBack of a new element
      var r := Cache(c.order + [itm], c.index[key := itm], c.curCacheSize + Size(itm, vsize), c.low, c.high);
      assert r.order[..|r.order| - 1] == c.order;
      (r, r.curCacheSize >= r.high)
  }

  /** `Delete`: unlink a present key and subtract exactly its size;
      "key not exist" and no change for an absent one. */
  function Delete<V>(c: Cache<V>, key: string, vsize: V -> nat): (r: (Cache<V>, Status))
    ensures key !in c.index ==> r == (c, KeyNotExist)
    ensures key in c.index ==>
      && r.1 == Ok
      && r.0.index.Keys == c.index.Keys - {key}
      && (forall k | k in r.0.index :: r.0.index[k] == c.index[k])
      && r.0.order == Without(c.order, {key})
      && r.0.curCacheSize == c.curCacheSize - Size(c.index[key], vsize)
      && r.0.low == c.low && r.0.high == c.high
  {
    if key in c.index then (Remove(c, key, vsize), Ok) else (c, KeyNotExist)
  }

  /** `DelayDelete`: a live item gets the TTL `delay` counted from `now`
      (it stays where it is in the list); an expired one is left alone
      without error; an absent key is "key not exist". Unlike `Put`, a
      negative `delay` is stored as is. */
  function DelayDelete<V>(c: Cache<V>, key: string, delay: int, now: int): (r: (Cache<V>, Status))
    ensures key !in c.index ==> r == (c, KeyNotExist)
    ensures key in c.index && Expired(c.index[key], now) ==> r == (c, Ok)
    ensures IsExist(c, key, now) ==>
      && r.1 == Ok
      && r.0.index == c.index[key := c.index[key].(lastAccess := now, expired := delay)]
      && |r.0.order| == |c.order|
      && (forall i | 0 <= i < |c.order| :: r.0.order[i].key == c.order[i].key && r.0.order[i].val == c.order[i].val)
      && r.0.curCacheSize == c.curCacheSize
      && r.0.low == c.low && r.0.high == c.high
      && (forall t :: IsExist(r.0, key, t) <==> t - now <= delay)
  {
    if key in c.index then
      var itm := c.index[key];
      if !Expired(itm, now) then
        var itm' := itm.(lastAccess := now, expired := delay);
        (Cache(Retime(c.order, key, now, delay), c.index[key := itm'], c.curCacheSize, c.low, c.high), Ok)
      else (c, Ok)
    else (c, KeyNotExist)
  }

  /** `ClearAll`: empty list, empty index, size 0. */
  function ClearAll<V>(c: Cache<V>): (r: Cache<V>)
    ensures forall k, t :: !IsExist(r, k, t)
    ensures r.curCacheSize == 0 && |r.order| == 0
    ensures r.low == c.low && r.high == c.high
  {
    Cache([], map[], 0, c.low, c.high)
  }

  // ---------------------------------------------------------------------
  // Bulk removal (ClearPrefixKeys and the janitor's sweep)
  // ---------------------------------------------------------------------

  /** The keys whose items `doomed` selects. */
  function DoomedKeys<V>(c: Cache<V>, doomed: (string, MemoryItem<V>) -> bool): set<string>
  {
    set k | k in c.index && doomed(k, c.index[k])
  }

  /** Unlink every key of `ks`, subtracting the sizes of the unlinked
      items from the running total. */
  function Unlinked<V>(c: Cache<V>, ks: set<string>, vsize: V -> nat): (r: Cache<V>)
  {
    Cache(Without(c.order, ks), c.index - ks, c.curCacheSize - TotalSize(Only(c.order, ks), vsize), c.low, c.high)
  }

  /** Reference for a bulk removal done as one step: every selected item
      goes, every other one stays with its value and in its relative order,
      and the size drops by the sizes of the removed items. */
  function WithoutMatching<V>(c: Cache<V>, doomed: (string, MemoryItem<V>) -> bool, vsize: V -> nat): (r: Cache<V>)
    ensures forall k :: k in r.index <==> k in c.index && !doomed(k, c.index[k])
    ensures forall k | k in r.index :: r.index[k] == c.index[k]
    ensures r.order == Without(c.order, DoomedKeys(c, doomed))
    ensures r.curCacheSize == c.curCacheSize - TotalSize(Only(c.order, DoomedKeys(c, doomed)), vsize)
    ensures r.low == c.low && r.high == c.high
  {
    Unlinked(c, DoomedKeys(c, doomed), vsize)
  }

  /** `key`, if present and selected, is among the keys unlinked so far. */
  ghost predicate Covered<V>(c: Cache<V>, doomed: (string, MemoryItem<V>) -> bool, gone: set<string>, key: string)
  {
    key in c.index && doomed(key, c.index[key]) ==> key in gone
  }

  /** One iteration of the snapshot loop: a key the loop unlinks is a
      selected key not unlinked before, and unlinking it moves on to the
      next `Unlinked` state; a key it skips is already covered. */
  lemma SnapshotStep<V>(c: Cache<V>, doomed: (string, MemoryItem<V>) -> bool, gone: set<string>, r: Cache<V>, key: string, vsize: V -> nat)
    requires Valid(c, vsize) && r == Unlinked(c, gone, vsize)
    ensures key in r.index && doomed(key, r.index[key]) ==>
      && key in DoomedKeys(c, doomed) && key !in gone
      && Remove(r, key, vsize) == Unlinked(c, gone + {key}, vsize)
      && Covered(c, doomed, gone + {key}, key)
    ensures !(key in r.index && doomed(key, r.index[key])) ==> Covered(c, doomed, gone, key)
  {
    if key in r.index {
      UnlinkStep(c, gone, key, vsize);
    }
  }

  /** The loop the source runs: walk a snapshot of the keys (in whatever
      order the map yields them) and unlink each key that is still present
      and selected. It ends in the same state as the one-step reference. */
  method RemoveMatchingBySnapshot<V>(c: Cache<V>, snapshot: seq<string>, doomed: (string, MemoryItem<V>) -> bool, vsize: V -> nat)
    returns (r: Cache<V>)
    requires Valid(c, vsize)
    requires forall k :: k in c.index <==> k in snapshot
    ensures r == WithoutMatching(c, doomed, vsize)
  {
    ghost var gone: set<string> := {};
    UnlinkedNothing(c, vsize);
    r := c;
    var i := 0;
    while i < |snapshot|
      invariant 0 <= i <= |snapshot|
      invariant gone <= DoomedKeys(c, doomed)
      invariant forall j | 0 <= j < i :: Covered(c, doomed, gone, snapshot[j])
      invariant r == Unlinked(c, gone, vsize)
    {
      var key := snapshot[i];
      SnapshotStep(c, doomed, gone, r, key, vsize);
      ghost var before := gone;
      if key in r.index && doomed(key, r.index[key]) {
        r := Remove(r, key, vsize);
        gone := gone + {key};
      }
      forall j | 0 <= j <= i ensures Covered(c, doomed, gone, snapshot[j]) {
        assert Covered(c, doomed, before, snapshot[j]) || j == i;
      }
      i := i + 1;
    }
    AllCovered(c, doomed, gone, snapshot);
  }

  /** Once every snapshot key is covered, the unlinked keys are exactly
      the selected ones. */
  lemma AllCovered<V>(c: Cache<V>, doomed: (string, MemoryItem<V>) -> bool, gone: set<string>, snapshot: seq<string>)
    requires forall k :: k in c.index <==> k in snapshot
    requires gone <= DoomedKeys(c, doomed)
    requires forall j | 0 <= j < |snapshot| :: Covered(c, doomed, gone, snapshot[j])
    ensures gone == DoomedKeys(c, doomed)
  {
    forall k | k in DoomedKeys(c, doomed) ensures k in gone {
      var j :| 0 <= j < |snapshot| && snapshot[j] == k;
      assert Covered(c, doomed, gone, snapshot[j]);
    }
  }

  /** The selection `ClearPrefixKeys` applies to each snapshot key. */
  function PrefixMatch<V>(prefix: string): (string, MemoryItem<V>) -> bool
  {
    (key: string, itm: MemoryItem<V>) => prefix <= key
  }

  /** `ClearPrefixKeys` as one step: exactly the keys starting with
      `prefix` are gone. */
  function WithoutPrefix<V>(c: Cache<V>, prefix: string, vsize: V -> nat): (r: Cache<V>)
    ensures forall k :: k in r.index <==> k in c.index && !(prefix <= k)
    ensures forall k | k in r.index :: r.index[k] == c.index[k]
    ensures r.order == Without(c.order, set k | k in c.index && prefix <= k)
    ensures r.curCacheSize == c.curCacheSize - TotalSize(Only(c.order, set k | k in c.index && prefix <= k), vsize)
    ensures r.low == c.low && r.high == c.high
  {
    var r := WithoutMatching(c, PrefixMatch(prefix), vsize);
    assert forall k | k in c.index :: PrefixMatch(prefix)(k, c.index[k]) == (prefix <= k);
    assert DoomedKeys(c, PrefixMatch(prefix)) == set k | k in c.index && prefix <= k;
    r
  }

  /** `ClearPrefixKeys`: the snapshot-and-delete loop. */
  method ClearPrefixKeys<V>(c: Cache<V>, prefix: string, snapshot: seq<string>, vsize: V -> nat) returns (r: Cache<V>)
    requires Valid(c, vsize)
    requires forall k :: k in c.index <==> k in snapshot
    ensures r == WithoutPrefix(c, prefix, vsize)
  {
    r := RemoveMatchingBySnapshot(c, snapshot, PrefixMatch(prefix), vsize);
  }

  // ---------------------------------------------------------------------
  // The invariant is kept by every operation
  // ---------------------------------------------------------------------

  lemma KeyAt<V>(c: Cache<V>, key: string, vsize: V -> nat) returns (i: int)
    requires Valid(c, vsize) && key in c.index
    ensures 0 <= i < |c.order| && c.order[i].key == key && c.order[i] == c.index[key]
  {
    i :| 0 <= i < |c.order| && c.order[i].key == key;
  }

  /** Unlinking a present key keeps the invariant, and the list loses
      exactly the one element that held the key. */
  lemma RemoveValid<V>(c: Cache<V>, key: string, vsize: V -> nat)
    requires Valid(c, vsize) && key in c.index
    ensures Valid(Remove(c, key, vsize), vsize)
    ensures |Remove(c, key, vsize).order| == |c.order| - 1
  {
    var r := Remove(c, key, vsize);
    var i := KeyAt(c, key, vsize);
    WithoutOneLength(c.order, i);
    WithoutDistinct(c.order, {key});
    TotalSizeWithoutOne(c.order, i, vsize);
    forall j | 0 <= j < |r.order| ensures r.order[j].key in r.index && r.index[r.order[j].key] == r.order[j] {
      WithoutFrom(c.order, {key});
      assert r.order[j] in c.order;
    }
  }

  /** Relinking an item for `itm.key` at the back (what `Put` does, and
      `Get` with the same item) keeps the invariant. */
  lemma RelinkValid<V>(c: Cache<V>, itm: MemoryItem<V>, vsize: V -> nat)
    requires Valid(c, vsize)
    ensures Valid(Cache(Without(c.order, {itm.key}) + [itm], c.index[itm.key := itm],
                        TotalSize(Without(c.order, {itm.key}), vsize) + Size(itm, vsize), c.low, c.high), vsize)
  {
    var rest := Without(c.order, {itm.key});
    var order := rest + [itm];
    var index := c.index[itm.key := itm];
    WithoutDistinct(c.order, {itm.key});
    DistinctSnoc(rest, itm);
    KeySetSnoc(rest, itm);
    assert index.Keys == KeySet(order);
    TotalSizeAppend(rest, [itm], vsize);
    assert [itm][1..] == [];
    assert TotalSize([itm], vsize) == Size(itm, vsize);
    RelinkPointsAtList(c, itm, order, index, vsize);
    assert DistinctKeys(order);
    assert TotalSize(order, vsize) == TotalSize(rest, vsize) + Size(itm, vsize);

  }

  lemma RelinkPointsAtList<V>(c: Cache<V>, itm: MemoryItem<V>, order: seq<MemoryItem<V>>,
                               index: map<string, MemoryItem<V>>, vsize: V -> nat)
    requires Valid(c, vsize)
    requires order == Without(c.order, {itm.key}) + [itm] && index == c.index[itm.key := itm]
    ensures forall j | 0 <= j < |order| :: order[j].key in index && index[order[j].key] == order[j]
  {
    var rest := Without(c.order, {itm.key});
    forall j | 0 <= j < |order| ensures order[j].key in index && index[order[j].key] == order[j] {
      if j < |rest| {
        assert order[j] == rest[j];
        WithoutFrom(c.order, {itm.key});
        assert rest[j] in c.order && rest[j].key != itm.key;
        var m :| 0 <= m < |c.order| && c.order[m] == rest[j];
      }
    }
  }

  /** The size left after unlinking `key` from a valid cache. */
  lemma SizeWithout<V>(c: Cache<V>, key: string, vsize: V -> nat)
    requires Valid(c, vsize)
    ensures key in c.index ==> TotalSize(Without(c.order, {key}), vsize) == c.curCacheSize - Size(c.index[key], vsize)
    ensures key !in c.index ==> Without(c.order, {key}) == c.order
  {
    if key in c.index {
      var i := KeyAt(c, key, vsize);
      TotalSizeWithoutOne(c.order, i, vsize);
    } else {
      WithoutAbsent(c.order, {key});
    }
  }

  lemma TouchValid<V>(c: Cache<V>, key: string, vsize: V -> nat)
    requires Valid(c, vsize) && key in c.index
    ensures Valid(Touch(c, key), vsize)
  {
    var itm := c.index[key];
    RelinkValid(c, itm, vsize);
    SizeWithout(c, key, vsize);
    assert c.index[key := itm] == c.index;
  }

  lemma GetValid<V>(c: Cache<V>, key: string, now: int, nil: V, vsize: V -> nat)
    requires Valid(c, vsize)
    ensures Valid(Get(c, key, now, nil).1, vsize)
    ensures Valid(GetEx(c, key, now, nil).2, vsize)
  {
    if IsExist(c, key, now) {
      TouchValid(c, key, vsize);
    }
  }

  lemma {:induction false} GetMultiValid<V>(c: Cache<V>, keys: seq<string>, now: int, nil: V, vsize: V -> nat)
    requires Valid(c, vsize)
    ensures Valid(GetMulti(c, keys, now, nil).1, vsize)
    ensures Valid(GetMultiLive(c, keys, now, nil).1, vsize)
    decreases |keys|
  {
    if |keys| > 0 {
      var key := keys[0];
      if key in c.index {
        TouchValid(c, key, vsize);
        GetMultiValid(Touch(c, key), keys[1..], now, nil, vsize);
      }
      GetMultiValid(c, keys[1..], now, nil, vsize);
    }
  }

  lemma PutValid<V>(c: Cache<V>, key: string, val: V, ttl: int, now: int, vsize: V -> nat)
    requires Valid(c, vsize)
    ensures Valid(Put(c, key, val, ttl, now, vsize).0, vsize)
  {
    RelinkValid(c, MemoryItem(key, val, now, StoredTtl(ttl)), vsize);
    SizeWithout(c, key, vsize);
  }

  lemma DeleteValid<V>(c: Cache<V>, key: string, vsize: V -> nat)
    requires Valid(c, vsize)
    ensures Valid(Delete(c, key, vsize).0, vsize)
  {
    if key in c.index {
      RemoveValid(c, key, vsize);
    }
  }

  lemma DelayDeleteValid<V>(c: Cache<V>, key: string, delay: int, now: int, vsize: V -> nat)
    requires Valid(c, vsize)
    ensures Valid(DelayDelete(c, key, delay, now).0, vsize)
  {
    if key in c.index {
      RetimedValid(c, key, now, delay, vsize);
    }
  }

  /** Re-timing one item in both the list and the index keeps the cache
      valid. */
  lemma RetimedValid<V>(c: Cache<V>, key: string, lastAccess: int, expired: int, vsize: V -> nat)
    requires Valid(c, vsize) && key in c.index
    ensures Valid(Cache(Retime(c.order, key, lastAccess, expired),
                        c.index[key := c.index[key].(lastAccess := lastAccess, expired := expired)],
                        c.curCacheSize, c.low, c.high), vsize)
  {
    var itm := c.index[key].(lastAccess := lastAccess, expired := expired);
    var order := Retime(c.order, key, lastAccess, expired);
    var index := c.index[key := itm];
    assert index.Keys == c.index.Keys;
    RetimeKeepsShape(c.order, key, lastAccess, expired, vsize);
    RetimedPointsAtList(c, key, itm, order, index, vsize);
    ValidOfParts(Cache(order, index, c.curCacheSize, c.low, c.high), vsize);
  }

  /** `Valid` from its four parts. */
  lemma ValidOfParts<V>(c: Cache<V>, vsize: V -> nat)
    requires DistinctKeys(c.order)
    requires c.index.Keys == KeySet(c.order)
    requires forall i | 0 <= i < |c.order| :: c.order[i].key in c.index && c.index[c.order[i].key] == c.order[i]
    requires c.curCacheSize == TotalSize(c.order, vsize)
    ensures Valid(c, vsize)
  {
  }

  lemma RetimedPointsAtList<V>(c: Cache<V>, key: string, itm: MemoryItem<V>, order: seq<MemoryItem<V>>,
                               index: map<string, MemoryItem<V>>, vsize: V -> nat)
    requires Valid(c, vsize) && key in c.index
    requires itm == c.index[key].(lastAccess := itm.lastAccess, expired := itm.expired)
    requires order == Retime(c.order, key, itm.lastAccess, itm.expired) && index == c.index[key := itm]
    ensures forall j | 0 <= j < |order| :: order[j].key in index && index[order[j].key] == order[j]
  {
    forall j | 0 <= j < |order| ensures order[j].key in index && index[order[j].key] == order[j] {
      var x := c.order[j];
      assert x.key in c.index && c.index[x.key] == x;
    }
  }

  /** The cache a configuration creates satisfies the invariant, so with
      the lemmas here every reachable cache does. */
  lemma NewLruCacheValid<V>(low: int, high: int, vsize: V -> nat)
    requires low <= high
    ensures NewLruCache<V>(low, high).Some? && Valid(NewLruCache<V>(low, high).value, vsize)
  {
  }

  lemma ClearAllValid<V>(c: Cache<V>, vsize: V -> nat)
    ensures Valid(ClearAll(c), vsize)
  {
  }

  lemma UnlinkedNothing<V>(c: Cache<V>, vsize: V -> nat)
    requires Valid(c, vsize)
    ensures Unlinked(c, {}, vsize) == c
  {
    WithoutAbsent(c.order, {});
    TotalSizePartition(c.order, {}, vsize);
    assert c.index - {} == c.index;
  }

  /** Removing the items of `ks` keeps the invariant, and the running
      total then equals the size of what is left. */
  lemma UnlinkedValid<V>(c: Cache<V>, ks: set<string>, vsize: V -> nat)
    requires Valid(c, vsize)
    ensures Valid(Unlinked(c, ks, vsize), vsize)
  {
    var r := Unlinked(c, ks, vsize);
    WithoutDistinct(c.order, ks);
    TotalSizePartition(c.order, ks, vsize);
    forall j | 0 <= j < |r.order| ensures r.order[j].key in r.index && r.index[r.order[j].key] == r.order[j] {
      WithoutFrom(c.order, ks);
      assert r.order[j] in c.order;
    }
  }

  /** One iteration of the snapshot loop: unlinking one more present key. */
  lemma UnlinkStep<V>(c: Cache<V>, ks: set<string>, key: string, vsize: V -> nat)
    requires Valid(c, vsize) && key in c.index && key !in ks
    ensures key in Unlinked(c, ks, vsize).index
    ensures Unlinked(c, ks, vsize).index[key] == c.index[key]
    ensures Remove(Unlinked(c, ks, vsize), key, vsize) == Unlinked(c, ks + {key}, vsize)
  {
    var u := Unlinked(c, ks, vsize);
    UnlinkedValid(c, ks, vsize);
    SizeWithout(u, key, vsize);
    WithoutWithout(c.order, ks, {key});
    TotalSizePartition(c.order, ks + {key}, vsize);
    assert u.index - {key} == c.index - (ks + {key});
  }

  lemma WithoutPrefixValid<V>(c: Cache<V>, prefix: string, vsize: V -> nat)
    requires Valid(c, vsize)
    ensures Valid(WithoutPrefix(c, prefix, vsize), vsize)
  {
    WithoutMatchingValid(c, PrefixMatch(prefix), vsize);
  }

  lemma WithoutMatchingValid<V>(c: Cache<V>, doomed: (string, MemoryItem<V>) -> bool, vsize: V -> nat)
    requires Valid(c, vsize)
    ensures Valid(WithoutMatching(c, doomed, vsize), vsize)
  {
    UnlinkedValid(c, DoomedKeys(c, doomed), vsize);
  }
}
