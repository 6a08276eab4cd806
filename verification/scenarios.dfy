/**
  Concrete runs of the model on small caches of `int` values, with `0`
  as the `nil` value and values of zero deep size.
 */
module Scenarios {
  import opened Entry
  import opened Recency
  import opened LruCache
  import Janitor

  const NoSize: int -> nat := (x: int) => 0

  function Empty(): Cache<int>
  {
    Cache([], map[], 0, DefaultLowSize, DefaultHighSize)
  }

  /** The default thresholds are accepted by the configuration check. */
  lemma DefaultsAccepted()
    ensures NewLruCache<int>(DefaultLowSize, DefaultHighSize) == Some(Empty())
  {
  }

  /** `GetMulti` as written hands out `nil` for a live key whose `Get` is
      its value, and the value of an expired key whose `Get` is `nil`. */
  lemma GetMultiServesTheWrongItems()
    ensures var c := Put(Empty(), "a", 7, 10, 0, NoSize).0;
            && Get(c, "a", 5, 0).0 == 7 && GetMulti(c, ["a"], 5, 0).0 == [0]
            && Get(c, "a", 20, 0).0 == 0 && GetMulti(c, ["a"], 20, 0).0 == [7]
            && GetMultiLive(c, ["a"], 5, 0).0 == [7] && GetMultiLive(c, ["a"], 20, 0).0 == [0]
  {
  }

  /** A TTL of 0 still reads in the second it was written, since expiry
      needs strictly more elapsed time than the TTL; it is gone a second
      later. */
  lemma ZeroTtlLivesForItsSecond()
    ensures var c := Put(Empty(), "k", 1, 0, 100, NoSize).0;
            && Get(c, "k", 100, 0).0 == 1
            && Get(c, "k", 101, 0).0 == 0
  {
  }

  /** A negative TTL stores the default, a year as a count of
      nanoseconds; as it is compared with elapsed Unix seconds, the item
      is still there a year and a second after it was written. */
  lemma NegativeTtlOutlivesAYear()
    ensures var c := Put(Empty(), "k", 1, -1, 0, NoSize).0;
            && c.index["k"].expired == DefaultExpire
            && IsExist(c, "k", 365 * 24 * 3600 + 1)
  {
  }

  /** An item with a TTL of 1 is given 3 more seconds at time 1; at time 3
      it still exists (it would have expired at 2), at time 5 it does not. */
  lemma DelayDeleteExtends()
    ensures var c := Put(Empty(), "k", 1, 1, 0, NoSize).0;
            var d := DelayDelete(c, "k", 3, 1);
            && d.1 == Ok
            && !IsExist(c, "k", 3)
            && IsExist(d.0, "k", 3)
            && !IsExist(d.0, "k", 5)
  {
  }

  const ItemA := MemoryItem("A", 1, 0, DefaultExpire)
  const ItemB := MemoryItem("B", 2, 0, DefaultExpire)
  const ItemC := MemoryItem("C", 3, 0, DefaultExpire)

  const ListA := [ItemA]
  const ListAB := [ItemA, ItemB]
  const ListABC := [ItemA, ItemB, ItemC]

  /** Writes of new keys append in order, each item costing
      `(1 + 16) * 2 + 0 + 16 + 32 = 82` bytes. */
  lemma WriteA()
    ensures Put(Empty(), "A", 1, -1, 0, NoSize).0 == Cache(ListA, map["A" := ItemA], 82, DefaultLowSize, DefaultHighSize)
  {
    assert Size(ItemA, NoSize) == 82;
  }

  lemma WriteB()
    ensures Put(Cache(ListA, map["A" := ItemA], 82, DefaultLowSize, DefaultHighSize), "B", 2, -1, 0, NoSize).0
         == Cache(ListAB, map["A" := ItemA, "B" := ItemB], 2 * 82, DefaultLowSize, DefaultHighSize)
  {
    assert Size(ItemB, NoSize) == 82;
  }

  lemma WriteC()
    ensures Put(Cache(ListAB, map["A" := ItemA, "B" := ItemB], 2 * 82, DefaultLowSize, DefaultHighSize), "C", 3, -1, 0, NoSize).0
         == Cache(ListABC, map["A" := ItemA, "B" := ItemB, "C" := ItemC], 3 * 82, DefaultLowSize, DefaultHighSize)
  {
    assert Size(ItemC, NoSize) == 82;
  }

  /** Three items written in turn with the default TTL. */
  function ThreeWrites(): Cache<int>
  {
    Put(Put(Put(Empty(), "A", 1, -1, 0, NoSize).0, "B", 2, -1, 0, NoSize).0, "C", 3, -1, 0, NoSize).0
  }

  lemma ThreeWritesValid()
    ensures ThreeWrites() == Cache(ListABC, map["A" := ItemA, "B" := ItemB, "C" := ItemC], 3 * 82, DefaultLowSize, DefaultHighSize)
    ensures Valid(ThreeWrites(), NoSize)
  {
    WriteA();
    WriteB();
    WriteC();
    var c1 := Put(Empty(), "A", 1, -1, 0, NoSize).0;
    var c2 := Put(c1, "B", 2, -1, 0, NoSize).0;
    PutValid(Empty(), "A", 1, -1, 0, NoSize);
    PutValid(c1, "B", 2, -1, 0, NoSize);
    PutValid(c2, "C", 3, -1, 0, NoSize);
  }

  /** Then the first item is read: it becomes the most recent, so the
      eviction order is B, C, A. */
  function ReadAfterWrites(): Cache<int>
  {
    Get(ThreeWrites(), "A", 0, 0).1
  }

  /** Unlinking the front key of A, B, C leaves B, C. */
  lemma UnlinkFront()
    ensures Without(ListABC, {"A"}) == [ItemB, ItemC]
  {
    assert ListABC[1..] == [ItemB, ItemC];
    assert ListABC[1..][1..] == [ItemC];
    WithoutSingle(ItemC, {"A"});
    assert Without([ItemB, ItemC], {"A"}) == [ItemB, ItemC];
  }

  lemma ReadMovesToBack()
    ensures ReadAfterWrites().order == [ItemB, ItemC, ItemA]
    ensures ReadAfterWrites().curCacheSize == 3 * 82
  {
    ThreeWritesValid();
    var c := ThreeWrites();
    assert IsExist(c, "A", 0);
    assert ReadAfterWrites() == Touch(c, "A");
    UnlinkFront();
  }

  lemma ReadKeepsValid()
    ensures Valid(ReadAfterWrites(), NoSize)
  {
    ThreeWritesValid();
    GetValid(ThreeWrites(), "A", 0, 0, NoSize);
  }

  const ListBCA := [ItemB, ItemC, ItemA]

  /** The sizes of the suffixes of that list: 82 bytes per item. */
  lemma SuffixSizes()
    ensures TotalSize(ListBCA[1..], NoSize) == 2 * 82
    ensures TotalSize(ListBCA, NoSize) == 3 * 82
  {
    assert ListBCA[1..] == [ItemC, ItemA];
    assert ListBCA[1..][1..] == [ItemA];
    assert [ItemA][1..] == [];
    assert TotalSize([ItemA], NoSize) == 82;
    assert TotalSize([ItemC, ItemA], NoSize) == 2 * 82;
  }

  /** Shrinking that cache to room for two items evicts exactly the least
      recently used one. */
  method ShrinkEvictsLeastRecent() returns (r: Cache<int>, evicted: nat)
    ensures evicted == 1
    ensures r.order == [ItemC, ItemA]
  {
    ReadMovesToBack();
    ReadKeepsValid();
    var c := ReadAfterWrites().(low := 2 * 82);
    assert Valid(c, NoSize);
    var panicked;
    r, evicted, panicked := Janitor.ShrinkToLow(c, NoSize);
    SuffixSizes();
    assert c.order == ListBCA;
    assert ListBCA[1..] == [ItemC, ItemA];
  }

  /** Clearing the prefix "a" from a cache holding "a1", "a2" and "b1"
      drops the first two and keeps "b1" with its value. */
  lemma ClearPrefixExample()
    ensures var a1 := MemoryItem("a1", 1, 0, DefaultExpire);
            var a2 := MemoryItem("a2", 2, 0, DefaultExpire);
            var b1 := MemoryItem("b1", 3, 0, DefaultExpire);
            var c := Cache([a1, a2, b1], map["a1" := a1, "a2" := a2, "b1" := b1], 3 * 84, DefaultLowSize, DefaultHighSize);
            var r := WithoutPrefix(c, "a", NoSize);
            && r.index.Keys == {"b1"}
            && r.index["b1"] == b1
  {
    assert "a1"[..1] == "a" && "a2"[..1] == "a" && "b1"[0] == 'b';
  }
}
