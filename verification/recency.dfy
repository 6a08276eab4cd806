/**
  The recency list (`valueList`, a `container/list.List` of items) as a
  sequence: index 0 is the front (least recently used, the next eviction
  victim) and the last index is the back (most recently used).
 */
module Recency {
  import opened Entry

  /** The keys held by a list. */
  function KeySet<V>(s: seq<MemoryItem<V>>): set<string>
  {
    set i | 0 <= i < |s| :: s[i].key
  }

  /** Every key is linked into the list at most once. */
  predicate DistinctKeys<V>(s: seq<MemoryItem<V>>)
  {
    forall i, j | 0 <= i < j < |s| :: s[i].key != s[j].key
  }

  /** The list after unlinking every element whose key is in `ks`; the
      elements left keep their relative order. */
  function Without<V>(s: seq<MemoryItem<V>>, ks: set<string>): (r: seq<MemoryItem<V>>)
    ensures |r| <= |s|
    ensures KeySet(r) == KeySet(s) - ks
  {
    if |s| == 0 then []
    else
      KeySetCons(s);
      var rest := Without(s[1..], ks);
      if s[0].key in ks then rest
      else KeySetCons([s[0]] + rest); assert ([s[0]] + rest)[1..] == rest; [s[0]] + rest
  }

  /** The elements `Without(s, ks)` unlinks, in list order. */
  function Only<V>(s: seq<MemoryItem<V>>, ks: set<string>): (r: seq<MemoryItem<V>>)
  {
    if |s| == 0 then []
    else if s[0].key in ks then [s[0]] + Only(s[1..], ks)
    else Only(s[1..], ks)
  }

  /** The sum of `Size()` over a list. */
  function TotalSize<V>(s: seq<MemoryItem<V>>, vsize: V -> nat): nat
  {
    if |s| == 0 then 0 else Size(s[0], vsize) + TotalSize(s[1..], vsize)
  }

  /** The list with the times of the element keyed `key` replaced, in place. */
  function Retime<V>(s: seq<MemoryItem<V>>, key: string, lastAccess: int, expired: int): (r: seq<MemoryItem<V>>)
    ensures |r| == |s|
    ensures forall i | 0 <= i < |s| :: r[i] == (if s[i].key == key then s[i].(lastAccess := lastAccess, expired := expired) else s[i])
  {
    if |s| == 0 then []
    else
      var head := if s[0].key == key then s[0].(lastAccess := lastAccess, expired := expired) else s[0];
      [head] + Retime(s[1..], key, lastAccess, expired)
  }

  lemma WithoutSingle<V>(x: MemoryItem<V>, ks: set<string>)
    ensures Without([x], ks) == if x.key in ks then [] else [x]
  {
    assert [x][1..] == [];
  }

  /** A list is empty exactly when it holds no key. */
  lemma EmptyIffNoKeys<V>(s: seq<MemoryItem<V>>)
    ensures s == [] <==> KeySet(s) == {}
  {
    if |s| > 0 {
      assert s[0].key in KeySet(s);
    }
  }

  /** Every element `Without` keeps comes from the list and has a key
      outside `ks`. */
  lemma {:induction false} WithoutFrom<V>(s: seq<MemoryItem<V>>, ks: set<string>)
    ensures forall i | 0 <= i < |Without(s, ks)| :: Without(s, ks)[i] in s && Without(s, ks)[i].key !in ks
  {
    if |s| > 0 {
      WithoutFrom(s[1..], ks);
    }
  }

  /** Unlinking the same keys twice is unlinking them once. */
  lemma WithoutIdempotent<V>(s: seq<MemoryItem<V>>, ks: set<string>)
    ensures Without(Without(s, ks), ks) == Without(s, ks)
  {
    WithoutAbsent(Without(s, ks), ks);
  }

  lemma KeySetCons<V>(s: seq<MemoryItem<V>>)
    requires |s| > 0
    ensures KeySet(s) == {s[0].key} + KeySet(s[1..])
  {
    forall k | k in KeySet(s) ensures k in {s[0].key} + KeySet(s[1..]) {
      var i :| 0 <= i < |s| && s[i].key == k;
      if i > 0 {
        assert s[1..][i - 1].key == k;
      }
    }
    forall k | k in KeySet(s[1..]) ensures k in KeySet(s) {
      var i :| 0 <= i < |s[1..]| && s[1..][i].key == k;
      assert s[i + 1].key == k;
    }
  }

  lemma KeySetSnoc<V>(s: seq<MemoryItem<V>>, x: MemoryItem<V>)
    ensures KeySet(s + [x]) == KeySet(s) + {x.key}
  {
    var t := s + [x];
    forall k | k in KeySet(t) ensures k in KeySet(s) + {x.key} {
      var i :| 0 <= i < |t| && t[i].key == k;
      if i < |s| {
        assert s[i].key == k;
      }
    }
    forall k | k in KeySet(s) ensures k in KeySet(t) {
      var i :| 0 <= i < |s| && s[i].key == k;
      assert t[i].key == k;
    }
    assert t[|s|].key == x.key;
  }

  /** Appending an element whose key is not yet linked keeps keys distinct. */
  lemma DistinctSnoc<V>(s: seq<MemoryItem<V>>, x: MemoryItem<V>)
    requires DistinctKeys(s)
    requires x.key !in KeySet(s)
    ensures DistinctKeys(s + [x])
  {
    var t := s + [x];
    forall i, j | 0 <= i < j < |t| ensures t[i].key != t[j].key {
      if j == |s| {
        assert t[i].key == s[i].key;
        assert s[i].key in KeySet(s);
      } else {
        assert t[i] == s[i] && t[j] == s[j];
      }
    }
  }

  /** A list whose first key is not linked further on is distinct exactly
      when its tail is. */
  lemma DistinctCons<V>(s: seq<MemoryItem<V>>)
    requires |s| > 0
    ensures DistinctKeys(s) <==> s[0].key !in KeySet(s[1..]) && DistinctKeys(s[1..])
  {
    if DistinctKeys(s) {
      forall i | 0 <= i < |s[1..]| ensures s[1..][i].key != s[0].key {
        assert s[1..][i] == s[i + 1];
      }
      forall i, j | 0 <= i < j < |s[1..]| ensures s[1..][i].key != s[1..][j].key {
        assert s[1..][i] == s[i + 1] && s[1..][j] == s[j + 1];
      }
    }
    if s[0].key !in KeySet(s[1..]) && DistinctKeys(s[1..]) {
      forall i, j | 0 <= i < j < |s| ensures s[i].key != s[j].key {
        if i == 0 {
          assert s[j] == s[1..][j - 1];
          assert s[1..][j - 1].key in KeySet(s[1..]);
        } else {
          assert s[i] == s[1..][i - 1] && s[j] == s[1..][j - 1];
        }
      }
    }
  }

  /** Unlinking never introduces a duplicate. */
  lemma {:induction false} WithoutDistinct<V>(s: seq<MemoryItem<V>>, ks: set<string>)
    requires DistinctKeys(s)
    ensures DistinctKeys(Without(s, ks))
  {
    if |s| > 0 {
      DistinctCons(s);
      WithoutDistinct(s[1..], ks);
      var rest := Without(s[1..], ks);
      if s[0].key !in ks {
        var r := [s[0]] + rest;
        assert r[1..] == rest;
        DistinctCons(r);
      }
    }
  }

  /** Unlinking keys none of which is linked changes nothing. */
  lemma {:induction false} WithoutAbsent<V>(s: seq<MemoryItem<V>>, ks: set<string>)
    requires KeySet(s) !! ks
    ensures Without(s, ks) == s
  {
    if |s| > 0 {
      KeySetCons(s);
      WithoutAbsent(s[1..], ks);
      assert [s[0]] + s[1..] == s;
    }
  }

  /** Unlinking distributes over concatenation. */
  lemma {:induction false} WithoutAppend<V>(a: seq<MemoryItem<V>>, b: seq<MemoryItem<V>>, ks: set<string>)
    ensures Without(a + b, ks) == Without(a, ks) + Without(b, ks)
  {
    if |a| > 0 {
      assert (a + b)[1..] == a[1..] + b;
      assert (a + b)[0] == a[0];
      WithoutAppend(a[1..], b, ks);
    } else {
      assert a + b == b;
    }
  }

  /** Unlinking in two rounds is unlinking the union once. */
  lemma {:induction false} WithoutWithout<V>(s: seq<MemoryItem<V>>, ks1: set<string>, ks2: set<string>)
    ensures Without(Without(s, ks1), ks2) == Without(s, ks1 + ks2)
  {
    if |s| > 0 {
      WithoutWithout(s[1..], ks1, ks2);
      var rest := Without(s[1..], ks1);
      if s[0].key !in ks1 {
        assert ([s[0]] + rest)[1..] == rest;
      }
    }
  }

  /** In a distinct list, unlinking the front key leaves the tail. */
  lemma WithoutFront<V>(s: seq<MemoryItem<V>>)
    requires |s| > 0 && DistinctKeys(s)
    ensures Without(s, {s[0].key}) == s[1..]
  {
    DistinctCons(s);
    WithoutAbsent(s[1..], {s[0].key});
  }

  /** Size splits over concatenation. */
  lemma {:induction false} TotalSizeAppend<V>(a: seq<MemoryItem<V>>, b: seq<MemoryItem<V>>, vsize: V -> nat)
    ensures TotalSize(a + b, vsize) == TotalSize(a, vsize) + TotalSize(b, vsize)
  {
    if |a| > 0 {
      assert (a + b)[1..] == a[1..] + b;
      assert (a + b)[0] == a[0];
      TotalSizeAppend(a[1..], b, vsize);
    } else {
      assert a + b == b;
    }
  }

  /** The size of a list is the size of what an unlinking keeps plus the
      size of what it unlinks. */
  lemma {:induction false} TotalSizePartition<V>(s: seq<MemoryItem<V>>, ks: set<string>, vsize: V -> nat)
    ensures TotalSize(s, vsize) == TotalSize(Without(s, ks), vsize) + TotalSize(Only(s, ks), vsize)
  {
    if |s| > 0 {
      TotalSizePartition(s[1..], ks, vsize);
      if s[0].key in ks {
        assert ([s[0]] + Only(s[1..], ks))[1..] == Only(s[1..], ks);
      } else {
        assert ([s[0]] + Without(s[1..], ks))[1..] == Without(s[1..], ks);
      }
    }
  }

  /** Unlinking the element at position `i` of a distinct list lowers its
      size by exactly that element's size. */
  lemma {:induction false} TotalSizeWithoutOne<V>(s: seq<MemoryItem<V>>, i: int, vsize: V -> nat)
    requires DistinctKeys(s) && 0 <= i < |s|
    ensures TotalSize(Without(s, {s[i].key}), vsize) == TotalSize(s, vsize) - Size(s[i], vsize)
  {
    DistinctCons(s);
    if i == 0 {
      WithoutAbsent(s[1..], {s[0].key});
    } else {
      assert s[1..][i - 1] == s[i];
      TotalSizeWithoutOne(s[1..], i - 1, vsize);
      var rest := Without(s[1..], {s[i].key});
      assert ([s[0]] + rest)[1..] == rest;
    }
  }

  /** Unlinking the key at position `i` of a distinct list removes
      exactly one element. */
  lemma {:induction false} WithoutOneLength<V>(s: seq<MemoryItem<V>>, i: int)
    requires DistinctKeys(s) && 0 <= i < |s|
    ensures |Without(s, {s[i].key})| == |s| - 1
  {
    DistinctCons(s);
    if i == 0 {
      WithoutAbsent(s[1..], {s[0].key});
    } else {
      assert s[1..][i - 1] == s[i];
      WithoutOneLength(s[1..], i - 1);
    }
  }

  /** Re-timing an element changes neither the keys nor the size. */
  lemma {:induction false} RetimeKeepsShape<V>(s: seq<MemoryItem<V>>, key: string, lastAccess: int, expired: int, vsize: V -> nat)
    ensures KeySet(Retime(s, key, lastAccess, expired)) == KeySet(s)
    ensures DistinctKeys(s) ==> DistinctKeys(Retime(s, key, lastAccess, expired))
    ensures TotalSize(Retime(s, key, lastAccess, expired), vsize) == TotalSize(s, vsize)
  {
    var r := Retime(s, key, lastAccess, expired);
    assert forall i | 0 <= i < |s| :: r[i].key == s[i].key;
    if |s| > 0 {
      RetimeKeepsShape(s[1..], key, lastAccess, expired, vsize);
      assert r[1..] == Retime(s[1..], key, lastAccess, expired);
      SizeIgnoresTimes(s[0], lastAccess, expired, vsize);
    }
    forall k | k in KeySet(s) ensures k in KeySet(r) {
      var i :| 0 <= i < |s| && s[i].key == k;
      assert r[i].key == k;
    }
  }
}
