/**
  `Sizeof`/`sizeof` of util.go: a deep size estimate of a value, walked by
  reflection in the source. Here a value is a closed datatype of the
  shapes the walk distinguishes; every `v.Type().Size()` width is an
  opaque non-negative number carried by the value; pointers are addresses
  into a finite heap; and the `map[uintptr]bool` of visited pointers is
  `Visited`, which is `NoMap` while the caller passed a nil map.

  Arrays, slices, maps and interfaces hold their contents inline, as
  finite trees; only a pointer can refer back to an enclosing value. The
  source consults the visited map in the pointer case alone, so a cycle
  through a map, slice or interface (a map stored in itself) makes its
  walk recurse without end; such values are not expressible here.
 */
module SizeOf {

  type Addr = nat

  /** The kinds `sizeof` handles. `header` is `v.Type().Size()`. */
  datatype Value =
    | Scalar(width: nat)                                          // Bool … Complex128, Func, UnsafePointer
    | Str(length: nat, header: nat)                               // String: `v.Len()` bytes
    | Iface(header: nat, elem: Value)                             // Interface
    | Ptr(header: nat, target: Target)                            // Ptr
    | Sequence(header: nat, elems: seq<Value>, cap: nat, elemWidth: nat)  // Array, Slice
    | Dict(header: nat, entries: seq<MapEntry>)                   // Map, in iteration order
    | Chan(header: nat, cap: nat, elemWidth: nat)                 // Chan
    | Record(fields: seq<Value>)                                  // Struct
    | Invalid                                                     // the zero Value (a nil interface)

  datatype MapEntry = MapEntry(key: Value, val: Value)

  datatype Target = Nil | At(addr: Addr)

  /** The visited-pointer map: `NoMap` is Go's nil map. */
  datatype Visited = NoMap | Seen(addrs: set<Addr>)

  /** Every pointer in `v` points into `heap`. */
  predicate PtrsIn(v: Value, heap: map<Addr, Value>)
  {
    match v
    case Iface(_, e) => PtrsIn(e, heap)
    case Ptr(_, t) => t.At? ==> t.addr in heap
    case Sequence(_, es, _, _) => forall i | 0 <= i < |es| :: PtrsIn(es[i], heap)
    case Dict(_, es) => forall i | 0 <= i < |es| :: PtrsIn(es[i].key, heap) && PtrsIn(es[i].val, heap)
    case Record(fs) => forall i | 0 <= i < |fs| :: PtrsIn(fs[i], heap)
    case _ => true
  }

  /** A heap whose pointers never dangle, as Go's memory safety ensures. */
  predicate Closed(heap: map<Addr, Value>)
  {
    forall a | a in heap :: PtrsIn(heap[a], heap)
  }

  /** A structural size, used only to order the recursion. */
  function Weight(v: Value): nat
  {
    match v
    case Iface(_, e) => 1 + Weight(e)
    case Sequence(_, es, _, _) => 1 + WeightAll(es)
    case Dict(_, es) => 1 + WeightEntries(es)
    case Record(fs) => 1 + WeightAll(fs)
    case _ => 1
  }

  function WeightAll(vs: seq<Value>): nat
  {
    if |vs| == 0 then 0 else 1 + Weight(vs[0]) + WeightAll(vs[1..])
  }

  function WeightEntries(es: seq<MapEntry>): nat
  {
    if |es| == 0 then 0 else 1 + WeightEntry(es[0]) + WeightEntries(es[1..])
  }

  function WeightEntry(e: MapEntry): nat
  {
    Weight(e.key) + Weight(e.val)
  }

  /** How the visited map may change across a walk: a nil map stays nil
      for the caller, and a shared map only gains addresses of the heap. */
  predicate Extends(heap: map<Addr, Value>, before: Visited, after: Visited)
  {
    if before.NoMap? then after == NoMap
    else after.Seen? && before.addrs <= after.addrs && after.addrs - before.addrs <= heap.Keys
  }

  /** The heap addresses a walk may still expand. */
  function Unvisited(heap: map<Addr, Value>, mp: Visited): set<Addr>
  {
    if mp.NoMap? then heap.Keys else heap.Keys - mp.addrs
  }

  /** `sizeof(v, mp)`: the size and the visited map afterwards. A map the
      callee creates is its own: with `NoMap` in, `NoMap` comes out. A
      pointer is expanded only the first time the shared map sees it,
      which is what makes the walk finite on pointer cycles. */
  function SizeOfValue(heap: map<Addr, Value>, v: Value, mp: Visited): (r: (int, Visited))
    requires Closed(heap) && PtrsIn(v, heap)
    ensures r.0 >= 0
    ensures Extends(heap, mp, r.1)
    decreases if mp.NoMap? then 1 else 0, Unvisited(heap, mp), Weight(v), 0
  {
    match v
    case Scalar(w) => (w, mp)
    case Str(n, h) => (n + h, mp)
    case Iface(h, e) =>
      var inner := SizeOfValue(heap, e, mp);
      (inner.0 + h, inner.1)
    case Ptr(h, t) =>
      if t.Nil? then (h, mp) else SizeOfTarget(heap, h, t.addr, mp)
    case Sequence(h, es, cap, w) =>
      var elems := SizeOfAll(heap, es, mp);
      (h + elems.0 + (if cap > |es| then (cap - |es|) * w else 0), elems.1)
    case Dict(h, es) =>
      var entries := SizeOfEntries(heap, es, mp);
      (h + entries.0, entries.1)
    case Chan(h, cap, w) => (cap * w + h, mp)
    case Record(fs) => SizeOfAll(heap, fs, mp)
    case Invalid => (0, mp)
  }

  /** A non-nil pointer of width `h` to `addr`: expanded only when the
      visited map (created here if it is nil) has not seen `addr`; a map
      created here is dropped on return. */
  function SizeOfTarget(heap: map<Addr, Value>, h: nat, addr: Addr, mp: Visited): (r: (int, Visited))
    requires Closed(heap) && addr in heap
    ensures r.0 >= 0
    ensures Extends(heap, mp, r.1)
    decreases if mp.NoMap? then 1 else 0, Unvisited(heap, mp), 0, 1
  {
    var seen := if mp.NoMap? then {} else mp.addrs;
    if addr in seen then (h, mp)
    else
      assert mp.Seen? ==> Unvisited(heap, Seen(seen + {addr})) < Unvisited(heap, mp);
      var inner := SizeOfValue(heap, heap[addr], Seen(seen + {addr}));
      (inner.0 + h, if mp.NoMap? then NoMap else inner.1)
  }

  /** The elements of an array or slice, or the fields of a struct, in
      order, threading the visited map. */
  function SizeOfAll(heap: map<Addr, Value>, vs: seq<Value>, mp: Visited): (r: (int, Visited))
    requires Closed(heap) && forall i | 0 <= i < |vs| :: PtrsIn(vs[i], heap)
    ensures r.0 >= 0
    ensures Extends(heap, mp, r.1)
    decreases if mp.NoMap? then 1 else 0, Unvisited(heap, mp), WeightAll(vs), 1
  {
    if |vs| == 0 then (0, mp)
    else
      var first := SizeOfValue(heap, vs[0], mp);
      var rest := SizeOfAll(heap, vs[1..], first.1);
      (first.0 + rest.0, rest.1)
  }

  /** The keys and values of a map, key before value, in iteration order. */
  function SizeOfEntries(heap: map<Addr, Value>, es: seq<MapEntry>, mp: Visited): (r: (int, Visited))
    requires Closed(heap) && forall i | 0 <= i < |es| :: PtrsIn(es[i].key, heap) && PtrsIn(es[i].val, heap)
    ensures r.0 >= 0
    ensures Extends(heap, mp, r.1)
    decreases if mp.NoMap? then 1 else 0, Unvisited(heap, mp), WeightEntries(es), 1
  {
    if |es| == 0 then (0, mp)
    else
      assert WeightEntry(es[0]) == Weight(es[0].key) + Weight(es[0].val);
      var k := SizeOfValue(heap, es[0].key, mp);
      var v := SizeOfValue(heap, es[0].val, k.1);
      var rest := SizeOfEntries(heap, es[1..], v.1);
      (k.0 + v.0 + rest.0, rest.1)
  }

  /** `Sizeof(i)`: the walk started with a nil visited map. */
  function Sizeof(heap: map<Addr, Value>, v: Value): (n: nat)
    requires Closed(heap) && PtrsIn(v, heap)
  {
    SizeOfValue(heap, v, NoMap).0
  }

  /** The sum of the separate `Sizeof` of each value. */
  function SumSizeof(heap: map<Addr, Value>, vs: seq<Value>): nat
    requires Closed(heap) && forall i | 0 <= i < |vs| :: PtrsIn(vs[i], heap)
  {
    if |vs| == 0 then 0 else Sizeof(heap, vs[0]) + SumSizeof(heap, vs[1..])
  }

  /** The sum of the separate `Sizeof` of each key and each value. */
  function SumEntrySizeof(heap: map<Addr, Value>, es: seq<MapEntry>): nat
    requires Closed(heap) && forall i | 0 <= i < |es| :: PtrsIn(es[i].key, heap) && PtrsIn(es[i].val, heap)
  {
    if |es| == 0 then 0 else Sizeof(heap, es[0].key) + Sizeof(heap, es[0].val) + SumEntrySizeof(heap, es[1..])
  }

  lemma {:induction false} AllWithoutMap(heap: map<Addr, Value>, vs: seq<Value>)
    requires Closed(heap) && forall i | 0 <= i < |vs| :: PtrsIn(vs[i], heap)
    ensures SizeOfAll(heap, vs, NoMap).0 == SumSizeof(heap, vs)
  {
    if |vs| > 0 {
      AllWithoutMap(heap, vs[1..]);
    }
  }

  lemma {:induction false} EntriesWithoutMap(heap: map<Addr, Value>, es: seq<MapEntry>)
    requires Closed(heap) && forall i | 0 <= i < |es| :: PtrsIn(es[i].key, heap) && PtrsIn(es[i].val, heap)
    ensures SizeOfEntries(heap, es, NoMap).0 == SumEntrySizeof(heap, es)
  {
    if |es| > 0 {
      EntriesWithoutMap(heap, es[1..]);
    }
  }

  /** Measured from the top (a nil visited map), a struct is the sum of
      the separate sizes of its fields: nothing visited under one field is
      remembered for the next, because the map a pointer creates stays
      with that pointer. */
  lemma StructSize(heap: map<Addr, Value>, fs: seq<Value>)
    requires Closed(heap) && forall i | 0 <= i < |fs| :: PtrsIn(fs[i], heap)
    ensures Sizeof(heap, Record(fs)) == SumSizeof(heap, fs)
  {
    AllWithoutMap(heap, fs);
  }

  /** An array or slice measured from the top: its header, the separate
      sizes of its elements, and `(cap - len) * elemWidth` for spare
      capacity, which is only added when `cap > len`. */
  lemma SliceSize(heap: map<Addr, Value>, h: nat, es: seq<Value>, cap: nat, w: nat)
    requires Closed(heap) && forall i | 0 <= i < |es| :: PtrsIn(es[i], heap)
    ensures Sizeof(heap, Sequence(h, es, cap, w)) == h + SumSizeof(heap, es) + (if cap > |es| then (cap - |es|) * w else 0)
    ensures Sizeof(heap, Sequence(h, es, cap, w)) >= h + SumSizeof(heap, es)
  {
    var extra := if cap > |es| then (cap - |es|) * w else 0;
    assert extra >= 0;
    assert SizeOfValue(heap, Sequence(h, es, cap, w), NoMap).0 == h + SizeOfAll(heap, es, NoMap).0 + extra;
    AllWithoutMap(heap, es);
  }

  /** A map measured from the top: its header and the separate sizes of
      every key and every value. */
  lemma MapSize(heap: map<Addr, Value>, h: nat, es: seq<MapEntry>)
    requires Closed(heap) && forall i | 0 <= i < |es| :: PtrsIn(es[i].key, heap) && PtrsIn(es[i].val, heap)
    ensures Sizeof(heap, Dict(h, es)) == h + SumEntrySizeof(heap, es)
  {
    EntriesWithoutMap(heap, es);
  }

  /** An interface is its dynamic value plus its own header. */
  lemma InterfaceSize(heap: map<Addr, Value>, h: nat, e: Value)
    requires Closed(heap) && PtrsIn(e, heap)
    ensures Sizeof(heap, Iface(h, e)) == Sizeof(heap, e) + h
  {
  }

  /** The leaf shapes and the pointer rules: an invalid value (a nil
      interface) measures 0, a string its bytes plus its header, a channel
      its buffer plus its header; a nil pointer and a pointer the shared
      map has already seen measure only the pointer itself, and the visited
      map is then left as it was. */
  lemma LeafAndPointerSizes(heap: map<Addr, Value>, h: nat, n: nat, w: nat, a: Addr, m: set<Addr>)
    requires Closed(heap)
    ensures Sizeof(heap, Invalid) == 0
    ensures Sizeof(heap, Str(n, h)) == n + h
    ensures Sizeof(heap, Chan(h, n, w)) == n * w + h
    ensures Sizeof(heap, Ptr(h, Nil)) == h
    ensures a in heap && a in m ==> SizeOfValue(heap, Ptr(h, At(a)), Seen(m)) == (h, Seen(m))
    ensures a in heap && a !in m ==>
      SizeOfValue(heap, Ptr(h, At(a)), Seen(m)).0 == h + SizeOfValue(heap, heap[a], Seen(m + {a})).0
  {
  }

  /** A pointer to itself is measured once: the walk stops at the second
      visit and charges only the pointer width there. */
  lemma SelfPointerIsFinite(h: nat)
    ensures Closed(map[0 := Ptr(h, At(0))])
    ensures Sizeof(map[0 := Ptr(h, At(0))], Ptr(h, At(0))) == 2 * h
  {
    var heap := map[0 := Ptr(h, At(0))];
    assert heap[0] == Ptr(h, At(0));
    assert PtrsIn(heap[0], heap);
    assert Closed(heap);
    assert {} + {0} == {0};
    assert SizeOfValue(heap, heap[0], Seen({0})) == (h, Seen({0}));
    assert SizeOfValue(heap, Ptr(h, At(0)), NoMap) == (2 * h, NoMap);
  }

  /** Two pointers to one target inside a pointed-to struct share the
      visited map and expand the target once; the same struct measured at
      the top level expands it twice. */
  lemma SharingDependsOnTheMap()
    ensures var heap := map[1 := Scalar(8)];
            var s := Record([Ptr(8, At(1)), Ptr(8, At(1))]);
            && Closed(heap) && PtrsIn(s, heap)
            && SizeOfValue(heap, s, Seen({})).0 == 24
            && Sizeof(heap, s) == 32
  {
    var heap := map[1 := Scalar(8)];
    var p := Ptr(8, At(1));
    var s := Record([p, p]);
    assert PtrsIn(s, heap);
    assert heap[1] == Scalar(8);
    assert {} + {1} == {1};
    assert SizeOfValue(heap, Scalar(8), Seen({1})) == (8, Seen({1}));
    assert SizeOfValue(heap, p, Seen({})) == (16, Seen({1}));
    assert SizeOfValue(heap, p, Seen({1})) == (8, Seen({1}));
    assert [p, p][1..] == [p];
    assert [p][1..] == [];
    assert SizeOfAll(heap, [p], Seen({1})) == (8, Seen({1}));
    assert SizeOfAll(heap, [p, p], Seen({})) == (24, Seen({1}));
    assert SizeOfValue(heap, p, NoMap) == (16, NoMap);
    assert SizeOfAll(heap, [p], NoMap) == (16, NoMap);
    assert SizeOfAll(heap, [p, p], NoMap) == (32, NoMap);
  }
}
