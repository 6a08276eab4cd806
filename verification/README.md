# lrucache in Dafny

A model of the in-memory LRU cache of `wonderivan/lrucache`. The cache
holds items (`MemoryItem`: key, value, last access time, TTL) on two
structures: a recency list and a key index. The list is a
`container/list` ordered from least to most recently used. The index is a
`map[string]*list.Element`. The cache also keeps a running size estimate
`curCacheSize` and two thresholds. When a `Put` brings the size to `high`
or above, a background janitor evicts from the front of the list until the
size is at or below `low`. On a timer, the janitor also sweeps out expired
items. Each item's size is estimated by `MemoryItem.Size`, which walks the
value by reflection (`Sizeof`).

The model is functional. A cache is the datatype `LruCache.Cache<V>`
(list as a sequence, index as a map, running size, `low`, `high`). Each
operation is a pure function from a cache to a new cache and its result.

- Time is a parameter `now`, in Unix seconds.
- Keys are Go strings, which are byte sequences. A Dafny `string` stands
  for one, with one character per byte. So `|key|` is `len(key)`, and
  `prefix <= key` is the byte-wise `strings.HasPrefix`.
- Values are of an arbitrary type `V`. Go's `nil` is a parameter `nil: V`.
- A value's deep size is a function `vsize: V -> nat`.
- `Sizeof` itself is modelled separately, over a closed datatype of value
  shapes with a heap of addresses (module `SizeOf`).

Modules:

- `Entry` (entry.dfy): the item, its `Size`, the expiry test and the TTL
  that `Put` stores.
- `Recency` (recency.dfy): the list algebra. `Without` unlinks keys,
  `Only` keeps them, `TotalSize` sums sizes, `Retime` re-times one item in
  place.
- `LruCache` (cache.dfy):
  - the state and its representation invariant `Valid`;
  - every public operation;
  - the bulk-removal loop over a key snapshot, proved equal to a one-step
    reference;
  - a proof that every operation keeps `Valid`.
- `Janitor` (janitor.dfy): the two branches of `shrinkCache`.
- `Laws` (laws.dfy): how the operations relate to one another. Examples:
  read after write, delete undoes put, last write wins, reads are
  idempotent, clearing the empty prefix is `ClearAll`.
- `SizeOf` (sizeof.dfy): `Sizeof`/`sizeof` and the size of each value
  shape.
- `Scenarios` (scenarios.dfy): concrete runs on small caches of `int`.

Behaviour the model keeps exactly as the code has it:

- The expiry test is strict: an item is expired when
  `now - lastAccess > expired`.
  - A TTL of 0 is still readable in the second it was written
    (`Scenarios.ZeroTtlLivesForItsSecond`). The comment above `Put`
    (lrucache.go:126) says such data is invalid at once.
- Reads (`Get`, `GetEx`, `GetMulti`) move an item to the back. They never
  refresh `lastAccess`, so a TTL counts from the last `Put` or
  `DelayDelete`.
- The TTL is `int64(expired)` of a `time.Duration`, compared with a
  difference of Unix seconds.
  - `Put(k, v, 2)` therefore lives 2 seconds.
  - The default for a negative TTL, `24*3600*365*time.Second`, becomes
    31,536,000,000,000,000 in that comparison.
  - An item written with the default is still there a year later
    (`Scenarios.NegativeTtlOutlivesAYear`).
- `DelayDelete` stores a negative delay as is. Only `Put` replaces
  negative TTLs.
- The configuration check only rejects `high < low`. A negative `low` is
  accepted. The shrink loop then empties the list and calls
  `Remove(Front())` on it, which panics. `Janitor.ShrinkToLow` reports this
  as `panicked`, which holds exactly when `low < 0`.
- `GetMulti` serves expired items and withholds live ones (see Findings).
- `sizeof` creates its visited map lazily inside the pointer case.
  - A caller that passed a nil map never sees that map.
  - At the top level, sibling fields or elements are therefore measured
    independently.
  - Under a pointer they share one map.
  - `Visited = NoMap | Seen(addrs)` models this
    (`SizeOf.SharingDependsOnTheMap`).

Some definitions carry no contract of their own. They are the terms in
which the contracts below are stated:

- `Entry.Expired` is the expiry test on lrucache.go:83, 100, 117, 174,
  191 and 332.
- `LruCache.IsExist` is `IsExist` (lrucache.go:185-194): present and not
  expired. `LruCache.GetEx` states that its flag equals `IsExist`.
- `LruCache.PrefixMatch` is the `strings.HasPrefix` selection of
  lrucache.go:221.
- `Janitor.ExpiredMatch` is the sweep's selection of lrucache.go:332.
- `SizeOf.Sizeof` is `Sizeof` (util.go:32-34): `sizeof` started with a
  nil visited map. `SizeOf.StructSize`, `SizeOf.SliceSize`,
  `SizeOf.MapSize` and `SizeOf.InterfaceSize` state what it computes.

## Model

| member | source | states |
|---|---|---|
| Entry.Size | util.go:16-22 | an item costs at least `80 + 2*len(key)` bytes, with equality exactly when the value measures 0 |
| Entry.StoredTtl | lrucache.go:130-132 | the stored TTL is never negative: a negative request becomes `defaultExpire`, any other is kept |
| Entry.SizeIgnoresTimes | util.go:16-22 | an item's size depends on key and value only, so re-timing it keeps the size |
| LruCache.NewLruCache | lrucache.go:256-269 | a configuration is accepted exactly when `low <= high`; the new cache is empty with size 0 and those thresholds |
| LruCache.Touch | lrucache.go:86 | `MoveToBack`: the item ends last, the other items keep their relative order, and index and size are unchanged |
| LruCache.Remove | lrucache.go:159-161 | the key leaves list and index; every other key keeps its item; the list keeps the other keys in their order; the size drops by exactly the item's `Size()` |
| LruCache.Get | lrucache.go:78-90 | absent or expired: `nil` and no change at all; live: its value, the item moves to the back, the rest keep their order; keys and size never change |
| LruCache.GetEx | lrucache.go:112-124 | the flag is true exactly when `IsExist` holds (lrucache.go:185-194); it returns the value when the flag is true, else `nil` and no change; value and state agree with `Get` |
| LruCache.GetMulti | lrucache.go:93-109 | one result per key, in order; keys, size and thresholds unchanged; the i-th result is the value exactly when that key is present and expired |
| LruCache.GetMultiLive | lrucache.go:92-109 | one result per key, each equal to what `Get` returns for it; keys and size unchanged |
| LruCache.Put | lrucache.go:129-152 | the key maps to the new item `(val, now, stored TTL)` at the back; other keys keep their items and order; size moves by new minus old size; the shrink request is raised exactly when the size reaches `high` |
| LruCache.Delete | lrucache.go:155-166 | absent key: "key not exist" and no change; present key: only it goes, and the size drops by exactly its `Size()` |
| LruCache.DelayDelete | lrucache.go:169-182 | absent key: error, no change; expired: no error, no change; live: TTL `delay` from `now`, same list position, same size, and the key then exists at `t` exactly when `t - now <= delay` |
| LruCache.ClearAll | lrucache.go:197-203 | no key exists at any time afterwards; list empty, size 0, thresholds kept |
| LruCache.WithoutMatching | lrucache.go:220-234 | one-step removal: exactly the selected keys go, the others keep their items and order, and the size drops by the removed items' sizes |
| LruCache.RemoveMatchingBySnapshot | lrucache.go:210-234 | the key-snapshot loop, in any snapshot order, ends in exactly the one-step reference state |
| LruCache.WithoutPrefix | lrucache.go:220-231 | exactly the keys starting with the prefix are removed; the rest keep their items and order; the size drops by the removed sizes |
| LruCache.ClearPrefixKeys | lrucache.go:206-237 | `ClearPrefixKeys` over any snapshot of the keys equals `WithoutPrefix` |
| LruCache.PutValid | lrucache.go:134-146 | `Put` keeps index and list in one-to-one correspondence and `curCacheSize` equal to the sum of `Size()` |
| LruCache.GetValid | lrucache.go:81-87 | `Get` and `GetEx` keep the invariant |
| LruCache.GetMultiValid | lrucache.go:97-107 | `GetMulti` (as written and corrected) keeps the invariant |
| LruCache.DeleteValid | lrucache.go:158-161 | `Delete` keeps the invariant |
| LruCache.DelayDeleteValid | lrucache.go:172-177 | `DelayDelete` keeps the invariant |
| LruCache.RetimedValid | lrucache.go:175-176 | re-timing one item in list and index keeps the invariant |
| LruCache.RemoveValid | lrucache.go:159-161 | unlinking a present key keeps the invariant, and the list loses exactly one element |
| LruCache.NewLruCacheValid | lrucache.go:256-269 | an accepted configuration gives a cache that satisfies the invariant; with the preservation lemmas, every reachable cache does |
| LruCache.TouchValid | lrucache.go:86 | moving an item to the back keeps the invariant |
| LruCache.ClearAllValid | lrucache.go:197-203 | the cleared cache satisfies the invariant |
| LruCache.WithoutMatchingValid | lrucache.go:223-228 | a bulk removal keeps the invariant |
| LruCache.WithoutPrefixValid | lrucache.go:220-231 | `ClearPrefixKeys` keeps the invariant |
| LruCache.UnlinkStep | lrucache.go:223-228 | removing one more selected key from a partly cleared cache is the next state of the one-step reference |
| Janitor.ShrinkToLow | lrucache.go:294-309 | evicts only from the front, leaving a suffix; every eviction happened while the size was above `low`; it stops at or below `low`; it panics exactly when `low < 0`; the invariant holds throughout |
| Janitor.EvictFront | lrucache.go:297-301 | `Remove(Front())` on a valid cache drops exactly the first element and keeps the invariant |
| Janitor.WithoutExpired | lrucache.go:328-342 | exactly the items expired at `now` are removed; survivors keep their items and order; the size drops by the removed sizes |
| Janitor.ExpirySweep | lrucache.go:317-342 | the timer sweep over any key snapshot equals `WithoutExpired` |
| Janitor.SweepKeepsReads | lrucache.go:328-342 | after the sweep the invariant holds, nothing expired is left, and `IsExist` at `now` answers as before for every key |
| Laws.PutThenGet | lrucache.go:129-146 | a `Put` is read back while `t - now <= stored TTL` and reads as `nil` afterwards |
| Laws.PutLeavesOthers | lrucache.go:134-146 | a `Put` changes no other key's `IsExist` or `Get` |
| Laws.DeleteThenGet | lrucache.go:155-166 | after `Delete` the key is absent at every time, and no other key reads differently |
| Laws.DeleteUndoesPut | lrucache.go:142-161 | deleting a freshly put key restores the cache exactly |
| Laws.PutPutLastWins | lrucache.go:134-141 | two `Put`s to one key give the same cache as the second alone |
| Laws.GetTwice | lrucache.go:81-87 | reading a key twice at one time is the same as reading it once |
| Laws.GetKeepsOthersInOrder | lrucache.go:86 | a read leaves the relative order of all other items unchanged |
| Laws.DelayDeleteLeavesOthers | lrucache.go:172-177 | `DelayDelete` changes no other key's `IsExist` or `Get` |
| Laws.ClearPrefixThenGet | lrucache.go:220-231 | after `ClearPrefixKeys` a key reads as before exactly when it lacks the prefix, else as absent |
| Laws.ClearEmptyPrefixIsClearAll | lrucache.go:197-237 | clearing the empty prefix yields the same cache as `ClearAll` |
| Janitor.EvictedWhileAboveStep | lrucache.go:296-297 | one more front eviction while above `low` extends the record of evictions made above `low` |
| SizeOf.SizeOfValue | util.go:36-84 | every shape measures a non-negative size, so the final `panic` is unreachable; a nil visited map stays nil for the caller; a shared map only gains heap addresses |
| SizeOf.SizeOfTarget | util.go:45-56 | a non-nil pointer is expanded only on its first visit, creating the map if it is nil; the walk ends on pointer cycles |
| SizeOf.SizeOfAll | util.go:57-61 | elements and struct fields are measured in order, threading the visited map |
| SizeOf.SizeOfEntries | util.go:66-71 | map keys and values are measured in order, threading the visited map |
| SizeOf.StructSize | util.go:74-79 | at the top level a struct is the sum of the separate sizes of its fields |
| SizeOf.SliceSize | util.go:57-65 | at the top level an array/slice is its header, plus the sum of element sizes, plus `(cap-len)*elemWidth` only when `cap > len`; it is never below header plus elements |
| SizeOf.MapSize | util.go:66-71 | at the top level a map is its header plus the sizes of every key and value |
| SizeOf.InterfaceSize | util.go:43-44 | an interface is its dynamic value plus its header |
| SizeOf.LeafAndPointerSizes | util.go:38-56 | invalid is 0, a string is length plus header, a chan is `cap*elemWidth` plus header; a nil or already-visited pointer is only its width; otherwise the target is expanded with the address marked visited |
| SizeOf.SelfPointerIsFinite | util.go:49-56 | a pointer to itself measures twice its width: the walk stops at the second visit |
| SizeOf.SharingDependsOnTheMap | util.go:49-56 | two pointers to one target are expanded once under a shared map and twice from the top level |
| Scenarios.DefaultsAccepted | lrucache.go:17-18 | the default thresholds pass the configuration check and give an empty cache |
| Scenarios.GetMultiServesTheWrongItems | lrucache.go:100 | with a 10-second TTL, `GetMulti` gives `nil` at second 5 and the value at second 20, while `Get` gives the opposite |
| Scenarios.ZeroTtlLivesForItsSecond | lrucache.go:83 | a TTL of 0 is read in the same second and gone the next |
| Scenarios.NegativeTtlOutlivesAYear | lrucache.go:20 | an item with the default TTL still exists a year and a second after it was written |
| Scenarios.DelayDeleteExtends | lrucache.go:169-182 | TTL 1 extended by 3 at second 1: alive at second 3, gone at second 5 |
| Scenarios.ThreeWritesValid | lrucache.go:142-146 | three fresh `Put`s append in order, each adding 82 bytes, and the result is valid |
| Scenarios.ReadMovesToBack | lrucache.go:86 | after writing A, B, C and reading A, the list is B, C, A |
| Scenarios.ShrinkEvictsLeastRecent | lrucache.go:294-309 | shrinking that cache to room for two items evicts exactly B |
| Scenarios.ClearPrefixExample | lrucache.go:220-231 | clearing prefix "a" from {a1, a2, b1} leaves only b1, with its item |

## Left out

- Concurrency: the mutex, the janitor goroutine, its channels, the `WaitGroup` and `Destroy`. Each locked section is one atomic step. Between keys, `ClearPrefixKeys` and the sweep release the lock; the model runs each loop without interleaving.
- The shrink request's blocking send on a capacity-1 channel and the unlocked size read before it. `Put` returns the request as a flag, and `Janitor.ShrinkToLow` is a separate step.
- The timer and `interval`, the cache `name` and `GetCacheName`: they do not affect the cache contents.
- Configuration parsing: JSON decoding and float-to-int conversion. `NewLruCache` takes `low` and `high` directly and keeps only the `high < low` check.
- Logging, `runtime.GC()` and elapsed-time measurement: no effect on state.
- The wall clock: `now` is a parameter, read once per operation.
- Integer width: Go's `int`/`int64` overflow is not modelled; integers are unbounded.
- Go map iteration order: the key snapshot is an arbitrary sequence of the keys, and the loops are proved correct for every order.
- Values mutated after `Put`: Go recomputes `Size()` from the live value at removal. The model's `vsize` is fixed, so a value that changes size in place is not modelled.
- Reflection: building a shape from a Go value (`ValueOf`), concrete type widths and `v.Pointer()` identities. Widths are opaque numbers in the shape; pointer targets are heap addresses; map entries come in a fixed order.
- Entry.Size: keys are byte strings written one character per byte, so `|key|` is Go's `len(key)`. A Dafny string holding a character outside one byte stands for no Go key. The same reading applies to `prefix <= key` in `LruCache.PrefixMatch`.
- SizeOf.SizeOfTarget: the walk ends on pointer cycles only. Arrays, slices, maps and interfaces are inline trees in `Value`, so a value that contains itself through one of them cannot be expressed. An example is a map stored in itself under some key. Go's `sizeof` checks the visited map only in the pointer case (util.go:49-55). On such a value it recurses without end, and a `Put` of it never returns. The model does not cover this.
- The `LastAccess`/`lastAccess` field-name mismatch between util.go:12 and lrucache.go: the model has one field.

## Findings

| source | as written | input that shows it | evidently intended | confidence | as-written member | corrected member |
|---|---|---|---|---|---|---|
| lrucache.go:100 | `GetMulti` serves a key when `now - lastAccess > expired` (it has expired), moves that expired item to the back, and returns `nil` for live keys | `Put("a", 7, 10)` at second 0; `GetMulti(["a"])` at second 5 gives `[nil]` while `Get("a")` gives 7; at second 20 `GetMulti` gives `[7]` while `Get` gives `nil` | serve each key as `Get` does, as the comment on line 92 says ("the specified valid data") | high; not executed | LruCache.GetMulti, Scenarios.GetMultiServesTheWrongItems | LruCache.GetMultiLive |
