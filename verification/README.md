# typedmap in Dafny

A model of the sequential behaviour of `typedmap`, a generic thread-safe
key/value container for Go, with proofs about it.

Two engines are modelled:

- **The exclusive-lock engine** (`internal/mutex`). This is the engine that
  `typedmap.New` and `typedmap.NewWithMap` hand out (mutex.go:48-56). One Go
  map is guarded by a reader-writer lock. The engine offers the `sync.Map`
  operations plus `Update`, `UpdateRange`, `Exclusive`, `Clear`, `Has`,
  `Len`, `Keys`, `Values` and `Entries`. CompareAndSwap and CompareAndDelete
  are switched off by a flag fixed at construction: it records whether the
  value type is comparable.
- **The counting engine** (typedmap.go). This older engine keeps a store
  beside a separate entry counter. Its object invariant is that the counter
  equals the number of stored entries.

Each method is modelled as one atomic step on a `map<K, V>` field of a Dafny
class, `MutexEngine.TypedMap` or `CountedEngine.TypedMap`. Go's zero value
of `V` is a constructor argument (`zero`). The comparability probe is a
constructor argument too (`valueComparable`), held in a `const` field, so no
method can change it. Callbacks are pure Dafny functions.

Go visits map entries in an order the runtime chooses. Every loop over the
entries therefore picks its next key with `:|` from the keys not yet
visited. Nothing is proved about the order, only about membership, counts
and where a loop stops. `Range` and `UpdateRange` return `visited`, the
sequence of keys the callback was called with. This is what a caller can
observe of a loop whose callback has no other effect. `Values` returns the
order it used as a ghost `order`.

The files:

- `iteration.dfy` (module `Iteration`) defines what a loop over a map
  guarantees:
  - `Enumerates`: every key exactly once;
  - `IsRangeTrace`: the stop-at-first-false rule of `Range`;
  - `IsUpdateRangeResult`: the write rule of `UpdateRange`, under which the
    entry where the callback says stop is not written.

  It also holds the lemmas about these definitions.
- `mutex_engine.dfy` (module `MutexEngine`) covers internal/mutex/map.go,
  internal/mutex/typed.go and internal/mutex/mutex.go. map.go at the top
  level has the same method bodies as internal/mutex/map.go, with `typedMap`
  as the receiver; it also declares the `Map` interface, and two of its doc
  comments are worded differently. Its methods are modelled by the same
  class, and the table names their line ranges next to the internal ones.
- `counted_engine.dfy` (module `CountedEngine`) covers typedmap.go.
- `scenarios.dfy` (module `Scenarios`) restates the sequential assertions of
  internal/mutex/typedmap_test.go as client methods. These methods see the
  engines only through their contracts. The tests' concrete keys and values
  become parameters. The module also holds three client-level properties of
  the engines that no test states: `SwapUndone`, `CompareAndDeleteLeavesOthers`
  and `CounterFollowsStore`.

## Model

| member | source | states |
|---|---|---|
| `MutexEngine.CopyEntries` | internal/mutex/mutex.go:8-11 | The copying loop of New yields a map with exactly the keys and values of the input, whatever the visiting order |
| `MutexEngine.TypedMap.New` | internal/mutex/mutex.go:7-14 | The container starts with a copy of the given map (a nil map is the empty one). `valueComparable` and `zero` are fixed there for the container's lifetime |
| `MutexEngine.TypedMap.Load` | internal/mutex/map.go:13-18 | Returns the stored value and true when the key is present, otherwise the zero value and false; state unchanged. Same code: map.go:63-68 |
| `MutexEngine.TypedMap.Store` | internal/mutex/map.go:6-8 | Goes through Swap: the key maps to the value afterwards and every other entry is unchanged. Same code: map.go:56-58 |
| `MutexEngine.TypedMap.LoadOrStore` | internal/mutex/map.go:23-32 | Present key: returns its value with loaded = true and leaves the map unchanged. Absent key: inserts the value and returns it with loaded = false. Same code: map.go:73-82 |
| `MutexEngine.TypedMap.LoadAndDelete` | internal/mutex/map.go:36-44 | Returns the previous value (or zero) and whether the key was present. Afterwards the key is absent and every other entry is unchanged. Same code: map.go:86-94 |
| `MutexEngine.TypedMap.Delete` | internal/mutex/map.go:48-50 | Goes through LoadAndDelete: the key is removed and nothing else changes. Same code: map.go:98-100 |
| `MutexEngine.TypedMap.Swap` | internal/mutex/map.go:54-60 | Returns the previous value (or zero) and presence, then stores the new value under the key only. Same code: map.go:104-110 |
| `MutexEngine.TypedMap.CompareAndSwap` | internal/mutex/map.go:70-82 | Succeeds exactly when values are comparable, the key is present and its value equals the expected one. Only then is the key rewritten; on failure nothing changes. Same code: map.go:117-129 |
| `MutexEngine.TypedMap.CompareAndDelete` | internal/mutex/map.go:91-103 | Succeeds exactly when values are comparable, the key is present and its value equals the expected one. An absent key fails even for the zero value. Only then is exactly that key removed. Same code: map.go:137-149 |
| `MutexEngine.TypedMap.Range` | internal/mutex/map.go:108-116 | The callback gets distinct keys of the map with their values. It said continue to all but the last. Either every entry was visited or it said stop to the last. Same code: map.go:154-162 |
| `MutexEngine.TypedMap.Clear` | internal/mutex/typed.go:14-18 | The map is empty afterwards, whatever it held |
| `MutexEngine.TypedMap.Has` | internal/mutex/typed.go:21-24 | Goes through Load: true exactly when the key is present; state unchanged |
| `MutexEngine.TypedMap.Update` | internal/mutex/typed.go:29-34 | The key is present afterwards and holds f(stored value, true), or f(zero, false) when it was absent. Every other entry is unchanged |
| `MutexEngine.TypedMap.UpdateRange` | internal/mutex/typed.go:40-50 | The keys are unchanged. Each visited entry on which f said continue holds f's new value. The entry on which f said stop, and every unvisited entry, keep their old value. The length is preserved |
| `MutexEngine.TypedMap.Exclusive` | internal/mutex/typed.go:55-59 | The map becomes what f makes of the whole old map |
| `MutexEngine.TypedMap.Len` | internal/mutex/typed.go:62-66 | The number of entries |
| `MutexEngine.TypedMap.Keys` | internal/mutex/typed.go:69-84 | Every key exactly once, so the length equals the map's. Empty on an empty map. The `len(keys) >= max` break fires only after the last key |
| `MutexEngine.TypedMap.Values` | internal/mutex/typed.go:87-102 | One stored value per entry, so the length equals the map's. values[i] is stored under order[i], where order lists every key exactly once |
| `MutexEngine.TypedMap.Entries` | internal/mutex/typed.go:105-122 | Keys list every key once. Values have the same length, and values[i] is stored under keys[i] |
| `Iteration.RangeUntilFalse` | internal/mutex/map.go:111-115 | The runtime's range loop that breaks at the first false, shared by both engines' Range (typedmap.go:143-147 runs the same rule through `sync.Map.Range`): its trace satisfies the stop-at-first-false rule |
| `Iteration.RangeAtMostOnce` | internal/mutex/map.go:108-116 | Range calls the callback at most once per entry |
| `Iteration.RangeVisitsAll` | internal/mutex/map.go:108-116 | When the callback never says stop, Range visits every entry exactly once, one call per entry |
| `Iteration.RangeStopsAtFirstFalse` | internal/mutex/map.go:108-116 | On a non-empty map the callback is called, and exactly once when it says stop on its first call |
| `Iteration.UpdateRangeKeepsLength` | internal/mutex/typed.go:43-49 | UpdateRange never adds or removes keys, so Len is unchanged |
| `Iteration.UpdateRangeStopAtOnce` | internal/mutex/typed.go:43-49 | If the callback says stop on every entry, UpdateRange calls it once on a non-empty map and writes nothing: the stopping entry keeps its value |
| `Iteration.UpdateRangeWritesAll` | internal/mutex/typed.go:43-49 | If the callback never says stop, every entry ends up holding the callback's new value for it |
| `CountedEngine.TypedMap.New` | typedmap.go:27-29 | An empty store with a zero counter; the invariant holds |
| `CountedEngine.TypedMap.Get` | typedmap.go:32-38 | The stored value and true, or the zero value and false; state unchanged |
| `CountedEngine.TypedMap.Has` | typedmap.go:87-90 | True exactly when the key is present |
| `CountedEngine.TypedMap.Len` | typedmap.go:166-168 | Returns the counter, which equals the number of entries while the invariant holds |
| `CountedEngine.TypedMap.UnsafeSet` | typedmap.go:50-55 | Stores the value. The counter grows by one exactly when the key was absent. The invariant is preserved |
| `CountedEngine.TypedMap.Set` | typedmap.go:43-47 | Same effect as unsafeSet; preserves the invariant |
| `CountedEngine.TypedMap.Update` | typedmap.go:59-64 | Stores f of what Get reports (value or zero, presence). The counter grows only for a new key. The invariant is preserved |
| `CountedEngine.TypedMap.Clear` | typedmap.go:68-73 | Empty store and zero counter; the invariant holds afterwards whatever held before |
| `CountedEngine.TypedMap.Delete` | typedmap.go:77-84 | An absent key changes neither store nor counter. A present key is removed and the counter drops by one. The invariant is preserved |
| `CountedEngine.TypedMap.Keys` | typedmap.go:93-106 | Requires a non-negative Len, since Go's slice allocation panics on a negative capacity. Empty when Len is 0. For a positive Len, distinct keys, min(entries, Len+1) of them. Under the invariant that is every key exactly once, because the extra (Len+1)-th item cannot occur |
| `CountedEngine.TypedMap.Values` | typedmap.go:109-123 | Same requirement and bounds as Keys, one value per distinct key visited; under the invariant one value per entry |
| `CountedEngine.TypedMap.Entries` | typedmap.go:126-139 | Same requirement and bounds as Keys, with values[i] stored under keys[i]; under the invariant every entry once |
| `CountedEngine.TypedMap.Range` | typedmap.go:143-147 | The same stop-at-first-false trace as the exclusive-lock engine's Range |
| `CountedEngine.TypedMap.UpdateRange` | typedmap.go:152-163 | Same write rule as the exclusive-lock engine's UpdateRange. Writes go through unsafeSet on existing keys only, so the counter is unchanged and the invariant is preserved |
| `Scenarios.NewIsEmpty` | internal/mutex/typedmap_test.go:13-18 | A container built from a nil map has length 0 |
| `Scenarios.NewWithMapLoads` | internal/mutex/typedmap_test.go:19-37 | Every entry of the initial map loads back, absent keys do not, and the length is the initial map's |
| `Scenarios.StoreThenLoad` | internal/mutex/typedmap_test.go:50-59 | After Store(k, v), Load(k) returns (v, true), whatever the container held |
| `Scenarios.LoadOrStoreTwice` | internal/mutex/typedmap_test.go:61-80 | The first call stores (v1, false). The second returns (v1, true) and v1 stays stored |
| `Scenarios.LoadAndDeleteThenLoad` | internal/mutex/typedmap_test.go:82-95 | LoadAndDelete returns the stored value and true; a later Load finds nothing |
| `Scenarios.SwapTwice` | internal/mutex/typedmap_test.go:108-127 | On an empty map Swap returns (zero, false). The second Swap returns (first, true) and the second value is stored |
| `Scenarios.SwapUndone` | internal/mutex/map.go:54-60 | Swap is undone by swapping the previous value back, or by deleting the key when there was none: the map is restored |
| `Scenarios.CompareAndSwapStored` | internal/mutex/typedmap_test.go:129-142 | CompareAndSwap against the stored value succeeds and the new value loads back |
| `Scenarios.CompareAndDeleteStored` | internal/mutex/typedmap_test.go:144-164 | A mismatching CompareAndDelete fails and a matching one succeeds. Load then returns (zero, false) |
| `Scenarios.CompareAndDeleteLeavesOthers` | internal/mutex/map.go:91-103 | A successful CompareAndDelete removes its own key only; another key still loads its value |
| `Scenarios.NotComparableFails` | internal/mutex/typedmap_test.go:566-575 | With non-comparable values, CompareAndDelete and CompareAndSwap both fail and the value stays |
| `Scenarios.ComparableSucceeds` | internal/mutex/typedmap_test.go:576-591 | With comparable values: delete on a match, swap on a match, no swap on a mismatch |
| `Scenarios.LenAfterTwoStores` | internal/mutex/typedmap_test.go:261-272 | Length 0 at first, 2 after storing two different keys |
| `Scenarios.ClearEmpties` | internal/mutex/typedmap_test.go:593-605 | Len is 0 after Clear, whatever the length before |
| `Scenarios.UpdateIncrements` | internal/mutex/typedmap_test.go:274-306 | n increments through Update, starting from a stored 0, leave exactly n (the test's n*loops, without the goroutines) |
| `Scenarios.RangeCalls` | internal/mutex/typedmap_test.go:237-259 | An always-continue callback is called once per entry; an always-stop callback is called once on a non-empty map |
| `Scenarios.UpdateRangeStopKeepsValue` | internal/mutex/typedmap_test.go:308-370 | Writing 2 everywhere calls the callback once per entry. A callback that stops at once is called once, its value is discarded, and every entry still holds 2 |
| `Scenarios.SumOfFirstNaturals` | internal/mutex/typedmap_test.go:166-202 | Any duplicate-free listing of 0..n-1 sums to n(n-1)/2, whatever its order |
| `Scenarios.SnapshotSums` | internal/mutex/typedmap_test.go:204-235 | After storing i -> i for i in [0, n), Keys, Values and Entries each sum to n(n-1)/2: 4950 for the tests' n = 100 |
| `Scenarios.CounterFollowsStore` | typedmap.go:43-84 | Setting a key twice counts it once and deleting it twice uncounts it once. Len and Keys agree with the store |

## Left out

- Locking and atomics are not modelled: `sync.RWMutex`, `sync.Mutex` and `atomic.Int64`. Each method is one atomic sequential step, so the model says nothing about reader/writer exclusion, linearizability, or the deadlock when a callback re-enters the container.
- The concurrent tests are left out. Their sequential content is kept: `Scenarios.UpdateIncrements` is TestUpdate with one goroutine.
- The lock-free engine is not part of this model: internal/syncmap/syncmap.go and syncmap.go. It is a thin wrapper over `sync.Map`, which belongs to Go's standard library, outside this repository.
- `MutexEngine.TypedMap.New` always succeeds here. In Go, when V is an interface type (such as `any` or `error`), the zero value is a nil interface, `reflect.TypeOf` of it is nil, and calling `Comparable()` on it panics, so construction fails for such V. The model does not capture this panic: `valueComparable` is an argument, and the model has no notion of interface types.
- `CountedEngine.TypedMap.Get`, `Keys`, `Values`, `Entries`, `Range` and `UpdateRange` return normally here. In Go, they take keys and values out of a `sync.Map` with type assertions (`x.(V)`, `key.(K)`, `value.(V)`), and such an assertion panics on a nil interface value. So with an interface-typed V, a stored nil value makes `Get`, `Values`, `Entries`, `Range` and `UpdateRange` panic when they reach it. With an interface-typed K, a nil key does the same to `Keys`, `Entries`, `Range` and `UpdateRange`. The model has no interface types and does not capture these panics.
- `MutexEngine.TypedMap` and `CountedEngine.TypedMap` compare keys with Dafny's `==`, which is reflexive. Go's `==` on keys is not always reflexive. A NaN float key never equals itself, so in Go each Store of a NaN key adds a new entry, and Load and Delete of a NaN key miss. The model instead treats every key as equal to itself, so it proves for example that two Stores under the same key leave one entry. An interface-typed key whose dynamic type is unhashable (a slice, map or func) makes every Go map access panic, including the copy loop in New; the model returns normally. Neither case is captured.
- `reflect.DeepEqual` becomes Dafny `==` on a value type with equality. `reflect.TypeOf(z).Comparable()` becomes the `valueComparable` constructor argument. Go's deep-equality rules (pointers, slices, maps) are not modelled.
- Iteration order of Go maps is unspecified. The model picks keys arbitrarily and proves nothing about order.
- Callbacks are pure functions. A callback that counts or sums in Go is represented by the `visited` sequence that `Range`/`UpdateRange` return.
- `MutexEngine.TypedMap.Exclusive`: the Go callback mutates the raw map in place. Here it returns the new map. Aliasing of that raw map outside the lock is not captured.
- A nil Go map and an empty map are the same value here. Dafny maps are values, so the copy made by New cannot alias the caller's map. The model therefore does not exhibit the aliasing that the copying loop prevents.
- `CountedEngine.TypedMap`: the counter is an unbounded integer. The 64-bit atomic counter's overflow is not modelled, because it would need more than 2^63 entries.
- `CountedEngine.TypedMap.Keys`, `Values` and `Entries` are modelled for any non-negative counter, whether or not it agrees with the store. Under concurrency, Len and the store can disagree in Go. The model captures that disagreement only as a counter that differs from the store's size, not as a store that changes during the loop. A negative counter cannot arise in Go, because every decrement follows a successful presence check under the lock; with one, the slice allocations would panic, so these three methods require a non-negative counter.
- mutex.go holds interface declarations and the forwarding constructors `New()` and `NewWithMap(m)`. These are `MutexEngine.TypedMap.New` with the empty map and with `m`.
- Benchmarks and example_test.go are harnesses and are not modelled.
