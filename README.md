# Reactor data collections: a Dafny model

This project models the core of Reactor's data-core collections:

- **`OrderedAtomicList`** is a list that is re-sorted after every `add` and `remove`.
  - Its elements sit in a slot array that may hold nulls.
  - An index-aligned `int[]` caches each element's hash code.
  - `indexOf` binary-searches that cache.
  - `sort()` sorts the live prefix, then compacts every non-null slot into fresh arrays exactly `size()` long.
- **`ObservableMap`** is a map backed by a gs-collections `MutableMap`.
  - It reports a value to an optional `Observable` and an optional `Deferred` sink.
  - On `get` it fills a missing key from an optional default-value provider.
  - Its entries (`ObservableEntry`) write back to the shared backing map and are ordered by their keys' hash codes.
- **`DataUtils.nextClosestPowerOf2`** rounds a requested capacity up to a power of two, on 32-bit Java `int`s.
- **`UnsafeUtils.binarySearch`** is an interpolation-then-midpoint binary search over a sorted `int[]` range.

Layout, one module per file:

- `optional.dfy`: `Option`, `Error` and `Outcome`.
- `data_utils.dfy`: `DataUtils`. A Java `int` is a `bv32`.
- `unsafe_utils.dfy`: `UnsafeUtils`.
- `slots.dfy`: `Slots`. It defines `Present`, the non-null view of a slot array, and its lemmas.
- `ordered_atomic_list.dfy`: `OrderedCollection`. It holds the class `OrderedAtomicList` over two arrays.
- `observable_map.dfy`: `ObservableCollection`. It holds the classes `EntryStore` (the backing map), `ObservableEntry` and `ObservableMap`.

The model is sequential:

- A lock is absent.
- A compare-and-set always succeeds.
- Atomic arrays and field updaters are plain arrays and fields.

Java `null` is `Option.None`. Equality on values stands for Java reference identity (`==`).

The sinks are not called. Instead, a ghost log records what each sink receives. A second ghost log records every key the default-value provider is applied to.

In these places the code behaves in ways a reader might not expect. The model follows the code:

- The list is ordered by its elements' `compareTo`. Its hash array is sorted whenever that order agrees with `hashCode`, which `ObservableEntry` guarantees.
- The map keeps its entries in a gs-collections `MutableMap`.
- `put` goes through `Map.replace`, so it never inserts a new key (see Findings).
- `remove`, `clear` and `putAll` do not notify.
- After `add` or `remove`, the arrays shrink to exactly `size()` slots.
- `get(index)` reads any slot of the backing array. It returns null past the live prefix and throws past the array.

## Model

| member | source | states |
|---|---|---|
| DataUtils.NextClosestPowerOf2 | data-core/src/main/java/reactor/data/util/DataUtils.java:34-42 | for 1..2^30 the result is a power of two, at least `size`, and less than twice `size`; 0 and negatives give 2; sizes past 2^30 and Integer.MIN_VALUE wrap to Integer.MIN_VALUE |
| DataUtils.Smear | data-core/src/main/java/reactor/data/util/DataUtils.java:35-40 | the OR-shift cascade keeps every bit of its input and is closed under shifting right, so every bit below the top set bit is set |
| DataUtils.PowerOf2IsFixedPoint | data-core/src/main/java/reactor/data/util/DataUtils.java:34-42 | a power of two up to 2^30 rounds to itself |
| DataUtils.RoundingIsIdempotent | data-core/src/main/java/reactor/data/util/DataUtils.java:34-42 | rounding twice equals rounding once for sizes 1..2^30 |
| DataUtils.CapacityFits | data-core/src/main/java/reactor/data/util/DataUtils.java:34-42 | a size up to 2^30 gets a positive capacity of at least the size and at most 2^30 |
| DataUtils.CapacityFor | data-core/src/main/java/reactor/data/core/collection/OrderedAtomicList.java:61-64 | the collection constructor's capacity is a positive array length no larger than 2^30 |
| DataUtils.Examples | data-core/src/main/java/reactor/data/util/DataUtils.java:34-42 | 1→1, 3→4, 4→4, 0→2, -5→2, 2^30+1→Integer.MIN_VALUE |
| UnsafeUtils.Wrap32 | data-core/src/main/java/reactor/data/util/UnsafeUtils.java:113 | Java `int` addition: the result is in the 32-bit range and congruent to the true sum modulo 2^32 |
| UnsafeUtils.MidpointAsWritten | data-core/src/main/java/reactor/data/util/UnsafeUtils.java:113 | `(min + max) >> 1` on Java `int`s: a pivot in `[min, max]` as long as the sum does not wrap |
| UnsafeUtils.MidpointAsWrittenOverflows | data-core/src/main/java/reactor/data/util/UnsafeUtils.java:113 | `(min + max) >> 1` is negative, outside `[min, max]`, for min = 2^30 and max = 2^30 + 2 |
| UnsafeUtils.Midpoint | data-core/src/main/java/reactor/data/util/UnsafeUtils.java:112-113 | the pivot lies in `[min, max]` and splits the range within one |
| UnsafeUtils.BinarySearch | data-core/src/main/java/reactor/data/util/UnsafeUtils.java:83-139 | on a sorted range: an empty range gives `-1 - offset`; a non-negative result is an in-range index holding `key`; a negative one is `-(ins + 1)` with everything before `ins` smaller and everything from `ins` on larger; the result is non-negative exactly when the key occurs |
| OrderedCollection.CopyOf | data-core/src/main/java/reactor/data/core/collection/OrderedAtomicList.java:178-179 | a fresh array of the new length that keeps the old prefix and pads the rest |
| OrderedCollection.SortSlots | data-core/src/main/java/reactor/data/core/collection/OrderedAtomicList.java:148 | a permutation of the slot array that leaves slots from `size` on alone and makes the first `size` slots non-decreasing under `compareTo` |
| OrderedCollection.InsertSlot | data-core/src/main/java/reactor/data/core/collection/OrderedAtomicList.java:148 | one insertion step extends the sorted prefix by one slot and permutes the array |
| OrderedCollection.ArraysBinarySearch | data-core/src/main/java/reactor/data/core/collection/OrderedAtomicList.java:83 | a hit is an in-range index holding the key; a miss encodes an in-range insertion point; on a sorted range the search is complete |
| OrderedCollection.Compact | data-core/src/main/java/reactor/data/core/collection/OrderedAtomicList.java:149-161 | fresh arrays exactly `size` long holding the non-null slots in order, with each element's hash code beside it |
| OrderedCollection.SortedSlotsCompact | data-core/src/main/java/reactor/data/core/collection/OrderedAtomicList.java:148-157 | when the sorted prefix holds every non-null slot, the compaction is sorted |
| OrderedCollection.SortedCompaction | data-core/src/main/java/reactor/data/core/collection/OrderedAtomicList.java:148-161 | after sorting the live prefix, the compaction has exactly `size` elements, is sorted, and is a permutation of the non-null slots before the sort |
| OrderedCollection.OrderedAtomicList.HashesSortedWhenOrderAgrees | data-core/src/main/java/reactor/data/core/collection/OrderedAtomicList.java:80-89 | the hash cache is sorted, which binary search needs, whenever the order agrees with hash codes |
| OrderedCollection.OrderedAtomicList.constructor | data-core/src/main/java/reactor/data/core/collection/OrderedAtomicList.java:54-59 | an empty valid list with capacity 2 |
| OrderedCollection.OrderedAtomicList.WithCapacity | data-core/src/main/java/reactor/data/core/collection/OrderedAtomicList.java:68-72 | an empty valid list with capacity `nextClosestPowerOf2(n)` |
| OrderedCollection.OrderedAtomicList.FromCollection | data-core/src/main/java/reactor/data/core/collection/OrderedAtomicList.java:61-66 | a valid list holding exactly the collection's elements, as a multiset |
| OrderedCollection.OrderedAtomicList.AppendAll | data-core/src/main/java/reactor/data/core/collection/OrderedAtomicList.java:65 | adding each element in turn keeps the list valid and ends with exactly the given elements |
| OrderedCollection.OrderedAtomicList.Size | data-core/src/main/java/reactor/data/core/collection/OrderedAtomicList.java:126-129 | the number of elements |
| OrderedCollection.OrderedAtomicList.Get | data-core/src/main/java/reactor/data/core/collection/OrderedAtomicList.java:106-110 | the element at `index` in sorted order, or null past the live prefix |
| OrderedCollection.OrderedAtomicList.IndexOf | data-core/src/main/java/reactor/data/core/collection/OrderedAtomicList.java:80-89 | a hit is a live slot whose element has `o`'s hash code; a miss is at least `-(size + 1)`; with sorted hashes the result is non-negative exactly when some element has that hash |
| OrderedCollection.OrderedAtomicList.Contains | data-core/src/main/java/reactor/data/core/collection/OrderedAtomicList.java:74-78 | false for null; true only if some element shares `o`'s hash code, and, with sorted hashes, exactly then |
| OrderedCollection.OrderedAtomicList.Expand | data-core/src/main/java/reactor/data/core/collection/OrderedAtomicList.java:168-185 | the elements are unchanged; a list with spare slots keeps its arrays, a full one gets fresh arrays of twice the length with the old contents as prefix |
| OrderedCollection.OrderedAtomicList.ExpandGrowing | data-core/src/main/java/reactor/data/core/collection/OrderedAtomicList.java:168-185 | `expand()` corrected: the same, except an empty array grows to 2; afterwards the list always has a free slot |
| OrderedCollection.ExpandStallsAfterRemovingLast | data-core/src/main/java/reactor/data/core/collection/OrderedAtomicList.java:96 | after the only element is removed, size and capacity are 0 and `expand()` keeps the capacity 0, so the loop in `add` never ends |
| OrderedCollection.ExpandGrowingAfterRemovingLast | data-core/src/main/java/reactor/data/core/collection/OrderedAtomicList.java:174-175 | the same sequence with the corrected expand leaves capacity 2 |
| OrderedCollection.OrderedAtomicList.Sort | data-core/src/main/java/reactor/data/core/collection/OrderedAtomicList.java:143-166 | the list becomes valid and sorted, its elements are a permutation of the non-null slots before, and the arrays are exactly `size` long |
| OrderedCollection.OrderedAtomicList.Add | data-core/src/main/java/reactor/data/core/collection/OrderedAtomicList.java:91-104 | a null element is refused with nothing changed; otherwise, after growing the arrays with the corrected expand, the list stays valid and sorted, and its elements become the old ones with element `index` overwritten, or with the new element appended when `index == size()` |
| OrderedCollection.OrderedAtomicList.Append | data-core/src/main/java/reactor/data/core/collection/OrderedAtomicList.java:65 | `add(e)`, growing the arrays with the corrected expand, grows the list by one element, `e` |
| OrderedCollection.OrderedAtomicList.Store | data-core/src/main/java/reactor/data/core/collection/OrderedAtomicList.java:98-103 | writing the slot and re-sorting overwrites or appends exactly that element |
| OrderedCollection.OrderedAtomicList.Remove | data-core/src/main/java/reactor/data/core/collection/OrderedAtomicList.java:112-124 | past the live prefix: null and nothing changes; otherwise returns the element at `index` and the list keeps exactly the others, sorted |
| Slots.Present | data-core/src/main/java/reactor/data/core/collection/OrderedAtomicList.java:152-157 | the compaction of a slot array is never longer than the array |
| Slots.PresentPermutation | data-core/src/main/java/reactor/data/core/collection/OrderedAtomicList.java:148-157 | permuting the slots permutes the compacted elements |
| Slots.PresentHeld | data-core/src/main/java/reactor/data/core/collection/OrderedAtomicList.java:152-157 | compacting slots that hold a list's elements gives back those elements |
| Slots.ClearHeld | data-core/src/main/java/reactor/data/core/collection/OrderedAtomicList.java:116-122 | nulling element `i`'s slot leaves the other elements, in order |
| ObservableCollection.EntryOrderSortsByHash | data-core/src/main/java/reactor/data/core/collection/ObservableMap.java:200-203 | ordering entries by key hash is total and transitive and agrees with the hash code, so a list of entries keeps its hash cache sorted |
| ObservableCollection.ObservableEntry.HashCode | data-core/src/main/java/reactor/data/core/collection/ObservableMap.java:195-198 | an entry's hash code is its key's hash code |
| ObservableCollection.ObservableEntry.CompareTo | data-core/src/main/java/reactor/data/core/collection/ObservableMap.java:195-203 | the sign follows the two keys' hash codes, zero exactly on equal hash codes, and is antisymmetric |
| ObservableCollection.ObservableEntry.constructor | data-core/src/main/java/reactor/data/core/collection/ObservableMap.java:168-172 | an entry with the given key and value, sharing the map's store |
| ObservableCollection.ObservableEntry.SetValue | data-core/src/main/java/reactor/data/core/collection/ObservableMap.java:185-193 | for a key present in the store, the entry and the store both end up holding the new value, and the store's previous value is returned |
| ObservableCollection.Notifications | data-core/src/main/java/reactor/data/core/collection/ObservableMap.java:155-162 | one record per non-null sink, carrying the key and value, the Observable's before the Deferred's |
| ObservableCollection.ObservableMap.constructor | data-core/src/main/java/reactor/data/core/collection/ObservableMap.java:61-67 | an empty map with the given sinks and provider, and nothing notified |
| ObservableCollection.ObservableMap.Clear | data-core/src/main/java/reactor/data/core/collection/ObservableMap.java:87-90 | the store is empty and nothing is notified |
| ObservableCollection.ObservableMap.Remove | data-core/src/main/java/reactor/data/core/collection/ObservableMap.java:98-102 | the key is dropped, its previous value is returned, and nothing is notified |
| ObservableCollection.ObservableMap.PutAll | data-core/src/main/java/reactor/data/core/collection/ObservableMap.java:130-133 | every key of `m` maps to its value, other keys are unchanged, and nothing is notified |
| ObservableCollection.ObservableMap.Size | data-core/src/main/java/reactor/data/core/collection/ObservableMap.java:135-138 | the number of mappings |
| ObservableCollection.ObservableMap.KeySet | data-core/src/main/java/reactor/data/core/collection/ObservableMap.java:145-148 | exactly the mapped keys |
| ObservableCollection.ObservableMap.NotifyValue | data-core/src/main/java/reactor/data/core/collection/ObservableMap.java:155-162 | appends exactly the entry's records for the non-null sinks |
| ObservableCollection.ObservableMap.SafeValue | data-core/src/main/java/reactor/data/core/collection/ObservableMap.java:110-116 | without a provider: null, with no call and no notification; with one: the provider's value after exactly one call, notified only when not null |
| ObservableCollection.ObservableMap.Get | data-core/src/main/java/reactor/data/core/collection/ObservableMap.java:104-118 | a present key, even one mapped to null, gives its stored value with no provider call and no notification; an absent key gives the provider's value after one call, stored and notified once when not null, and a null default is kept as a null mapping exactly when the store keeps null mappings; the result is what the store then holds |
| ObservableCollection.ObservableMap.ContainsKey | data-core/src/main/java/reactor/data/core/collection/ObservableMap.java:92-96 | true exactly when a non-null value is stored, or the key is absent and the provider supplies a value; the provider call, the stored value, the notifications and the rest of the store are exactly those of `get` |
| ObservableCollection.ObservableMap.Put | data-core/src/main/java/reactor/data/core/collection/ObservableMap.java:120-128 | returns the previous value; only an existing key is updated; notifies unless the previous value is the very same object |
| ObservableCollection.ObservableMap.PutInserting | data-core/src/main/java/reactor/data/core/collection/ObservableMap.java:120-128 | `put` with Map.put semantics: the key always ends up mapped to the value, with the same return value and notifications |
| ObservableCollection.DefaultIsProvidedOnce | data-core/src/test/java/reactor/data/core/collection/ObservableMapTests.java:87-102 | two gets of a missing key both return the provider's value, and the provider is applied once |
| ObservableCollection.NullDefaultProvidedOncePerMapping | data-core/src/main/java/reactor/data/core/collection/ObservableMap.java:106-116 | two gets with a provider that returns null both return null; the provider is asked once when the store keeps the null mapping, twice when it does not |
| ObservableCollection.PutOnAbsentKeyIsLost | data-core/src/main/java/reactor/data/core/collection/ObservableMap.java:122-125 | a put on an empty map stores nothing, so a later get finds nothing, yet both sinks were notified |
| ObservableCollection.PutInsertingKeepsValue | data-core/src/main/java/reactor/data/core/collection/ObservableMap.java:122-125 | with Map.put semantics a later get finds the put value |
| ObservableCollection.RepeatedPutNotifications | data-core/src/test/java/reactor/data/core/collection/ObservableMapTests.java:57-67 | putting the same value twice notifies twice as written, but only once with Map.put semantics |

## Left out

- Concurrency:
  - the `ReentrantLock`, the volatile fields and the atomic array's visibility;
  - a compare-and-set that fails in `remove`;
  - a replace in `setValue` that loses a race.

  The model is single-threaded.
- Exceptions the source swallows or throws are ruled out by preconditions.
  - `sort()` swallows every exception through `return` in `finally`. With two or more live slots, a null among them would make `Arrays.sort` throw.
    - `OrderedCollection.OrderedAtomicList.Sort` and `OrderedCollection.OrderedAtomicList.Remove` require that this cannot happen.
    - As a result, `remove` of an inner index is modelled only while at most two elements remain.
  - `OrderedCollection.OrderedAtomicList.Add` (for a non-null element) and `OrderedCollection.OrderedAtomicList.Remove` require `0 <= index`. Java throws IndexOutOfBoundsException for a negative index, from the atomic array's `set` in `add` and its `get` in `remove`.
  - `OrderedCollection.OrderedAtomicList.Add` requires `index <= size()`. This keeps nulls out of the sorted range. It also rules out a hang: with `size() < values.length() <= index`, for example `new OrderedAtomicList().add(5, x)`, `expand()` returns without growing, so the `while` loop in `add` never ends.
  - `OrderedCollection.OrderedAtomicList.Get` requires an index inside the array. Java throws past it.
  - `OrderedCollection.OrderedAtomicList.WithCapacity` requires a non-negative capacity. Java throws NegativeArraySizeException otherwise.
  - `OrderedCollection.OrderedAtomicList.Add`, `OrderedCollection.OrderedAtomicList.Append`, `OrderedCollection.OrderedAtomicList.Expand` and `OrderedCollection.OrderedAtomicList.ExpandGrowing` require that doubling the arrays stays below 2^31 (`2 * values.Length < 2^31`) whenever they must grow. On a full list of 2^30 slots, `oldLen * 2` wraps to Integer.MIN_VALUE and `Arrays.copyOf` throws NegativeArraySizeException, so `add` throws. That path is not modelled.
  - `OrderedCollection.OrderedAtomicList.IndexOf` takes a non-null element. `indexOf(null)` throws NullPointerException at `o.hashCode()`; only `contains` checks for null first.
  - `OrderedCollection.OrderedAtomicList.FromCollection` requires at most 2^30 elements. For a larger collection, `nextClosestPowerOf2(c.size())` wraps to Integer.MIN_VALUE and allocating the arrays throws NegativeArraySizeException.
  - `OrderedCollection.OrderedAtomicList.FromCollection` takes a sequence of non-null elements. A collection holding a null makes `add` fail its `Assert.notNull` check, so the constructor throws.
- `OrderedCollection.OrderedAtomicList.FromCollection` takes the collection as a sequence and its `size()` as a 32-bit `count`. Its final order and layout are stated only through the class invariant and the multiset of its elements.
- `OrderedCollection.OrderedAtomicList.IndexOf`: `Arrays.binarySearch` cannot throw on a valid range, so the `-1` and `-2` catch paths are not modelled.
- `values()` and `iterator()` read the array through `Unsafe`. They are not part of this model.
- Library code is modelled by its documented contract:
  - `Arrays.sort` is a stable insertion sort;
  - `Arrays.binarySearch` and `Arrays.copyOf` are written out;
  - the gs-collections `ConcurrentHashMapUnsafe` is `EntryStore`.
- Whether `getIfAbsentPut` keeps a null returned by its factory as a null mapping depends on the backing map, which is not part of this model. The store's `keepsNullMappings` flag makes that choice. Either way, a key that is present, null mapping included, never reaches the factory.
- `ObservableCollection.ObservableMap.Put`, `ObservableCollection.ObservableMap.PutAll` and `ObservableCollection.ObservableEntry.SetValue` take non-null values. A null value handed to the backing map is not modelled.
- `ObservableCollection.ObservableEntry.SetValue` compares by identity in its conditional replace, where `ConcurrentMap.replace` uses `equals`. The store ends up the same either way. But when the first replace succeeds, Java returns the entry's old value, which is `equals` to the store's but may be a different object. The model returns the store's.
- `ObservableCollection.ObservableEntry.SetValue` requires the key to be in the store. With the key absent, every conditional replace fails and the retry loop never ends. Dafny cannot state non-termination, so this path is shown only through `EntryStore.ReplaceIf`, which always fails on an absent key.
- `entrySet()`, `values()`, `getObservable()` and `getDeferred()` are views and accessors of the backing map and the sinks. They are not modelled.
- What the sinks do with a notification (Observable consumers, Deferred composition) is not modelled. Only the records they receive are.
- Hash codes and `compareTo` of the elements and keys are parameters: `hashCode` and `keyHash` as functions, and `compareTo` as a function required to be a total, transitive order.
- `UnsafeUtils.BinarySearch`: the floating-point interpolated pivot of the first three steps is modelled as an arbitrary index in `[min, max]`. Float arithmetic is not modelled.
  - The assumption holds for ranges of up to about 2^24 elements.
  - In longer ranges, rounding can give `max + 1`. Example: `max - min = 2^24 + 3`, `minVal = 0`, `maxVal = 2^30`, `key = 2^30 - 1`. The search then reads past the range, and past the array when the range ends it.
  - The precondition asks for a sorted range; the source leaves the result unspecified otherwise.
- `UnsafeUtils.BinarySearch` uses `UnsafeUtils.Midpoint`, the corrected pivot, rather than the overflowing one (see Findings).
- `OrderedCollection.OrderedAtomicList.Add` and `OrderedCollection.OrderedAtomicList.Append` grow the arrays through `OrderedAtomicList.ExpandGrowing`, the corrected expand, not through `OrderedAtomicList.Expand` as written (see Findings). The two differ only on a zero-length array, which `add(x)` then `remove(0)` produces. On that array the source's `add` never returns, because `expand()` keeps the length 0 and the `while` loop at OrderedAtomicList.java:96 never exits. The model's `Add` and `Append` instead grow the array to 2 and succeed. The as-written behaviour is stated by `OrderedCollection.ExpandStallsAfterRemovingLast`.

## Findings

| source | as written | input that shows it | evidently intended | confidence | as-written member | corrected member |
|---|---|---|---|---|---|---|
| data-core/src/main/java/reactor/data/util/UnsafeUtils.java:113 | `pivot = (min + max) >> 1` on `int`s overflows when `min + max >= 2^31` and gives a negative pivot | a sorted array longer than 2^30 + 2 elements with min = 2^30 and max = 2^30 + 2 after the first three steps: the pivot is negative and `array[pivot]` throws | `(min + max) >>> 1`, a pivot in `[min, max]` | high for arrays longer than 2^30; not executed | UnsafeUtils.MidpointAsWrittenOverflows | UnsafeUtils.Midpoint |
| data-core/src/main/java/reactor/data/core/collection/OrderedAtomicList.java:174-175 | `newLen = oldLen * 2` leaves an empty array empty, and `sort()` shrinks the arrays to `size()`, which is 0 once the last element is removed | `add(x)`, then `remove(0)`, then `add(y)`: `while(index >= values.length()) { expand(); }` never ends | an empty array grows, e.g. to the default capacity 2 | high; not executed | OrderedCollection.ExpandStallsAfterRemovingLast | OrderedCollection.OrderedAtomicList.ExpandGrowing |
| data-core/src/main/java/reactor/data/core/collection/ObservableMap.java:123 | `put` calls `entries.replace(key, value)`, which changes only an existing mapping, so a new key is never stored, yet it is notified | `put(k, v)` on an empty map without a provider, then `get(k)` returns null | Map.put: the key is mapped to the value afterwards | medium (the `exposesEventsOnUpdates` test expects two notifications for two identical puts, which only the as-written behaviour gives); not executed | ObservableCollection.PutOnAbsentKeyIsLost | ObservableCollection.ObservableMap.PutInserting |
