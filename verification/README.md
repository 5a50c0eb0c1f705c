# Robin-Hood open addressing in hppcrt, and BitUtil

This project models, in Dafny, two parts of hppcrt:

- The hash engine shared by two classes:
  - `KTypeVTypeOpenCustomHashMap`, the map with a custom hashing strategy;
  - `KTypeHashSet`, in the Robin-Hood form generated for generic keys.
- The population counts and power-of-two rounding of `BitUtil`.

## The hash engine

Both containers keep their entries in parallel arrays. The map has `keys`, `values` and `hash_cache`; the set has `keys` and `hash_cache`.

- **Probing.** A key's ideal slot is `REHASH(key) & mask`, and `hash_cache[i]` caches the ideal slot of `keys[i]`. Probing is linear, wrapping at the end of the table.
- **Insertion.** `put` and `add` use Robin-Hood ordering. An entry that has travelled further than the occupant of a slot takes that slot, and the occupant is carried on.
- **Lookup.** It stops early at an entry nearer to its own ideal slot than the searched key would be.
- **Removal.** It closes the gap by backward shift (`shiftConflictingKeys`).
- **The empty key.** The key 0/null marks empty slots, so it is kept out of band. It lives in `allocatedDefaultKey`, plus `allocatedDefaultKeyValue` in the map.

### How the model is organised

- **`Probing`** holds the shared table invariant over snapshots (`seq`) of the arrays. The invariant is:
  - `WellSized`;
  - `CachedIdeal`: the cache holds each key's ideal slot;
  - `Distinct`: no key is stored twice;
  - `OrderedExcept`: the local Robin-Hood ordering. An entry displaced by `d > 0` follows an occupied slot whose entry is displaced by at least `d - 1`.

  `Probing` also holds the lemmas that each loop step keeps that invariant, and the abstract contents `KeySet` and `Mapping`.
- **`ProbeLoops`** defines each probe loop as a recursive function on the snapshots:
  - `Carried`: re-insertion during growth;
  - `Place`: the slow path of `put`;
  - `Shifted`: the backward shift.

  Lemmas prove what each loop's result holds.
- **`Maps.OpenCustomHashMap`** and **`Sets.HashSet`** are classes over arrays.
  - Every loop of the source is a `while` loop. The probe loops (`put`'s and `add`'s loop, the re-insertion, the backward shift) are proved to leave the arrays exactly as `Place`, `Admit`, `Carried` or `Shifted` says. The outer loops of the growth and of `removeAll` are proved against the abstract contents (`Mapping`, `KeySet`) instead.
  - Every public operation is specified against `Contents()`: a `map` for the map, a `set` for the set, with the out-of-band empty key included.
  - The set's `add` loop tests the distance before the key, so it is its own function, `Admit`. `AdmitIsPlace` proves that it takes the same steps as the map's loop.

### Abstractions

- **Hashing.** Hashing, including the strategy's hash code, the per-instance perturbation and the bit mixer, is one total function `hash: K -> int`, given to the constructor. Key equality is Dafny's `==`.
- **Slot arithmetic.** Tables have power-of-two lengths, so `x & mask` is written as Dafny's `%`.
- **Growth sizes.** Buffer sizes come from `HashContainers.minBufferSize`, `nextBufferSize` and `expandAtCount`, which are not part of this model.
  - The map doubles its buffers when it grows, as its class documentation says. Its `resizeAt` formula (`allocateBuffers`) is modelled with a real load factor.
  - The map's constructor receives its buffer size. It must be a power of two with `capacity * loadFactor >= 2`. On such tables doubling always raises `resizeAt` (`DoublingRaises`). From two slots it does not (`DoublingFromTwoStalls`).
  - The set's `add` receives the grown capacity and its threshold.
  - The set's constructor receives its capacity and threshold.

BitUtil works on Java `long` words as `bv64` and on `int` as `bv32`. The window end `wordOffset + numWords` is a wrapping `int` sum.

## Model

Path prefixes in the source column:
- `M` = `hppcrt/src/main/templates/com/carrotsearch/hppcrt/maps/KTypeVTypeOpenCustomHashMap.java`;
- `S` = `hppcrt/src/main/templates/com/carrotsearch/hppcrt/sets/KTypeHashSet.java`;
- `B` = `hppcrt-core/src/main/java/com/carrotsearch/hppcrt/BitUtil.java`.

The table cells carry the full paths.

| member | source | states |
|---|---|---|
| BitUtil.WrapInt32 | hppcrt-core/src/main/java/com/carrotsearch/hppcrt/BitUtil.java:44 | The result of `wordOffset + numWords` is an `int` congruent to the exact sum modulo 2^32, and equals it when the sum fits. |
| BitUtil.PopArray | hppcrt-core/src/main/java/com/carrotsearch/hppcrt/BitUtil.java:42-48 | When the window `[wordOffset, end)` is empty or lies inside the array, the result is the sum of `Long.bitCount(arr[i])` over it; an empty window counts 0. Otherwise, and only then, the result is the `ArrayIndexOutOfBoundsException`. The array is not modified. |
| BitUtil.PopCombined | hppcrt-core/src/main/java/com/carrotsearch/hppcrt/BitUtil.java:52-88 | The loop shared by the four two-array counts sums `bitCount(op(arr1[i], arr2[i]))` over the window, reading both arrays only. It throws exactly when the window is not empty and leaves either array. |
| BitUtil.PopIntersect | hppcrt-core/src/main/java/com/carrotsearch/hppcrt/BitUtil.java:52-58 | The sum of `bitCount(arr1[i] & arr2[i])` over the window, or the index exception exactly when the window is not empty and leaves either array; neither array is modified. |
| BitUtil.PopUnion | hppcrt-core/src/main/java/com/carrotsearch/hppcrt/BitUtil.java:62-68 | The sum of `bitCount(arr1[i] \| arr2[i])` over the window, or the index exception exactly when the window is not empty and leaves either array; neither array is modified. |
| BitUtil.PopAndNot | hppcrt-core/src/main/java/com/carrotsearch/hppcrt/BitUtil.java:72-78 | The sum of `bitCount(arr1[i] & ~arr2[i])` over the window, or the index exception exactly when the window is not empty and leaves either array; neither array is modified. |
| BitUtil.PopXor | hppcrt-core/src/main/java/com/carrotsearch/hppcrt/BitUtil.java:82-88 | The sum of `bitCount(arr1[i] ^ arr2[i])` over the window, or the index exception exactly when the window is not empty and leaves either array; neither array is modified. |
| BitUtil.BitCountInclusionExclusion | hppcrt-core/src/main/java/com/carrotsearch/hppcrt/BitUtil.java:50-88 | Per word: \|A or B\| + \|A and B\| = \|A\| + \|B\|; \|A xor B\| + 2\|A and B\| = \|A\| + \|B\|; \|A and not B\| + \|A and B\| = \|A\|. These are the cardinalities the comments promise. |
| BitUtil.PopRangeInclusionExclusion | hppcrt-core/src/main/java/com/carrotsearch/hppcrt/BitUtil.java:41-88 | Over any window, the same three identities tie `pop_union`, `pop_xor` and `pop_andnot` to `pop_intersect` and `pop_array` of each array. |
| BitUtil.CascadeKeepsPromise32 | hppcrt-core/src/main/java/com/carrotsearch/hppcrt/BitUtil.java:90-100 | Decrement, or-shift cascade, increment: 0 gives 0; each v in [1, 2^30] gives the power of two in [v, 2v), which is v itself when v is a power of two; v in (2^30, 2^31) gives `Integer.MIN_VALUE`, which gives itself; other negative inputs give 0. |
| BitUtil.NextHighestPowerOfTwoInt | hppcrt-core/src/main/java/com/carrotsearch/hppcrt/BitUtil.java:91-100 | The method's `v--`, five or-shifts and `v++` keep the promise of `CascadeKeepsPromise32` on every `int`. |
| BitUtil.CascadeKeepsPromise64 | hppcrt-core/src/main/java/com/carrotsearch/hppcrt/BitUtil.java:102-113 | The same promise for `long`, with 2^62 and `Long.MIN_VALUE`. |
| BitUtil.NextHighestPowerOfTwoLong | hppcrt-core/src/main/java/com/carrotsearch/hppcrt/BitUtil.java:103-113 | The method's `v--`, six or-shifts and `v++` keep that promise on every `long`. |
| Probing.NextSlot | hppcrt/src/main/templates/com/carrotsearch/hppcrt/maps/KTypeVTypeOpenCustomHashMap.java:320 | `(slot + 1) & mask` stays in the table. |
| Probing.PrevSlot | hppcrt/src/main/templates/com/carrotsearch/hppcrt/maps/KTypeVTypeOpenCustomHashMap.java:320 | The previous slot, wrapping; its next slot is `slot`. |
| Probing.ProbeDistance | hppcrt/src/main/templates/com/carrotsearch/hppcrt/maps/KTypeVTypeOpenCustomHashMap.java:2109-2125 | `probe_distance` lies in `[0, n)`. Advancing that many slots from the cached ideal slot lands on `slot`. |
| Probing.IdealSlot | hppcrt/src/main/templates/com/carrotsearch/hppcrt/maps/KTypeVTypeOpenCustomHashMap.java:241 | `REHASH(key) & mask` is a slot of the table. |
| Probing.Chain | hppcrt/src/main/templates/com/carrotsearch/hppcrt/maps/KTypeVTypeOpenCustomHashMap.java:1054-1066 | Under the Robin-Hood ordering, every slot from an entry's ideal slot up to the entry is occupied. The slot `t` steps along holds an entry displaced by at least `t`. |
| Probing.DistBound | hppcrt/src/main/templates/com/carrotsearch/hppcrt/maps/KTypeVTypeOpenCustomHashMap.java:2109-2125 | While a slot is empty, no entry is displaced by more than n - 2. |
| Probing.SearchMiss | hppcrt/src/main/templates/com/carrotsearch/hppcrt/maps/KTypeVTypeOpenCustomHashMap.java:1054-1068 | The early exit of a lookup is sound. A search that meets an empty slot, or an entry displaced less than the searched key would be, may conclude that the key is stored nowhere. |
| Probing.ProbeStep | hppcrt/src/main/templates/com/carrotsearch/hppcrt/maps/KTypeVTypeOpenCustomHashMap.java:1054-1066 | Passing a slot holding another key keeps the search state, and the next slot is one step further. |
| Probing.CarrySwapTable | hppcrt/src/main/templates/com/carrotsearch/hppcrt/maps/KTypeVTypeOpenCustomHashMap.java:294-317 | Swapping the carried key into the slot of a less displaced entry keeps the table invariant. This covers cached ideal slots, distinct keys and ordering. |
| Probing.InsertSwap | hppcrt/src/main/templates/com/carrotsearch/hppcrt/maps/KTypeVTypeOpenCustomHashMap.java:294-317 | The swap keeps the insertion state with the displaced entry now carried. The slots hold as many keys as before, and the displaced key is absent from them. |
| Probing.InsertSettle | hppcrt/src/main/templates/com/carrotsearch/hppcrt/maps/KTypeVTypeOpenCustomHashMap.java:335-341 | Storing the carried key and its ideal slot in the empty slot reached keeps the invariant and adds one key. |
| Probing.PlaceFound | hppcrt/src/main/templates/com/carrotsearch/hppcrt/maps/KTypeVTypeOpenCustomHashMap.java:282-288 | `put`'s loop can only meet its key before any swap. Overwriting the value there replaces exactly that key's value. |
| Probing.PlaceEnd | hppcrt/src/main/templates/com/carrotsearch/hppcrt/maps/KTypeVTypeOpenCustomHashMap.java:280-329 | When `put`'s loop reaches an empty slot, the key was not stored. The slots plus the carried pair then hold the old pairs plus the new one. |
| Probing.ShiftStart | hppcrt/src/main/templates/com/carrotsearch/hppcrt/maps/KTypeVTypeOpenCustomHashMap.java:815-829 | Opening a gap at an occupied slot of a valid table starts the shift loop in its invariant. |
| Probing.ShiftOnlyAdjacent | hppcrt/src/main/templates/com/carrotsearch/hppcrt/maps/KTypeVTypeOpenCustomHashMap.java:855-857 | Only the slot right after the gap can hold an entry with `shift >= distance`. |
| Probing.ShiftMove | hppcrt/src/main/templates/com/carrotsearch/hppcrt/maps/KTypeVTypeOpenCustomHashMap.java:857-871 | Moving that entry and its cached ideal slot into the gap keeps the shift invariant, with the gap one slot on. |
| Probing.ShiftEnd | hppcrt/src/main/templates/com/carrotsearch/hppcrt/maps/KTypeVTypeOpenCustomHashMap.java:837-878 | When the scan meets an empty slot, blanking the gap restores the full table invariant. |
| Probing.FreeSlotExists | hppcrt/src/main/templates/com/carrotsearch/hppcrt/maps/KTypeVTypeOpenCustomHashMap.java:715-717 | Fewer distinct keys than slots leaves an empty slot, so every probe loop ends. |
| Probing.EmptyTable | hppcrt/src/main/templates/com/carrotsearch/hppcrt/maps/KTypeVTypeOpenCustomHashMap.java:697-712 | Freshly allocated arrays form a valid table with no keys and no pairs. |
| ProbeLoops.CarriedLoads | hppcrt/src/main/templates/com/carrotsearch/hppcrt/maps/KTypeVTypeOpenCustomHashMap.java:637-680 | From any state of an insertion carrying an absent pair, the re-insertion loop ends with a valid table holding the target pairs, in one more slot. |
| ProbeLoops.Reinserted | hppcrt/src/main/templates/com/carrotsearch/hppcrt/maps/KTypeVTypeOpenCustomHashMap.java:625-687 | Re-inserting an absent key from its ideal slot keeps the table valid and adds exactly that pair. |
| ProbeLoops.Placed | hppcrt/src/main/templates/com/carrotsearch/hppcrt/maps/KTypeVTypeOpenCustomHashMap.java:280-325 | `put`'s slow loop replaces a value exactly when the key was stored, and returns the value the key had. Otherwise it stops at an empty slot, with the slots and the pending pair holding the old pairs plus the new one. |
| ProbeLoops.ShiftedRemoves | hppcrt/src/main/templates/com/carrotsearch/hppcrt/maps/KTypeVTypeOpenCustomHashMap.java:829-878 | From any state of the shift loop, the loop ends with a valid table holding the gapped table's pairs, each left in place or moved back one slot. |
| ProbeLoops.Removed | hppcrt/src/main/templates/com/carrotsearch/hppcrt/maps/KTypeVTypeOpenCustomHashMap.java:815-880 | `shiftConflictingKeys` on an occupied slot leaves a valid table without that key's pair, with one key less. Every other pair stays in place or moves back one slot. |
| Maps.ResizeAt | hppcrt/src/main/templates/com/carrotsearch/hppcrt/maps/KTypeVTypeOpenCustomHashMap.java:717 | `max(3, (int) (capacity * loadFactor)) - 2` is at least 1 and below the capacity, so at least one slot always stays empty. |
| Maps.DoublingRaises | hppcrt/src/main/templates/com/carrotsearch/hppcrt/maps/KTypeVTypeOpenCustomHashMap.java:26-27 | On a table with `capacity * loadFactor >= 2`, doubling the buffers gives a table of the same kind whose `resizeAt` is strictly higher, so `assigned <= resizeAt` survives every growth. |
| Maps.DoublingFromTwoStalls | hppcrt/src/main/templates/com/carrotsearch/hppcrt/maps/KTypeVTypeOpenCustomHashMap.java:717 | From two slots, doubling to four leaves `resizeAt` at 1 for every load factor below 1. |
| Maps.Filtered | hppcrt/src/main/templates/com/carrotsearch/hppcrt/maps/KTypeVTypeOpenCustomHashMap.java:964-998 | What the `removeAll` methods keep: exactly the pairs the predicate does not select, each with its old value. |
| Maps.ScreenedAfterRemoval | hppcrt/src/main/templates/com/carrotsearch/hppcrt/maps/KTypeVTypeOpenCustomHashMap.java:984-995 | After a removal at index `i`, every slot before `i` still holds only unselected pairs. Entries only move back by one, so not advancing `i` is enough. |
| Maps.ScreenedAll | hppcrt/src/main/templates/com/carrotsearch/hppcrt/maps/KTypeVTypeOpenCustomHashMap.java:984-995 | When the scan has passed every slot, no stored pair is selected. |
| Maps.OpenCustomHashMap.StoredLookup | hppcrt/src/main/templates/com/carrotsearch/hppcrt/maps/KTypeVTypeOpenCustomHashMap.java:75-79 | A key other than the empty key is in the map exactly when a slot holds it, with that slot's value. |
| Maps.OpenCustomHashMap.EmptyKeyLookup | hppcrt/src/main/templates/com/carrotsearch/hppcrt/maps/KTypeVTypeOpenCustomHashMap.java:111-119 | The empty key is in the map exactly when `allocatedDefaultKey` holds, with `allocatedDefaultKeyValue`. |
| Maps.OpenCustomHashMap.EmptySlot | hppcrt/src/main/templates/com/carrotsearch/hppcrt/maps/KTypeVTypeOpenCustomHashMap.java:715-717 | A valid map always has an empty slot. |
| Maps.OpenCustomHashMap.constructor | hppcrt/src/main/templates/com/carrotsearch/hppcrt/maps/KTypeVTypeOpenCustomHashMap.java:181-196 | A new map is valid and empty, with the given strategy, load factor and buffer size. The buffer size must be one on which doubling raises `resizeAt`. |
| Maps.OpenCustomHashMap.Create | hppcrt/src/main/templates/com/carrotsearch/hppcrt/maps/KTypeVTypeOpenCustomHashMap.java:183-191 | A missing hashing strategy is an error and creates no map. Otherwise the result is a fresh, valid, empty map using that strategy. |
| Maps.OpenCustomHashMap.AllocateBuffers | hppcrt/src/main/templates/com/carrotsearch/hppcrt/maps/KTypeVTypeOpenCustomHashMap.java:697-727 | Three fresh, distinct arrays of the capacity form a valid empty table. `resizeAt` is recomputed, and the other fields are unchanged. |
| Maps.OpenCustomHashMap.Put | hppcrt/src/main/templates/com/carrotsearch/hppcrt/maps/KTypeVTypeOpenCustomHashMap.java:211-352 | The map afterwards is the old map with `key` mapped to `value`, the empty key included. It returns the previous value, or `defaultValue` for a new key. The map stays valid, across a growth too. The caller supplies no growth size. Putting the empty key changes only the out-of-band fields: the arrays and `assigned` are untouched. |
| Maps.OpenCustomHashMap.PutStored | hppcrt/src/main/templates/com/carrotsearch/hppcrt/maps/KTypeVTypeOpenCustomHashMap.java:229-351 | For a key in the slots, the fast path at the ideal slot, then the loop, then the store or the growth. The slots' pairs are updated with `key`, and the previous value or `defaultValue` is returned. `assigned` grows by one exactly for a new key, and the out-of-band fields are unchanged. |
| Maps.OpenCustomHashMap.ReplaceAt | hppcrt/src/main/templates/com/carrotsearch/hppcrt/maps/KTypeVTypeOpenCustomHashMap.java:243-250 | The fast path for a key held at its ideal slot: it returns the old value of that slot and replaces only that value. |
| Maps.OpenCustomHashMap.PutAtIdeal | hppcrt/src/main/templates/com/carrotsearch/hppcrt/maps/KTypeVTypeOpenCustomHashMap.java:254-265 | The fast path for a new key whose ideal slot is empty while `assigned < resizeAt`: the slots afterwards hold the old pairs plus the new one, and `assigned` grows by one. |
| Maps.OpenCustomHashMap.PlaceFrom | hppcrt/src/main/templates/com/carrotsearch/hppcrt/maps/KTypeVTypeOpenCustomHashMap.java:268-325 | The slow loop of `put` leaves the three arrays exactly as `Place` says. It reports a found key with its old value, or the pending pair and the empty slot reached. |
| Maps.OpenCustomHashMap.PlacePast | hppcrt/src/main/templates/com/carrotsearch/hppcrt/maps/KTypeVTypeOpenCustomHashMap.java:291-323 | One pass of the slow loop over a slot holding another key swaps a less displaced entry with the carried pair and moves on. `Place` from the new state equals `Place` from the old one, and the probe gets shorter. |
| Maps.OpenCustomHashMap.PlacePending | hppcrt/src/main/templates/com/carrotsearch/hppcrt/maps/KTypeVTypeOpenCustomHashMap.java:327-350 | When `assigned == resizeAt` the map grows; otherwise the pending pair goes into the empty slot. Either way the slots hold the target pairs and `assigned` grows by one. |
| Maps.OpenCustomHashMap.ExpandAndPut | hppcrt/src/main/templates/com/carrotsearch/hppcrt/maps/KTypeVTypeOpenCustomHashMap.java:573-690 | Growing with a pending pair doubles the buffers and gives a valid table holding the old pairs plus the pending one; `assigned` grows by one. |
| Maps.OpenCustomHashMap.Rehash | hppcrt/src/main/templates/com/carrotsearch/hppcrt/maps/KTypeVTypeOpenCustomHashMap.java:623-689 | Re-inserting every old slot, from the last down, into empty arrays gives a valid table holding exactly the old arrays' pairs. |
| Maps.OpenCustomHashMap.Reinsert | hppcrt/src/main/templates/com/carrotsearch/hppcrt/maps/KTypeVTypeOpenCustomHashMap.java:627-680 | One re-insertion leaves the three arrays exactly as `Carried` says. |
| Maps.OpenCustomHashMap.Swap | hppcrt/src/main/templates/com/carrotsearch/hppcrt/maps/KTypeVTypeOpenCustomHashMap.java:296-307 | It exchanges the carried key, value and ideal slot with those of the slot, and changes nothing else. |
| Maps.OpenCustomHashMap.SlotOf | hppcrt/src/main/templates/com/carrotsearch/hppcrt/maps/KTypeVTypeOpenCustomHashMap.java:1023-1068 | The probe shared by `get`, `containsKey` and `remove`, including the early exit. It returns -1 exactly when no slot holds the key, and otherwise a slot holding it. |
| Maps.OpenCustomHashMap.Get | hppcrt/src/main/templates/com/carrotsearch/hppcrt/maps/KTypeVTypeOpenCustomHashMap.java:1011-1069 | It returns the key's value, the empty key included, or `defaultValue` when the key is absent. |
| Maps.OpenCustomHashMap.ContainsKey | hppcrt/src/main/templates/com/carrotsearch/hppcrt/maps/KTypeVTypeOpenCustomHashMap.java:1075-1127 | True exactly when the map holds the key, the empty key included. |
| Maps.OpenCustomHashMap.Remove | hppcrt/src/main/templates/com/carrotsearch/hppcrt/maps/KTypeVTypeOpenCustomHashMap.java:733-810 | The map afterwards is the old map without `key`. It returns the removed value, or `defaultValue` when there was none. The map stays valid, and the buffer size, `resizeAt` and `defaultValue` are unchanged. Removing an absent key leaves the three arrays as they were. |
| Maps.OpenCustomHashMap.RemoveSlot | hppcrt/src/main/templates/com/carrotsearch/hppcrt/maps/KTypeVTypeOpenCustomHashMap.java:775-776 | `assigned--` followed by the shift removes exactly the slot's pair and counts one key less. Every other pair stays or moves back by one. |
| Maps.OpenCustomHashMap.ShiftConflictingKeys | hppcrt/src/main/templates/com/carrotsearch/hppcrt/maps/KTypeVTypeOpenCustomHashMap.java:815-880 | The shift loop leaves the three arrays exactly as `Shifted` says. It does not touch `assigned`. |
| Maps.OpenCustomHashMap.MoveBack | hppcrt/src/main/templates/com/carrotsearch/hppcrt/maps/KTypeVTypeOpenCustomHashMap.java:862-866 | It copies a slot's key, value and cached ideal slot into the gap, and nothing else. |
| Maps.OpenCustomHashMap.RemoveAllIn | hppcrt/src/main/templates/com/carrotsearch/hppcrt/maps/KTypeVTypeOpenCustomHashMap.java:886-919 | It removes exactly the keys in the container, the empty key included, and keeps the other values. It returns `before - size()`. |
| Maps.OpenCustomHashMap.RemoveAllKeys | hppcrt/src/main/templates/com/carrotsearch/hppcrt/maps/KTypeVTypeOpenCustomHashMap.java:925-958 | It removes exactly the keys the predicate selects, the empty key included, and keeps the other values. It returns `before - size()`. |
| Maps.OpenCustomHashMap.RemoveAllPairs | hppcrt/src/main/templates/com/carrotsearch/hppcrt/maps/KTypeVTypeOpenCustomHashMap.java:964-998 | The map afterwards is `Filtered(old map, pred)`, the empty key's pair tested with its value. It returns `before - size()`. |
| Maps.OpenCustomHashMap.RemoveSelectedSlots | hppcrt/src/main/templates/com/carrotsearch/hppcrt/maps/KTypeVTypeOpenCustomHashMap.java:984-995 | The slot scan that re-tests an index after each removal leaves exactly the filtered pairs in the slots. The out-of-band fields are unchanged. |
| Maps.OpenCustomHashMap.Size | hppcrt/src/main/templates/com/carrotsearch/hppcrt/maps/KTypeVTypeOpenCustomHashMap.java:1160-1163 | `assigned + (allocatedDefaultKey ? 1 : 0)` is the number of pairs the map holds. |
| Maps.OpenCustomHashMap.Capacity | hppcrt/src/main/templates/com/carrotsearch/hppcrt/maps/KTypeVTypeOpenCustomHashMap.java:1169-1172 | It returns `resizeAt - 1` for the current buffers, which lies in `[0, keys.length - 1)`. |
| Maps.OpenCustomHashMap.Clear | hppcrt/src/main/templates/com/carrotsearch/hppcrt/maps/KTypeVTypeOpenCustomHashMap.java:1135-1154 | The map becomes empty and every slot is blanked. The buffers keep their length, and `resizeAt` and `defaultValue` are unchanged. |
| Sets.AdmitStep | hppcrt/src/main/templates/com/carrotsearch/hppcrt/sets/KTypeHashSet.java:223-287 | One step of `add`'s loop at a slot that does not end it is a swap when `dist > existing_distance`, else a pass. |
| Sets.AdmitIsPlace | hppcrt/src/main/templates/com/carrotsearch/hppcrt/sets/KTypeHashSet.java:223-287 | The set's loop tests `dist <= existing_distance` before the key; the map's loop tests the key alone. On a valid table both take the same steps and end alike. |
| Sets.AdmitPlaced | hppcrt/src/main/templates/com/carrotsearch/hppcrt/sets/KTypeHashSet.java:206-290 | `add`'s loop from the ideal slot, read as `put`'s loop over unit values: it finds the key exactly when it is stored. Otherwise it ends in an insertion state holding the old keys plus the new one. |
| Sets.AdmitFinds | hppcrt/src/main/templates/com/carrotsearch/hppcrt/sets/KTypeHashSet.java:254-256 | The loop returns "present" exactly when a slot holds the key, and then leaves a valid table with the same keys. |
| Sets.AdmitCarries | hppcrt/src/main/templates/com/carrotsearch/hppcrt/sets/KTypeHashSet.java:260-290 | When the key is not found, the loop stops at an empty slot carrying an absent key. The slots plus that key are the old keys plus the new one, and the number of keys is unchanged. |
| Sets.RemovedKey | hppcrt/src/main/templates/com/carrotsearch/hppcrt/sets/KTypeHashSet.java:567-631 | The backward shift from an occupied slot leaves a valid table without that key, with one key less. Every other key stays or moves back by one. |
| Sets.ScreenedKeysAfterRemoval | hppcrt/src/main/templates/com/carrotsearch/hppcrt/sets/KTypeHashSet.java:958-967 | After a removal at index `i`, the slots before `i` still hold no selected key, so `removeAll` may re-test `i`. |
| Sets.Joined | hppcrt/src/main/templates/com/carrotsearch/hppcrt/sets/KTypeHashSet.java:188-200 | Adding the empty key only sets the flag, and adding another key adds it to the slots. Both give the old contents plus the key. |
| Sets.Parted | hppcrt/src/main/templates/com/carrotsearch/hppcrt/sets/KTypeHashSet.java:522-533 | Removing the empty key only clears the flag, and removing another key takes it out of the slots. Both give the old contents minus the key. |
| Sets.Kept | hppcrt/src/main/templates/com/carrotsearch/hppcrt/sets/KTypeHashSet.java:946-954 | Clearing the flag when the predicate selects the empty key, and filtering the slots, filters the whole contents. |
| Sets.HashSet.EmptySlot | hppcrt/src/main/templates/com/carrotsearch/hppcrt/sets/KTypeHashSet.java:499 | A valid set always has an empty slot. |
| Sets.HashSet.EmptyKeyApart | hppcrt/src/main/templates/com/carrotsearch/hppcrt/sets/KTypeHashSet.java:190-200 | No slot holds the empty key. The set holds it exactly when `allocatedDefaultKey` holds. |
| Sets.HashSet.constructor | hppcrt/src/main/templates/com/carrotsearch/hppcrt/sets/KTypeHashSet.java:170-174 | A new set is valid and empty, with the given buffer size and growth threshold. |
| Sets.HashSet.AllocateBuffers | hppcrt/src/main/templates/com/carrotsearch/hppcrt/sets/KTypeHashSet.java:482-508 | Fresh, distinct arrays of the capacity form a valid empty table. `resizeAt` becomes the threshold, and the other fields are unchanged. |
| Sets.HashSet.Add | hppcrt/src/main/templates/com/carrotsearch/hppcrt/sets/KTypeHashSet.java:188-310 | The set afterwards is the old set plus `key`, the empty key included. It answers true exactly when the key was new, and stays valid across a growth. Adding the empty key only sets the flag: the arrays and `assigned` are untouched. |
| Sets.HashSet.AddStored | hppcrt/src/main/templates/com/carrotsearch/hppcrt/sets/KTypeHashSet.java:202-309 | For a key in the slots, the loop then the store or the growth. The slots' keys gain `key`, and the answer is true exactly for a new key. `assigned` grows by one exactly then, and the flag is unchanged. |
| Sets.HashSet.AddFrom | hppcrt/src/main/templates/com/carrotsearch/hppcrt/sets/KTypeHashSet.java:206-287 | The loop of `add` leaves both arrays exactly as `Admit` says. It reports a found key, or the carried key and the empty slot reached. |
| Sets.HashSet.SwapKey | hppcrt/src/main/templates/com/carrotsearch/hppcrt/sets/KTypeHashSet.java:265-271 | It exchanges the carried key and ideal slot with those of the slot, and nothing else. |
| Sets.HashSet.AddPending | hppcrt/src/main/templates/com/carrotsearch/hppcrt/sets/KTypeHashSet.java:291-308 | When `assigned == resizeAt` the set grows; otherwise the carried key goes into the empty slot. Either way the slots gain that key and `assigned` grows by one. |
| Sets.HashSet.ExpandAndAdd | hppcrt/src/main/templates/com/carrotsearch/hppcrt/sets/KTypeHashSet.java:370-474 | Growing with a pending key gives a valid table of the new capacity holding the old keys plus the pending one. `assigned` grows by one and the threshold is the new one. |
| Sets.HashSet.Rehash | hppcrt/src/main/templates/com/carrotsearch/hppcrt/sets/KTypeHashSet.java:414-473 | Re-inserting every old slot, from the last down, into an empty table gives a valid table holding exactly the old keys. |
| Sets.HashSet.Reinsert | hppcrt/src/main/templates/com/carrotsearch/hppcrt/sets/KTypeHashSet.java:417-471 | One re-insertion leaves both arrays exactly as `Carried` says. |
| Sets.HashSet.SlotOf | hppcrt/src/main/templates/com/carrotsearch/hppcrt/sets/KTypeHashSet.java:644-668 | The probe shared by `contains` and `remove`, with the early exit. It returns -1 exactly when no slot holds the key, and otherwise a slot holding it. |
| Sets.HashSet.Contains | hppcrt/src/main/templates/com/carrotsearch/hppcrt/sets/KTypeHashSet.java:637-669 | True exactly when the set holds the key, the empty key included. |
| Sets.HashSet.Remove | hppcrt/src/main/templates/com/carrotsearch/hppcrt/sets/KTypeHashSet.java:522-562 | The set afterwards is the old set minus `key`. It answers true exactly when the key was there. The set stays valid, and the buffer size and `resizeAt` are unchanged. Removing an absent key leaves both arrays as they were. |
| Sets.HashSet.RemoveAllOf | hppcrt/src/main/templates/com/carrotsearch/hppcrt/sets/KTypeHashSet.java:514-516 | It removes `key` and returns 1 when the key was there, else 0. |
| Sets.HashSet.ShiftConflictingKeys | hppcrt/src/main/templates/com/carrotsearch/hppcrt/sets/KTypeHashSet.java:567-631 | It removes exactly the slot's key and decrements `assigned` itself. Every other key stays or moves back by one. |
| Sets.HashSet.ShiftBack | hppcrt/src/main/templates/com/carrotsearch/hppcrt/sets/KTypeHashSet.java:580-628 | The shift loop leaves both arrays exactly as `Shifted` says. |
| Sets.HashSet.RemoveAll | hppcrt/src/main/templates/com/carrotsearch/hppcrt/sets/KTypeHashSet.java:946-970 | The set afterwards holds exactly the old keys the predicate does not select, the empty key included. It returns `before - size()`. |
| Sets.HashSet.RemoveSelectedSlots | hppcrt/src/main/templates/com/carrotsearch/hppcrt/sets/KTypeHashSet.java:956-967 | The slot scan that re-tests an index after each removal leaves exactly the unselected keys in the slots. |
| Sets.HashSet.Clear | hppcrt/src/main/templates/com/carrotsearch/hppcrt/sets/KTypeHashSet.java:677-685 | The set becomes empty and every slot is blanked. The array keeps its length and `resizeAt` is unchanged. |
| Sets.HashSet.Size | hppcrt/src/main/templates/com/carrotsearch/hppcrt/sets/KTypeHashSet.java:691-693 | `assigned + (allocatedDefaultKey ? 1 : 0)` is the number of keys the set holds. |
| Sets.HashSet.Capacity | hppcrt/src/main/templates/com/carrotsearch/hppcrt/sets/KTypeHashSet.java:699-702 | It returns `resizeAt`, the count of slot keys at which `add` grows. That count bounds the keys in the slots and stays below the number of slots. |

## Left out

- Hashing: `hashStrategy.computeHashCode`, the perturbation and `BitMixer.mix` are one abstract total function. Key equality is `==` rather than `hashStrategy.equals` or `equals`. These are foreign calls, and the perturbation is random per instance.
- `HashContainers.minBufferSize`, `nextBufferSize` and `expandAtCount` are not part of this model.
  - The map grows by doubling, as its class documentation says. The largest array size Java allows is not modelled, so doubling never fails.
  - The set's sizes are parameters: growth must give a larger power-of-two capacity whose threshold exceeds the old one.
- Maps.OpenCustomHashMap.constructor: requires `capacity * loadFactor >= 2`, and so does `Create`. On smaller tables doubling need not raise `resizeAt` (`DoublingFromTwoStalls`). After such a growth `assigned` would exceed `resizeAt` and the table could fill up. Whether `minBufferSize` ever returns such a size is outside this model.
- The set's load factor is not stored; only its threshold is. The map's `(int) (capacity * loadFactor)` is taken on a real load factor, so double rounding is not modelled.
- `OutOfMemoryError` handling in `allocateBuffers` is left out; it is a JVM resource concern.
- The map's `putAll`, `putIfAbsent`, `putOrAdd`, `addTo`, `isEmpty` and the static factories are left out. So are the set's `add(e1, e2)`, varargs `add` and `addAll`. They are thin loops or wrappers over the modelled operations.
- Iterators, cursors and their pools, the `keys()`/`values()` views, `forEach`, `toArray`, `hashCode`, `equals`, `clone` and `toString` are left out.
- The set's non-Robin-Hood variant, generated for primitive keys, is left out. That variant recomputes the ideal slot in the shift and has no cache.
- The debug-only `assert` statements of the source are covered by the table invariant (`CachedIdeal`) rather than stated one by one.
- Blanking freed value slots for the garbage collector is partly modelled. The map's shift writes `blank` into the final gap and `clear` blanks every value. Values left in empty slots play no part in `Contents()`.
- The set's loops share the map's sequence-level functions (`Carried`, `Shifted`) over a ghost column of unit values. That column has no counterpart in the source.
- Some source methods are split into helpers, each with its own contract:
  - `PutStored`, `ReplaceAt`, `PutAtIdeal`, `PlaceFrom`, `PlacePast`, `PlacePending`, `Rehash`, `Reinsert`, `Swap`, `RemoveSlot`, `MoveBack` and `RemoveSelectedSlots` in the map;
  - `AddStored`, `AddFrom`, `AddPending`, `Rehash`, `Reinsert`, `SwapKey`, `ShiftBack` and `RemoveSelectedSlots` in the set.

  Within each helper the statements and their order are the source's. `put` with an empty ideal slot while `assigned == resizeAt` goes through the loop, which does not run, and then grows, as in the source.
- Maps.OpenCustomHashMap.Put: the overwrite of a stored key is stated on the pairs and on `assigned`. That the key and cache arrays, and every other slot, are left as they were is not stated.
- Sets.HashSet.Add: adding a key already in the slots is stated on the key set and on `assigned`. That both arrays are left exactly as they were is not stated; the loop's state does not record the arrays from before the first swap.
- BitUtil.PopArray: the `long` accumulator is an unbounded integer. It cannot overflow in Java either, since a window holds at most 2^31 words of 64 bits.
