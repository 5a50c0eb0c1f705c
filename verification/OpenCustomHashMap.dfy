// The hash map with a custom hashing strategy (KTypeVTypeOpenCustomHashMap), in its Robin-Hood
// form: parallel `keys`, `values` and `hash_cache` arrays, with the empty key kept out of band.

module Maps {
  import opened Probing
  import opened ProbeLoops

  datatype Option<T> = None | Some(value: T)

  datatype Result<T> = Success(value: T) | Failure(error: string)

  /**
   * `allocateBuffers`: the number of stored keys at which the buffers grow,
   * `max(3, (int) (capacity * loadFactor)) - 2`. It stays below the capacity, so one slot is
   * always empty and every probe loop ends.
   */
  function ResizeAt(capacity: int, loadFactor: real): (r: int)
    requires capacity >= 2 && 0.0 < loadFactor < 1.0
    ensures 1 <= r < capacity
  {
    var scaled := (capacity as real * loadFactor).Floor;
    assert scaled < capacity by {
      assert capacity as real * loadFactor < capacity as real;
    }
    (if scaled > 3 then scaled else 3) - 2
  }

  /**
   * The tables the model admits: power-of-two capacities whose load, `capacity * loadFactor`, is
   * at least 2. On these, doubling the buffers always raises `resizeAt` (`DoublingRaises`); on
   * smaller ones it need not (`DoublingFromTwoStalls`).
   */
  ghost predicate Growable(capacity: int, loadFactor: real) {
    && PowerOfTwo(capacity) && capacity >= 2 && 0.0 < loadFactor < 1.0
    && capacity as real * loadFactor >= 2.0
  }

  /** Growth doubles the buffers: the grown table is again admitted and its threshold is higher. */
  lemma DoublingRaises(capacity: int, loadFactor: real)
    requires Growable(capacity, loadFactor)
    ensures Growable(2 * capacity, loadFactor)
    ensures ResizeAt(2 * capacity, loadFactor) > ResizeAt(capacity, loadFactor)
  {
    assert PowerOfTwo(2 * capacity) by {
      assert (2 * capacity) / 2 == capacity;
    }
    var scaled := (capacity as real * loadFactor).Floor;
    var grown := ((2 * capacity) as real * loadFactor).Floor;
    assert (2 * capacity) as real * loadFactor == 2.0 * (capacity as real * loadFactor);
    assert scaled >= 2;
    assert grown >= 2 * scaled;
  }

  /** From two slots, doubling leaves `resizeAt` at 1, whatever the load factor below 1. */
  lemma DoublingFromTwoStalls(loadFactor: real)
    requires 0.0 < loadFactor < 1.0
    ensures ResizeAt(2, loadFactor) == ResizeAt(4, loadFactor) == 1
  {
  }

  /** Updating a key other than the empty key commutes with adding the empty key's pair. */
  lemma UpdateBesideEmptyKey<K, V>(stored: map<K, V>, before: map<K, V>, empty: K, key: K, value: V,
                                   present: bool, emptyValue: V)
    requires key != empty && stored == before[key := value]
    ensures (if present then stored[empty := emptyValue] else stored)
         == (if present then before[empty := emptyValue] else before)[key := value]
  {
  }

  /** Setting the empty key's value replaces the one it had, if any. */
  lemma SetEmptyKey<K, V>(stored: map<K, V>, empty: K, present: bool, emptyValue: V, value: V)
    ensures (if present then stored[empty := emptyValue] else stored)[empty := value] == stored[empty := value]
  {
  }

  /** Dropping the empty key's pair leaves the pairs in the slots. */
  lemma DropEmptyKey<K, V>(stored: map<K, V>, empty: K, present: bool, emptyValue: V)
    requires empty !in stored
    ensures (if present then stored[empty := emptyValue] else stored) - {empty} == stored
  {
  }

  /** Removing a key the map does not hold changes nothing. */
  lemma RemoveAbsent<K, V>(m: map<K, V>, key: K)
    requires key !in m
    ensures m - {key} == m
  {
  }

  /** Removing a key other than the empty key commutes with adding the empty key's pair. */
  lemma RemoveBesideEmptyKey<K, V>(stored: map<K, V>, before: map<K, V>, empty: K, key: K,
                                   present: bool, emptyValue: V)
    requires key != empty && stored == before - {key}
    ensures (if present then stored[empty := emptyValue] else stored)
         == (if present then before[empty := emptyValue] else before) - {key}
  {
  }

  /** The pairs of `m` that `pred` does not select: what the `removeAll` methods keep. */
  ghost function Filtered<K, V>(m: map<K, V>, pred: (K, V) -> bool): (r: map<K, V>)
    ensures r.Keys <= m.Keys
    ensures forall k :: k in r ==> r[k] == m[k] && !pred(k, m[k])
    ensures forall k :: k in m && !pred(k, m[k]) ==> k in r
  {
    map k | k in m && !pred(k, m[k]) :: m[k]
  }

  /** `kept` is `m` less some pairs that `pred` selects. */
  ghost predicate FilteredPart<K, V>(m: map<K, V>, kept: map<K, V>, pred: (K, V) -> bool) {
    && (forall k :: k in kept ==> k in m && kept[k] == m[k])
    && (forall k :: k in m && k !in kept ==> pred(k, m[k]))
  }

  /** Dropping one more selected pair keeps a filtered part of `m`. */
  lemma FilteredPartRemove<K, V>(m: map<K, V>, kept: map<K, V>, pred: (K, V) -> bool, key: K)
    requires FilteredPart(m, kept, pred) && key in kept && pred(key, kept[key])
    ensures FilteredPart(m, kept - {key}, pred)
  {
  }

  /** A filtered part of `m` in which `pred` selects nothing is `Filtered(m, pred)`. */
  lemma FilteredExactly<K, V>(m: map<K, V>, kept: map<K, V>, pred: (K, V) -> bool)
    requires FilteredPart(m, kept, pred)
    requires forall k :: k in kept ==> !pred(k, kept[k])
    ensures kept == Filtered(m, pred)
  {
  }

  /** Filtering a map with the empty key's pair added filters the pair separately. */
  lemma FilteredBesideEmptyKey<K, V>(stored: map<K, V>, empty: K, present: bool, emptyValue: V,
                                     pred: (K, V) -> bool)
    requires empty !in stored
    ensures Filtered(if present then stored[empty := emptyValue] else stored, pred)
         == var rest := Filtered(stored, pred);
            if present && !pred(empty, emptyValue) then rest[empty := emptyValue] else rest
  {
  }

  /** `pred` selects none of the entries in the slots before `i`. */
  ghost predicate Screened<K, V>(keys: seq<K>, vals: seq<V>, empty: K, pred: (K, V) -> bool, i: int)
    requires |vals| == |keys| && i <= |keys|
  {
    forall p :: 0 <= p < i && keys[p] != empty ==> !pred(keys[p], vals[p])
  }

  /**
   * After the entry of slot `i` is removed, the slots before `i` are still screened: each entry
   * stayed in place or came back from the slot after it, and the pair of slot `i` itself is gone.
   */
  lemma ScreenedAfterRemoval<K, V>(keys: seq<K>, vals: seq<V>, keys': seq<K>, vals': seq<V>, empty: K,
                                   pred: (K, V) -> bool, i: int, e: int)
    requires |vals| == |keys| == |keys'| == |vals'| && 0 <= i < |keys| && 0 <= e < |keys|
    requires Distinct(keys', empty) && keys[i] !in Mapping(keys', vals', empty)
    requires MovedBack(keys, vals, keys', vals', empty, i, e)
    requires Screened(keys, vals, empty, pred, i)
    ensures Screened(keys', vals', empty, pred, i)
  {
    forall p | 0 <= p < i && keys'[p] != empty
      ensures !pred(keys'[p], vals'[p])
    {
      MappingAt(keys', vals', empty, p);
      assert NextSlot(p, |keys|) == p + 1;
    }
  }

  /** When every slot is screened, `pred` selects no pair of the table. */
  lemma ScreenedAll<K, V>(keys: seq<K>, vals: seq<V>, empty: K, pred: (K, V) -> bool)
    requires |vals| == |keys| && Distinct(keys, empty)
    requires Screened(keys, vals, empty, pred, |keys|)
    ensures forall k :: k in Mapping(keys, vals, empty) ==> !pred(k, Mapping(keys, vals, empty)[k])
  {
  }

  class OpenCustomHashMap<K(==), V> {
    /** The empty key (0 or null), which never occupies a slot. */
    const empty: K
    /** The default value of V, written into slots that are freed. */
    const blank: V
    /** The hashing strategy's hash code, perturbed and mixed: `REHASH(strategy, key)`. */
    const hash: K -> int
    const loadFactor: real

    var defaultValue: V
    var keys: array<K>
    var values: array<V>
    var hashCache: array<int>
    var allocatedDefaultKey: bool
    var allocatedDefaultKeyValue: V
    var assignedCount: int
    var resizeAt: int

    ghost var Repr: set<object>

    ghost predicate Valid()
      reads this, Repr
    {
      var n := keys.Length;
      && Repr == {this, keys, values, hashCache}
      && (keys as object) != values && (keys as object) != hashCache && (values as object) != hashCache
      && n == values.Length
      && Growable(n, loadFactor)
      && Table(keys[..], hashCache[..], empty, hash)
      && assignedCount == |KeySet(keys[..], empty)|
      && resizeAt == ResizeAt(n, loadFactor)
      && assignedCount <= resizeAt
    }

    /** The pairs the map holds: those in the slots, and the empty key's pair if allocated. */
    ghost function Contents(): map<K, V>
      requires Valid()
      reads this, Repr
    {
      var stored := Mapping(keys[..], values[..], empty);
      if allocatedDefaultKey then stored[empty := allocatedDefaultKeyValue] else stored
    }

    /** A key other than the empty key is looked up in the slots. */
    lemma StoredLookup(key: K)
      requires Valid() && key != empty
      ensures key in Contents() <==> key in Mapping(keys[..], values[..], empty)
      ensures key in Contents() ==> Contents()[key] == Mapping(keys[..], values[..], empty)[key]
    {
    }

    /** The empty key is held out of band, in `allocatedDefaultKeyValue`. */
    lemma EmptyKeyLookup()
      requires Valid()
      ensures empty in Contents() <==> allocatedDefaultKey
      ensures allocatedDefaultKey ==> Contents()[empty] == allocatedDefaultKeyValue
    {
      assert empty !in Mapping(keys[..], values[..], empty);
    }

    /** An empty slot, which the load bound guarantees. */
    lemma EmptySlot() returns (e: int)
      requires Valid()
      ensures 0 <= e < keys.Length && keys[e] == empty
    {
      FreeSlotExists(keys[..], empty);
      e :| 0 <= e < keys.Length && keys[..][e] == empty;
    }

    constructor (capacity: int, loadFactor: real, hash: K -> int, empty: K, blank: V)
      requires Growable(capacity, loadFactor)
      ensures Valid() && fresh(Repr)
      ensures Contents() == map[]
      ensures keys.Length == capacity
      ensures this.hash == hash && this.empty == empty && this.blank == blank && this.loadFactor == loadFactor
      ensures defaultValue == blank
    {
      this.empty := empty;
      this.blank := blank;
      this.hash := hash;
      this.loadFactor := loadFactor;
      defaultValue := blank;
      allocatedDefaultKey := false;
      allocatedDefaultKeyValue := blank;
      assignedCount := 0;
      keys := new K[capacity](_ => empty);
      values := new V[capacity](_ => blank);
      hashCache := new int[capacity](_ => 0);
      resizeAt := ResizeAt(capacity, loadFactor);
      new;
      Repr := {this, keys, values, hashCache};
      EmptyTable(keys[..], values[..], hashCache[..], empty, hash);
    }

    /**
     * The constructor's strategy check: a missing hashing strategy is an illegal argument and
     * creates no map.
     */
    static method Create(capacity: int, loadFactor: real, strategy: Option<K -> int>, empty: K, blank: V)
      returns (r: Result<OpenCustomHashMap<K, V>>)
      requires Growable(capacity, loadFactor)
      ensures r.Failure? <==> strategy.None?
      ensures r.Success? ==> && fresh(r.value) && fresh(r.value.Repr) && r.value.Valid()
                             && r.value.Contents() == map[] && r.value.hash == strategy.value
    {
      if strategy.None? {
        return Failure("cannot have a null hashStrategy");
      }
      var m := new OpenCustomHashMap(capacity, loadFactor, strategy.value, empty, blank);
      return Success(m);
    }

    /** Replaces the buffers by empty ones of the given capacity and recomputes `resizeAt`. */
    method AllocateBuffers(capacity: int)
      requires Growable(capacity, loadFactor)
      modifies this
      ensures fresh(keys) && fresh(values) && fresh(hashCache)
      ensures (keys as object) != values && (keys as object) != hashCache && (values as object) != hashCache
      ensures Repr == {this, keys, values, hashCache}
      ensures keys.Length == values.Length == hashCache.Length == capacity
      ensures Table(keys[..], hashCache[..], empty, hash)
      ensures KeySet(keys[..], empty) == {} && Mapping(keys[..], values[..], empty) == map[]
      ensures resizeAt == ResizeAt(capacity, loadFactor)
      ensures assignedCount == old(assignedCount) && defaultValue == old(defaultValue)
      ensures allocatedDefaultKey == old(allocatedDefaultKey)
      ensures allocatedDefaultKeyValue == old(allocatedDefaultKeyValue)
    {
      keys := new K[capacity](_ => empty);
      values := new V[capacity](_ => blank);
      hashCache := new int[capacity](_ => 0);
      resizeAt := ResizeAt(capacity, loadFactor);
      Repr := {this, keys, values, hashCache};
      EmptyTable(keys[..], values[..], hashCache[..], empty, hash);
    }

    /**
     * Stores `value` for `key` and returns the value it replaces, or `defaultValue` for a new key.
     * A new key that would take `assigned` past `resizeAt` first doubles the buffers.
     */
    method Put(key: K, value: V) returns (r: V)
      requires Valid()
      modifies Repr
      ensures Valid() && fresh(Repr - old(Repr))
      ensures Contents() == old(Contents())[key := value]
      ensures r == if key in old(Contents()) then old(Contents())[key] else old(defaultValue)
      ensures defaultValue == old(defaultValue)
      ensures key == empty ==>
        && keys == old(keys) && values == old(values) && hashCache == old(hashCache)
        && keys[..] == old(keys[..]) && values[..] == old(values[..]) && hashCache[..] == old(hashCache[..])
        && assignedCount == old(assignedCount)
    {
      if key == empty {
        EmptyKeyLookup();
        SetEmptyKey(Mapping(keys[..], values[..], empty), empty, allocatedDefaultKey, allocatedDefaultKeyValue, value);
        if allocatedDefaultKey {
          r := allocatedDefaultKeyValue;
          allocatedDefaultKeyValue := value;
          return;
        }
        allocatedDefaultKeyValue := value;
        allocatedDefaultKey := true;
        return defaultValue;
      }
      StoredLookup(key);
      ghost var before := Mapping(keys[..], values[..], empty);
      r := PutStored(key, value);
      UpdateBesideEmptyKey(Mapping(keys[..], values[..], empty), before, empty, key, value,
                           allocatedDefaultKey, allocatedDefaultKeyValue);
    }

    /**
     * `put` of a key other than the empty key: the probe at the ideal slot, then the loop, then
     * the store or the growth. Returns the previous value, or `defaultValue`.
     */
    method PutStored(key: K, value: V) returns (r: V)
      requires Valid() && key != empty
      modifies Repr
      ensures Valid() && fresh(Repr - old(Repr))
      ensures Mapping(keys[..], values[..], empty) == old(Mapping(keys[..], values[..], empty))[key := value]
      ensures var before := old(Mapping(keys[..], values[..], empty));
              r == if key in before then before[key] else defaultValue
      ensures assignedCount == old(assignedCount) + if key in old(Mapping(keys[..], values[..], empty)) then 0 else 1
      ensures defaultValue == old(defaultValue) && allocatedDefaultKey == old(allocatedDefaultKey)
      ensures allocatedDefaultKeyValue == old(allocatedDefaultKeyValue)
    {
      ghost var e := EmptySlot();
      ghost var ks, vs, cs := keys[..], values[..], hashCache[..];
      ghost var before, count := Mapping(ks, vs, empty), assignedCount;
      var n := keys.Length;
      var slot := IdealSlot(hash(key), n);
      PlaceStart(ks, vs, cs, empty, hash, key, value, e);
      if keys[slot] != empty && keys[slot] == key {
        PlaceFound(ks, vs, cs, empty, hash, key, value, before, count, false, key, value, slot, slot, 0, e);
        r := ReplaceAt(slot, value);
        return;
      }
      if keys[slot] == empty && assignedCount < resizeAt {
        PlaceEnd(ks, vs, cs, empty, hash, key, value, before, count, false, key, value, slot, slot, 0, e);
        PutAtIdeal(key, value, slot, e);
        return defaultValue;
      }
      Placed(ks, vs, cs, empty, hash, key, value, before, count, false, key, value, slot, slot, 0, e);
      var found, k, v, initial, dist;
      found, r, slot, k, v, initial, dist := PlaceFrom(key, value, e);
      if found {
        return;
      }
      PlacePending(k, v, initial, slot, dist, e, before[key := value]);
      r := defaultValue;
    }

    /** `put` of a key held in `slot`: only its value is replaced, and the old one returned. */
    method ReplaceAt(slot: int, value: V) returns (r: V)
      requires Valid() && 0 <= slot < keys.Length
      modifies values
      ensures Valid()
      ensures r == old(values[slot]) && values[..] == old(values[..])[slot := value]
    {
      r := values[slot];
      values[slot] := value;
    }

    /**
     * The fast path of `put`: a new key whose ideal slot is empty, while `assigned` is below
     * `resizeAt`, is stored in that slot.
     */
    method PutAtIdeal(key: K, value: V, slot: int, ghost e: int)
      requires Valid()
      requires Loading(keys[..], values[..], hashCache[..], empty, hash, key, value, slot, slot, 0, e,
                       Mapping(keys[..], values[..], empty)[key := value], assignedCount)
      requires keys[slot] == empty && assignedCount < resizeAt
      modifies keys, values, hashCache, this`assignedCount
      ensures Valid()
      ensures Mapping(keys[..], values[..], empty) == old(Mapping(keys[..], values[..], empty))[key := value]
      ensures assignedCount == old(assignedCount) + 1
    {
      ghost var ks, vs, cs := keys[..], values[..], hashCache[..];
      LoadSettle(ks, vs, cs, empty, hash, key, value, slot, slot, 0, e, Mapping(ks, vs, empty)[key := value], assignedCount);
      keys[slot] := key;
      values[slot] := value;
      assignedCount := assignedCount + 1;
      hashCache[slot] := slot;
      assert keys[..] == ks[slot := key] && values[..] == vs[slot := value] && hashCache[..] == cs[slot := slot];
    }

    /**
     * The end of `put` for a new key: the pending pair, which reached the empty `slot`, is
     * stored there, unless `assigned` has reached `resizeAt`, in which case the buffers grow.
     */
    method PlacePending(k: K, v: V, initial: int, slot: int, dist: int, ghost e: int,
                        ghost target: map<K, V>)
      requires Valid()
      requires Loading(keys[..], values[..], hashCache[..], empty, hash, k, v, initial, slot, dist, e,
                       target, assignedCount)
      requires keys[slot] == empty
      modifies Repr
      ensures Valid() && fresh(Repr - old(Repr))
      ensures Mapping(keys[..], values[..], empty) == target
      ensures assignedCount == old(assignedCount) + 1
      ensures defaultValue == old(defaultValue) && allocatedDefaultKey == old(allocatedDefaultKey)
      ensures allocatedDefaultKeyValue == old(allocatedDefaultKeyValue)
    {
      if assignedCount == resizeAt {
        ExpandAndPut(k, v, slot);
      } else {
        ghost var ks, vs, cs := keys[..], values[..], hashCache[..];
        LoadSettle(ks, vs, cs, empty, hash, k, v, initial, slot, dist, e, target, assignedCount);
        assignedCount := assignedCount + 1;
        hashCache[slot] := initial;
        keys[slot] := k;
        values[slot] := v;
        assert keys[..] == ks[slot := k] && values[..] == vs[slot := v] && hashCache[..] == cs[slot := initial];
      }
    }

    /**
     * The slow path of `put`, from the ideal slot on, as `Place` describes it: either `key` is
     * found and its value replaced, or the loop stops at an empty slot, having displaced richer
     * entries on the way, with the last displaced pair (`key` itself if none was) still to place.
     */
    method PlaceFrom(key: K, value: V, ghost e: int)
      returns (found: bool, r: V, slot: int, k: K, v: V, initial: int, dist: int)
      requires (keys as object) != values && (keys as object) != hashCache && (values as object) != hashCache
      requires keys.Length >= 2
      requires Stepping(keys[..], values[..], hashCache[..], empty,
                        IdealSlot(hash(key), keys.Length), IdealSlot(hash(key), keys.Length), e)
      modifies keys, values, hashCache
      ensures var p := Place(old(keys[..]), old(values[..]), old(hashCache[..]), empty, key, value,
                             IdealSlot(hash(key), keys.Length), IdealSlot(hash(key), keys.Length), 0, e);
              && keys[..] == p.slots.keys && values[..] == p.slots.vals && hashCache[..] == p.slots.cache
              && found == p.Replaced?
              && (p.Replaced? ==> r == p.previous)
              && (p.Pending? ==> k == p.k && v == p.v && initial == p.initial && slot == p.slot && dist == p.dist)
    {
      var n := keys.Length;
      slot := IdealSlot(hash(key), n);
      k, v, initial, dist := key, value, slot, 0;
      var keys, values, cached := this.keys, this.values, this.hashCache;
      ghost var goal := Place(keys[..], values[..], cached[..], empty, k, v, initial, slot, dist, e);
      while keys[slot] != empty
        invariant Stepping(keys[..], values[..], cached[..], empty, initial, slot, e)
        invariant Place(keys[..], values[..], cached[..], empty, k, v, initial, slot, dist, e) == goal
        decreases ProbeDistance(e, slot, n)
      {
        if k == keys[slot] {
          r := values[slot];
          values[slot] := v;
          return true, r, slot, k, v, initial, dist;
        }
        slot, k, v, initial, dist := PlacePast(slot, k, v, initial, dist, e);
      }
      found, r := false, value;
    }

    /**
     * One pass of `put`'s loop over a slot holding another key: an entry displaced less than the
     * carried pair is swapped with it, then the probe moves on. `Place` is the same from the new
     * state as from the old one.
     */
    method PlacePast(slot: int, k: K, v: V, initial: int, dist: int, ghost e: int)
      returns (slot': int, k': K, v': V, initial': int, dist': int)
      requires (keys as object) != values && (keys as object) != hashCache && (values as object) != hashCache
      requires Stepping(keys[..], values[..], hashCache[..], empty, initial, slot, e)
      requires keys[slot] != empty && keys[slot] != k
      modifies keys, values, hashCache
      ensures Stepping(keys[..], values[..], hashCache[..], empty, initial', slot', e)
      ensures ProbeDistance(e, slot', keys.Length) < ProbeDistance(e, slot, keys.Length)
      ensures Place(keys[..], values[..], hashCache[..], empty, k', v', initial', slot', dist', e)
           == Place(old(keys[..]), old(values[..]), old(hashCache[..]), empty, k, v, initial, slot, dist, e)
    {
      var n := keys.Length;
      PlaceStep(keys[..], values[..], hashCache[..], empty, k, v, initial, slot, dist, e);
      DistanceFromNext(e, slot, n);
      k', v', initial', dist' := k, v, initial, dist;
      var existing := ProbeDistance(slot, hashCache[slot], n);
      if dist > existing {
        k', v', initial' := Swap(keys, values, hashCache, slot, k, v, initial);
        dist' := existing;
      }
      slot' := NextSlot(slot, n);
      dist' := dist' + 1;
    }

    /**
     * Doubles the buffers, as the class documentation says growth does: the pending pair is first
     * written into the free slot of the old arrays, then every old slot, from the last down, is
     * inserted anew.
     */
    method ExpandAndPut(pendingKey: K, pendingValue: V, freeSlot: int)
      requires Valid()
      requires pendingKey != empty && 0 <= freeSlot < keys.Length && keys[freeSlot] == empty
      requires Absent(keys[..], pendingKey)
      requires assignedCount == resizeAt
      modifies Repr
      ensures Valid() && fresh(Repr - old(Repr))
      ensures Mapping(keys[..], values[..], empty)
           == old(Mapping(keys[..], values[..], empty))[pendingKey := pendingValue]
      ensures assignedCount == old(assignedCount) + 1
      ensures keys.Length == 2 * old(keys.Length)
      ensures defaultValue == old(defaultValue) && allocatedDefaultKey == old(allocatedDefaultKey)
      ensures allocatedDefaultKeyValue == old(allocatedDefaultKeyValue)
    {
      var oldKeys, oldValues := keys, values;
      ghost var ks, vs := keys[..], values[..];
      ghost var pending, pendingValues := ks[freeSlot := pendingKey], vs[freeSlot := pendingValue];
      KeySetInsert(ks, empty, freeSlot, pendingKey);
      MappingInsert(ks, vs, empty, freeSlot, pendingKey, pendingValue);
      DoublingRaises(keys.Length, loadFactor);
      AllocateBuffers(2 * keys.Length);
      assignedCount := assignedCount + 1;
      oldKeys[freeSlot] := pendingKey;
      oldValues[freeSlot] := pendingValue;
      assert oldKeys[..] == pending && oldValues[..] == pendingValues;
      Rehash(oldKeys, oldValues);
      SameKeyCount(keys[..], values[..], pending, pendingValues, empty);
    }

    /**
     * The loop of the growth: every pair of the old buffers, from the last slot down, is inserted
     * into the new, empty ones.
     */
    method Rehash(oldKeys: array<K>, oldValues: array<V>)
      requires keys.Length == values.Length && oldKeys.Length == oldValues.Length
      requires (keys as object) != values && (keys as object) != hashCache && (values as object) != hashCache
      requires (oldKeys as object) != keys && (oldKeys as object) != values && (oldKeys as object) != hashCache
      requires (oldValues as object) != keys && (oldValues as object) != values && (oldValues as object) != hashCache
      requires Table(keys[..], hashCache[..], empty, hash) && Mapping(keys[..], values[..], empty) == map[]
      requires Distinct(oldKeys[..], empty) && |KeySet(oldKeys[..], empty)| < keys.Length
      modifies keys, values, hashCache
      ensures Table(keys[..], hashCache[..], empty, hash)
      ensures Mapping(keys[..], values[..], empty) == Mapping(oldKeys[..], oldValues[..], empty)
    {
      ghost var ok, ov := oldKeys[..], oldValues[..];
      var n := keys.Length;
      var i := oldKeys.Length;
      while i > 0
        invariant 0 <= i <= oldKeys.Length
        invariant Table(keys[..], hashCache[..], empty, hash)
        invariant Mapping(keys[..], values[..], empty) == MappingFrom(ok, ov, empty, i)
        decreases i
      {
        i := i - 1;
        MappingFromStep(ok, ov, empty, i);
        if oldKeys[i] != empty {
          var k, v := oldKeys[i], oldValues[i];
          ghost var e := RoomToMove(keys[..], values[..], ok, ov, empty, i);
          Reinserted(keys[..], values[..], hashCache[..], empty, hash, k, v, e);
          Reinsert(k, v, e);
        }
      }
      assert MappingFrom(ok, ov, empty, 0) == Mapping(ok, ov, empty);
    }

    /**
     * The re-insertion loop of the growth, as `Carried` describes it: `key` is placed with the
     * Robin-Hood swaps but without looking for an equal key.
     */
    method Reinsert(key: K, value: V, ghost e: int)
      requires (keys as object) != values && (keys as object) != hashCache && (values as object) != hashCache
      requires keys.Length >= 2
      requires Stepping(keys[..], values[..], hashCache[..], empty,
                        IdealSlot(hash(key), keys.Length), IdealSlot(hash(key), keys.Length), e)
      modifies keys, values, hashCache
      ensures var r := Carried(old(keys[..]), old(values[..]), old(hashCache[..]), empty, key, value,
                               IdealSlot(hash(key), keys.Length), IdealSlot(hash(key), keys.Length), 0, e);
              keys[..] == r.keys && values[..] == r.vals && hashCache[..] == r.cache
    {
      var n := keys.Length;
      var keys, values, cached := this.keys, this.values, this.hashCache;
      var k, v := key, value;
      var slot := IdealSlot(hash(k), n);
      var initial, dist := slot, 0;
      ghost var goal := Carried(keys[..], values[..], cached[..], empty, k, v, initial, slot, dist, e);
      while keys[slot] != empty
        invariant Stepping(keys[..], values[..], cached[..], empty, initial, slot, e)
        invariant Carried(keys[..], values[..], cached[..], empty, k, v, initial, slot, dist, e) == goal
        decreases ProbeDistance(e, slot, n)
      {
        ghost var ks, vs, cs := keys[..], values[..], cached[..];
        CarriedStep(ks, vs, cs, empty, k, v, initial, slot, dist, e);
        var existing := ProbeDistance(slot, cached[slot], n);
        if dist > existing {
          k, v, initial := Swap(keys, values, cached, slot, k, v, initial);
          dist := existing;
        }
        slot := NextSlot(slot, n);
        dist := dist + 1;
      }
      cached[slot] := initial;
      keys[slot] := k;
      values[slot] := v;
    }

    /** Swaps the carried triple with the one in `slot`. */
    static method Swap(keys: array<K>, values: array<V>, cached: array<int>, slot: int, k: K, v: V, initial: int)
      returns (k': K, v': V, initial': int)
      requires (keys as object) != values && (keys as object) != cached && (values as object) != cached
      requires 0 <= slot < keys.Length == values.Length == cached.Length
      modifies keys, values, cached
      ensures k' == old(keys[slot]) && v' == old(values[slot]) && initial' == old(cached[slot])
      ensures keys[..] == old(keys[..])[slot := k] && values[..] == old(values[..])[slot := v]
      ensures cached[..] == old(cached[..])[slot := initial]
    {
      keys[slot], k' := k, keys[slot];
      cached[slot], initial' := initial, cached[slot];
      values[slot], v' := v, values[slot];
    }

    /**
     * The probe that `get`, `containsKey` and `remove` share: from the key's ideal slot, step
     * over the entries until the key, an empty slot, or an entry nearer its own ideal slot than
     * the key would be. The slot that holds `key`, or -1.
     */
    method SlotOf(key: K) returns (slot: int)
      requires Valid() && key != empty
      ensures -1 <= slot < keys.Length
      ensures slot == -1 <==> key !in Mapping(keys[..], values[..], empty)
      ensures slot != -1 ==> keys[slot] == key
    {
      ghost var ks, cs := keys[..], hashCache[..];
      ghost var e := EmptySlot();
      ProbeStart(ks, cs, empty, hash, key, e);
      var n := keys.Length;
      slot := IdealSlot(hash(key), n);
      if keys[slot] == empty {
        ProbeMiss(ks, cs, empty, hash, key, e, 0);
        MappingAbsent(ks, values[..], empty, key);
        return -1;
      }
      if keys[slot] == key {
        MappingAt(ks, values[..], empty, slot);
        return;
      }
      ghost var ideal := slot;
      ProbeStep(ks, cs, empty, hash, key, e, 0);
      slot := NextSlot(slot, n);
      var dist := 0;
      // `dist` runs one behind the number of steps taken from the ideal slot.
      while keys[slot] != empty && dist <= ProbeDistance(slot, hashCache[slot], n)
        invariant Probe(ks, cs, empty, hash, key, e, dist + 1)
        invariant slot == Advance(ideal, dist + 1, n)
        decreases ProbeDistance(e, ideal, n) - dist
      {
        if key == keys[slot] {
          MappingAt(ks, values[..], empty, slot);
          return;
        }
        ProbeStep(ks, cs, empty, hash, key, e, dist + 1);
        slot := NextSlot(slot, n);
        dist := dist + 1;
      }
      ProbeMiss(ks, cs, empty, hash, key, e, dist + 1);
      MappingAbsent(ks, values[..], empty, key);
      return -1;
    }

    /** The value of `key`, or `defaultValue` when the map holds no pair for it. */
    method Get(key: K) returns (r: V)
      requires Valid()
      ensures r == if key in Contents() then Contents()[key] else defaultValue
    {
      if key == empty {
        if allocatedDefaultKey {
          return allocatedDefaultKeyValue;
        }
        return defaultValue;
      }
      StoredLookup(key);
      var slot := SlotOf(key);
      if slot == -1 {
        return defaultValue;
      }
      MappingAt(keys[..], values[..], empty, slot);
      return values[slot];
    }

    /** Whether the map holds a pair for `key`. */
    method ContainsKey(key: K) returns (r: bool)
      requires Valid()
      ensures r <==> key in Contents()
    {
      if key == empty {
        return allocatedDefaultKey;
      }
      StoredLookup(key);
      var slot := SlotOf(key);
      return slot != -1;
    }

    /**
     * Removes the pair of `key` and returns its value, or `defaultValue` when there is none. A
     * found entry is removed by `shiftConflictingKeys`.
     */
    method Remove(key: K) returns (r: V)
      requires Valid()
      modifies Repr
      ensures Valid() && Repr == old(Repr)
      ensures keys.Length == old(keys.Length) && resizeAt == old(resizeAt)
      ensures Contents() == old(Contents()) - {key}
      ensures r == if key in old(Contents()) then old(Contents())[key] else defaultValue
      ensures defaultValue == old(defaultValue)
      ensures key !in old(Contents()) ==>
        && keys[..] == old(keys[..]) && values[..] == old(values[..]) && hashCache[..] == old(hashCache[..])
    {
      if key == empty {
        EmptyKeyLookup();
        DropEmptyKey(Mapping(keys[..], values[..], empty), empty, allocatedDefaultKey, allocatedDefaultKeyValue);
        if allocatedDefaultKey {
          r := allocatedDefaultKeyValue;
          allocatedDefaultKeyValue := blank;
          allocatedDefaultKey := false;
          return;
        }
        return defaultValue;
      }
      StoredLookup(key);
      var slot := SlotOf(key);
      if slot == -1 {
        RemoveAbsent(Contents(), key);
        return defaultValue;
      }
      ghost var before := Mapping(keys[..], values[..], empty);
      MappingAt(keys[..], values[..], empty, slot);
      r := values[slot];
      ghost var e := EmptySlot();
      RemoveSlot(slot, e);
      RemoveBesideEmptyKey(Mapping(keys[..], values[..], empty), before, empty, key,
                           allocatedDefaultKey, allocatedDefaultKeyValue);
    }

    /**
     * `assigned--; shiftConflictingKeys(slot)`: removes the entry of an occupied slot. Every other
     * pair stays in its slot or moves back by one.
     */
    method RemoveSlot(slot: int, ghost e: int)
      requires Valid()
      requires 0 <= slot < keys.Length && keys[slot] != empty && 0 <= e < keys.Length && keys[e] == empty
      modifies Repr
      ensures Valid() && Repr == old(Repr) && keys.Length == old(keys.Length)
      ensures Mapping(keys[..], values[..], empty) == old(Mapping(keys[..], values[..], empty)) - {old(keys[slot])}
      ensures MovedBack(old(keys[..]), old(values[..]), keys[..], values[..], empty, slot, e)
      ensures assignedCount == old(assignedCount) - 1
      ensures defaultValue == old(defaultValue) && allocatedDefaultKey == old(allocatedDefaultKey)
      ensures allocatedDefaultKeyValue == old(allocatedDefaultKeyValue)
    {
      Removed(keys[..], values[..], hashCache[..], empty, blank, hash, slot, e);
      assignedCount := assignedCount - 1;
      ShiftConflictingKeys(slot, e);
    }

    /**
     * `shiftConflictingKeys`: closes the gap at `gapSlot` as `Shifted` describes, moving back
     * each following entry that may not stay where it is, and blanks the last gap.
     */
    method ShiftConflictingKeys(gapSlot: int, ghost e: int)
      requires (keys as object) != values && (keys as object) != hashCache && (values as object) != hashCache
      requires Gapped(keys[..], values[..], hashCache[..], empty, gapSlot, 0, e)
      modifies keys, values, hashCache
      ensures var r := Shifted(old(keys[..]), old(values[..]), old(hashCache[..]), empty, blank, gapSlot, 0, e);
              keys[..] == r.keys && values[..] == r.vals && hashCache[..] == r.cache
    {
      var n := keys.Length;
      var keys, values, cached := this.keys, this.values, this.hashCache;
      var g, distance := gapSlot, 0;
      ghost var goal := Shifted(keys[..], values[..], cached[..], empty, blank, g, distance, e);
      // `distance` counts the slots scanned past the gap.
      while true
        invariant Gapped(keys[..], values[..], cached[..], empty, g, distance, e)
        invariant Shifted(keys[..], values[..], cached[..], empty, blank, g, distance, e) == goal
        decreases ProbeDistance(e, g, n) - distance
      {
        var slot := Advance(g, distance + 1, n);
        if keys[slot] == empty {
          break;
        }
        ghost var ks, vs, cs := keys[..], values[..], cached[..];
        ShiftStep(ks, vs, cs, empty, blank, g, distance, e);
        var shift := ProbeDistance(slot, cached[slot], n);
        if shift >= distance + 1 {
          MoveBack(keys, values, cached, slot, g);
          g, distance := slot, 0;
        } else {
          distance := distance + 1;
        }
      }
      keys[g] := empty;
      values[g] := blank;
    }

    /** Copies the entry of slot `slot` into the gap `g`. */
    static method MoveBack(keys: array<K>, values: array<V>, cached: array<int>, slot: int, g: int)
      requires (keys as object) != values && (keys as object) != cached && (values as object) != cached
      requires 0 <= slot < keys.Length == values.Length == cached.Length && 0 <= g < keys.Length
      modifies keys, values, cached
      ensures keys[..] == old(keys[..])[g := old(keys[slot])] && values[..] == old(values[..])[g := old(values[slot])]
      ensures cached[..] == old(cached[..])[g := old(cached[slot])]
    {
      keys[g] := keys[slot];
      values[g] := values[slot];
      cached[g] := cached[slot];
    }

    /**
     * `removeAll(KTypeVTypePredicate)`: removes every pair that `pred` selects, the empty key's
     * included, and returns how many were removed. A slot whose entry is removed is looked at
     * again, since the shift may have moved the next entry into it.
     */
    method RemoveAllPairs(pred: (K, V) -> bool) returns (removed: int)
      requires Valid()
      modifies Repr
      ensures Valid() && Repr == old(Repr)
      ensures keys.Length == old(keys.Length) && resizeAt == old(resizeAt)
      ensures Contents() == Filtered(old(Contents()), pred)
      ensures removed == |old(Contents())| - |Contents()|
      ensures defaultValue == old(defaultValue)
    {
      var before := Size();
      ghost var stored := Mapping(keys[..], values[..], empty);
      ghost var present, emptyValue := allocatedDefaultKey, allocatedDefaultKeyValue;
      EmptyKeyLookup();
      if allocatedDefaultKey {
        if pred(empty, allocatedDefaultKeyValue) {
          allocatedDefaultKey := false;
          allocatedDefaultKeyValue := blank;
        }
      }
      RemoveSelectedSlots(pred);
      FilteredBesideEmptyKey(stored, empty, present, emptyValue, pred);
      var after := Size();
      removed := before - after;
    }

    /** `removeAll(KTypePredicate)`: removes every pair whose key `pred` selects. */
    method RemoveAllKeys(pred: K -> bool) returns (removed: int)
      requires Valid()
      modifies Repr
      ensures Valid() && Repr == old(Repr)
      ensures keys.Length == old(keys.Length) && resizeAt == old(resizeAt)
      ensures Contents().Keys == set k | k in old(Contents()) && !pred(k)
      ensures forall k :: k in Contents() ==> Contents()[k] == old(Contents())[k]
      ensures removed == |old(Contents())| - |Contents()|
      ensures defaultValue == old(defaultValue)
    {
      removed := RemoveAllPairs((k, v) => pred(k));
    }

    /** `removeAll(KTypeContainer)`: removes every pair whose key is in `container`. */
    method RemoveAllIn(container: set<K>) returns (removed: int)
      requires Valid()
      modifies Repr
      ensures Valid() && Repr == old(Repr)
      ensures keys.Length == old(keys.Length) && resizeAt == old(resizeAt)
      ensures Contents().Keys == old(Contents()).Keys - container
      ensures forall k :: k in Contents() ==> Contents()[k] == old(Contents())[k]
      ensures removed == |old(Contents())| - |Contents()|
      ensures defaultValue == old(defaultValue)
    {
      removed := RemoveAllPairs((k, v) => k in container);
    }

    /**
     * The slot scan of the `removeAll` methods: removes every entry that `pred` selects. A slot
     * whose entry is removed is looked at again, since the shift may have filled it.
     */
    method RemoveSelectedSlots(pred: (K, V) -> bool)
      requires Valid()
      modifies Repr
      ensures Valid() && Repr == old(Repr)
      ensures Mapping(keys[..], values[..], empty) == Filtered(old(Mapping(keys[..], values[..], empty)), pred)
      ensures defaultValue == old(defaultValue) && allocatedDefaultKey == old(allocatedDefaultKey)
      ensures allocatedDefaultKeyValue == old(allocatedDefaultKeyValue)
    {
      ghost var stored := Mapping(keys[..], values[..], empty);
      var i := 0;
      while i < keys.Length
        invariant Valid() && Repr == old(Repr) && defaultValue == old(defaultValue)
        invariant allocatedDefaultKey == old(allocatedDefaultKey)
        invariant allocatedDefaultKeyValue == old(allocatedDefaultKeyValue)
        invariant 0 <= i <= keys.Length
        invariant FilteredPart(stored, Mapping(keys[..], values[..], empty), pred)
        invariant Screened(keys[..], values[..], empty, pred, i)
        decreases assignedCount, keys.Length - i
      {
        if keys[i] != empty && pred(keys[i], values[i]) {
          ghost var ks, vs := keys[..], values[..];
          MappingAt(ks, vs, empty, i);
          FilteredPartRemove(stored, Mapping(ks, vs, empty), pred, ks[i]);
          ghost var e := EmptySlot();
          RemoveSlot(i, e);
          ScreenedAfterRemoval(ks, vs, keys[..], values[..], empty, pred, i, e);
        } else {
          i := i + 1;
        }
      }
      ScreenedAll(keys[..], values[..], empty, pred);
      FilteredExactly(stored, Mapping(keys[..], values[..], empty), pred);
    }

    /** The number of pairs, the out-of-band one included. */
    method Size() returns (r: int)
      requires Valid()
      ensures r == |Contents()|
    {
      MappingKeys(keys[..], values[..], empty);
      r := assignedCount + if allocatedDefaultKey then 1 else 0;
    }

    /** `resizeAt - 1`, which stays below the buffer length. */
    method Capacity() returns (r: int)
      requires Valid()
      ensures r == ResizeAt(keys.Length, loadFactor) - 1
      ensures 0 <= r < keys.Length - 1
    {
      r := resizeAt - 1;
    }

    /** Removes every pair and blanks the buffers, which keep their length. */
    method Clear()
      requires Valid()
      modifies Repr
      ensures Valid() && Repr == old(Repr)
      ensures Contents() == map[]
      ensures keys == old(keys) && keys.Length == old(keys.Length)
      ensures resizeAt == old(resizeAt) && defaultValue == old(defaultValue)
      ensures forall i :: 0 <= i < keys.Length ==> keys[i] == empty && values[i] == blank
    {
      assignedCount := 0;
      allocatedDefaultKey := false;
      allocatedDefaultKeyValue := blank;
      forall i | 0 <= i < keys.Length {
        keys[i] := empty;
      }
      forall i | 0 <= i < values.Length {
        values[i] := blank;
      }
      assert KeySet(keys[..], empty) == {};
    }
  }
}
