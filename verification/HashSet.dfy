// The hash set (KTypeHashSet) in its Robin-Hood form, the one generated for generic keys:
// parallel `keys` and `hash_cache` arrays, with the empty key kept out of band. The set has no
// value column; where it shares the map's sequence-level loops, a ghost column of units stands in
// for the values.

module Sets {
  import opened Probing
  import opened ProbeLoops

  // ---------------------------------------------------------------------------
  // The probe loop of `add`
  // ---------------------------------------------------------------------------

  /** The slots of an `add` loop: a sized table, the carried entry's cached ideal slot and an empty slot `e`. */
  ghost predicate Walk<K>(keys: seq<K>, cache: seq<int>, empty: K, initial: int, slot: int, e: int) {
    var n := |keys|;
    && WellSized(keys, cache)
    && 0 <= initial < n && 0 <= slot < n
    && 0 <= e < n && keys[e] == empty
  }

  /** How the probe loop of `add` ends: the key was there, or an empty slot was reached. */
  datatype Admission<K> =
    | Present(keys: seq<K>, cache: seq<int>)
    | Vacant(keys: seq<K>, cache: seq<int>, k: K, initial: int, slot: int, dist: int)

  /**
   * The probe loop of `add` from `slot`, carrying key `k` with cached ideal slot `initial`, `dist`
   * slots past it. The key is found only while it is no farther from its ideal slot than the
   * occupant; an occupant nearer its own ideal slot is swapped with the carried key.
   */
  ghost function Admit<K>(keys: seq<K>, cache: seq<int>, empty: K, k: K, initial: int, slot: int, dist: int, e: int)
    : (r: Admission<K>)
    requires Walk(keys, cache, empty, initial, slot, e)
    ensures |r.keys| == |r.cache| == |keys|
    ensures r.Vacant? ==> 0 <= r.slot < |keys| && r.keys[r.slot] == empty
    decreases ProbeDistance(e, slot, |keys|)
  {
    var n := |keys|;
    if keys[slot] == empty then
      Vacant(keys, cache, k, initial, slot, dist)
    else if dist <= Dist(cache, slot) && keys[slot] == k then
      Present(keys, cache)
    else
      DistanceFromNext(e, slot, n);
      if dist > Dist(cache, slot) then
        Admit(keys[slot := k], cache[slot := initial], empty, keys[slot], cache[slot], NextSlot(slot, n),
              Dist(cache, slot) + 1, e)
      else
        Admit(keys, cache, empty, k, initial, NextSlot(slot, n), dist + 1, e)
  }

  /** One step of `Admit` past an occupied slot that does not end the search, as a swap or a pass. */
  lemma AdmitStep<K>(keys: seq<K>, cache: seq<int>, empty: K, k: K, initial: int, slot: int, dist: int, e: int)
    requires Walk(keys, cache, empty, initial, slot, e) && keys[slot] != empty
    requires !(dist <= Dist(cache, slot) && keys[slot] == k)
    ensures slot != e
    ensures Walk(keys[slot := k], cache[slot := initial], empty, cache[slot], NextSlot(slot, |keys|), e)
    ensures Walk(keys, cache, empty, initial, NextSlot(slot, |keys|), e)
    ensures dist > Dist(cache, slot) ==>
      Admit(keys, cache, empty, k, initial, slot, dist, e)
      == Admit(keys[slot := k], cache[slot := initial], empty, keys[slot], cache[slot], NextSlot(slot, |keys|),
               Dist(cache, slot) + 1, e)
    ensures dist <= Dist(cache, slot) ==>
      Admit(keys, cache, empty, k, initial, slot, dist, e)
      == Admit(keys, cache, empty, k, initial, NextSlot(slot, |keys|), dist + 1, e)
  {
  }

  /** The end of the map's `put` loop, read as the end of the set's `add` loop. */
  function AsAdmission<K, V>(p: Placement<K, V>): Admission<K> {
    match p
    case Replaced(slots, _) => Present(slots.keys, slots.cache)
    case Pending(slots, k, _, initial, slot, dist) => Vacant(slots.keys, slots.cache, k, initial, slot, dist)
  }

  /**
   * Over a table in the state of a `put`, the set's loop (which tests the distance before the
   * key) and the map's loop (which tests the key alone) take the same steps: the key can only be
   * met before any swap, and then no farther from its ideal slot than the occupant.
   */
  lemma {:induction false} AdmitIsPlace<K, V>(keys: seq<K>, vals: seq<V>, cache: seq<int>, empty: K, hash: K -> int,
                                              key: K, value: V, before: map<K, V>, count: int, swapped: bool,
                                              k: K, v: V, initial: int, slot: int, dist: int, e: int)
    requires Placing(keys, vals, cache, empty, hash, key, value, before, count, swapped,
                     k, v, initial, slot, dist, e)
    ensures Walk(keys, cache, empty, initial, slot, e) && Stepping(keys, vals, cache, empty, initial, slot, e)
    ensures Admit(keys, cache, empty, k, initial, slot, dist, e)
         == AsAdmission(Place(keys, vals, cache, empty, k, v, initial, slot, dist, e))
    decreases ProbeDistance(e, slot, |keys|)
  {
    var n := |keys|;
    if keys[slot] == empty {
    } else if keys[slot] == k {
      PlaceFound(keys, vals, cache, empty, hash, key, value, before, count, swapped, k, v, initial, slot, dist, e);
    } else {
      AdmitStep(keys, cache, empty, k, initial, slot, dist, e);
      PlaceStep(keys, vals, cache, empty, k, v, initial, slot, dist, e);
      if dist > Dist(cache, slot) {
        PlaceSwap(keys, vals, cache, empty, hash, key, value, before, count, swapped, k, v, initial, slot, dist, e);
        AdmitIsPlace(keys[slot := k], vals[slot := v], cache[slot := initial], empty, hash, key, value, before, count,
                     true, keys[slot], vals[slot], cache[slot], NextSlot(slot, n), Dist(cache, slot) + 1, e);
      } else {
        PlacePast(keys, vals, cache, empty, hash, key, value, before, count, swapped, k, v, initial, slot, dist, e);
        AdmitIsPlace(keys, vals, cache, empty, hash, key, value, before, count,
                     swapped, k, v, initial, NextSlot(slot, n), dist + 1, e);
      }
    }
  }

  /** A column of units, the values of a set seen as a map. */
  ghost function Units(n: nat): (r: seq<()>)
    ensures |r| == n
  {
    seq(n, _ => ())
  }

  /**
   * The probe loop of `add` over a valid table, from the ideal slot of `key`, read through the
   * map's `Place` over a column of units: it finds `key` exactly when the slots hold it, and ends
   * with a valid table, or with an absent key still to settle.
   */
  lemma AdmitPlaced<K>(keys: seq<K>, cache: seq<int>, empty: K, hash: K -> int, key: K, e: int)
    requires Table(keys, cache, empty, hash) && key != empty
    requires 0 <= e < |keys| && keys[e] == empty
    ensures Walk(keys, cache, empty, IdealSlot(hash(key), |keys|), IdealSlot(hash(key), |keys|), e)
    ensures Stepping(keys, Units(|keys|), cache, empty, IdealSlot(hash(key), |keys|), IdealSlot(hash(key), |keys|), e)
    ensures var ideal, us := IdealSlot(hash(key), |keys|), Units(|keys|);
            var a := Admit(keys, cache, empty, key, ideal, ideal, 0, e);
            var p := Place(keys, us, cache, empty, key, (), ideal, ideal, 0, e);
            var before := Mapping(keys, us, empty);
            && a == AsAdmission(p)
            && (p.Replaced? <==> key in before)
            && (p.Replaced? ==> Stores(p.slots, empty, hash, before[key := ()], |KeySet(keys, empty)|))
            && (p.Pending? ==> Loading(p.slots.keys, p.slots.vals, p.slots.cache, empty, hash,
                                       p.k, p.v, p.initial, p.slot, p.dist, e, before[key := ()],
                                       |KeySet(keys, empty)|))
  {
    var n := |keys|;
    var us, ideal := Units(n), IdealSlot(hash(key), n);
    var before, count := Mapping(keys, us, empty), |KeySet(keys, empty)|;
    PlaceStart(keys, us, cache, empty, hash, key, (), e);
    Placed(keys, us, cache, empty, hash, key, (), before, count, false, key, (), ideal, ideal, 0, e);
    AdmitIsPlace(keys, us, cache, empty, hash, key, (), before, count, false, key, (), ideal, ideal, 0, e);
  }

  /** The probe loop of `add` finds `key` exactly when the slots hold it, and then keeps them. */
  lemma AdmitFinds<K>(keys: seq<K>, cache: seq<int>, empty: K, hash: K -> int, key: K, e: int)
    requires Table(keys, cache, empty, hash) && key != empty
    requires 0 <= e < |keys| && keys[e] == empty
    ensures Walk(keys, cache, empty, IdealSlot(hash(key), |keys|), IdealSlot(hash(key), |keys|), e)
    ensures var a := Admit(keys, cache, empty, key, IdealSlot(hash(key), |keys|), IdealSlot(hash(key), |keys|), 0, e);
            && (a.Present? <==> key in KeySet(keys, empty))
            && (a.Present? ==>
                  && Table(a.keys, a.cache, empty, hash)
                  && KeySet(a.keys, empty) == KeySet(keys, empty)
                  && |KeySet(a.keys, empty)| == |KeySet(keys, empty)|)
  {
    AdmitPlaced(keys, cache, empty, hash, key, e);
    var us, ideal := Units(|keys|), IdealSlot(hash(key), |keys|);
    var p := Place(keys, us, cache, empty, key, (), ideal, ideal, 0, e);
    MappingKeys(keys, us, empty);
    if p.Replaced? {
      assert Admit(keys, cache, empty, key, ideal, ideal, 0, e) == Present(p.slots.keys, p.slots.cache);
      MappingKeys(p.slots.keys, p.slots.vals, empty);
      assert Mapping(keys, us, empty)[key := ()].Keys == Mapping(keys, us, empty).Keys;
    }
  }

  /**
   * When the probe loop of `add` does not find `key`, it ends at an empty slot carrying a key the
   * slots do not hold, over a table in the state of an insertion; the slots' keys and the carried
   * one are the old keys and `key`.
   */
  lemma AdmitCarries<K>(keys: seq<K>, cache: seq<int>, empty: K, hash: K -> int, key: K, e: int)
    requires Table(keys, cache, empty, hash) && key != empty
    requires 0 <= e < |keys| && keys[e] == empty
    ensures Walk(keys, cache, empty, IdealSlot(hash(key), |keys|), IdealSlot(hash(key), |keys|), e)
    ensures var a := Admit(keys, cache, empty, key, IdealSlot(hash(key), |keys|), IdealSlot(hash(key), |keys|), 0, e);
            a.Vacant? ==>
              && Inserting(a.keys, a.cache, empty, hash, a.k, a.initial, a.slot, a.dist, e)
              && Absent(a.keys, a.k)
              && KeySet(a.keys, empty) + {a.k} == KeySet(keys, empty) + {key}
              && |KeySet(a.keys, empty)| == |KeySet(keys, empty)|
  {
    AdmitPlaced(keys, cache, empty, hash, key, e);
    var us, ideal := Units(|keys|), IdealSlot(hash(key), |keys|);
    var p := Place(keys, us, cache, empty, key, (), ideal, ideal, 0, e);
    if p.Pending? {
      var a := Admit(keys, cache, empty, key, ideal, ideal, 0, e);
      assert a == Vacant(p.slots.keys, p.slots.cache, p.k, p.initial, p.slot, p.dist);
      MappingKeys(keys, us, empty);
      MappingKeys(p.slots.keys, p.slots.vals, empty);
      UpdatedKeys(Mapping(p.slots.keys, p.slots.vals, empty), Mapping(keys, us, empty), p.k, p.v, key, ());
    }
  }

  /** Two maps equal after one update each have the same keys plus the updated ones. */
  lemma UpdatedKeys<K, V>(m: map<K, V>, m': map<K, V>, k: K, v: V, k': K, v': V)
    requires m[k := v] == m'[k' := v']
    ensures m.Keys + {k} == m'.Keys + {k'}
  {
    assert m[k := v].Keys == m.Keys + {k};
    assert m'[k' := v'].Keys == m'.Keys + {k'};
  }

  /**
   * Removing the key of an occupied slot `g` by the backward shift leaves a valid table without
   * that key, with one key less, every other key left in place or moved back by one slot.
   */
  lemma RemovedKey<K>(keys: seq<K>, cache: seq<int>, empty: K, hash: K -> int, g: int, e: int)
    requires Table(keys, cache, empty, hash)
    requires 0 <= g < |keys| && keys[g] != empty && 0 <= e < |keys| && keys[e] == empty
    ensures Gapped(keys, Units(|keys|), cache, empty, g, 0, e)
    ensures var r := Shifted(keys, Units(|keys|), cache, empty, (), g, 0, e);
            && Table(r.keys, r.cache, empty, hash)
            && KeySet(r.keys, empty) == KeySet(keys, empty) - {keys[g]}
            && |KeySet(r.keys, empty)| == |KeySet(keys, empty)| - 1
            && KeysMovedBack(keys, r.keys, empty, g, e)
  {
    var us := Units(|keys|);
    Removed(keys, us, cache, empty, (), hash, g, e);
    var r := Shifted(keys, us, cache, empty, (), g, 0, e);
    MappingKeys(keys, us, empty);
    MappingKeys(r.keys, r.vals, empty);
  }

  // ---------------------------------------------------------------------------
  // The slot scan of `removeAll`
  // ---------------------------------------------------------------------------

  /** Every key left after a backward shift from gap `g` stayed in its slot or moved back by one. */
  ghost predicate KeysMovedBack<K>(keys: seq<K>, keys': seq<K>, empty: K, g: int, e: int)
    requires |keys| == |keys'| && 0 <= g < |keys| && 0 <= e < |keys|
  {
    var n := |keys|;
    forall p :: 0 <= p < n && keys'[p] != empty ==>
      || (p != g && keys'[p] == keys[p])
      || (ProbeDistance(p, g, n) < ProbeDistance(e, g, n) && keys'[p] == keys[NextSlot(p, n)])
  }

  /** `pred` selects none of the keys in the slots before `i`. */
  ghost predicate ScreenedKeys<K>(keys: seq<K>, empty: K, pred: K -> bool, i: int)
    requires i <= |keys|
  {
    forall p :: 0 <= p < i && keys[p] != empty ==> !pred(keys[p])
  }

  /**
   * After the key of slot `i` is removed, the slots before `i` are still screened: each key stayed
   * in place or came back from the slot after it, and the key of slot `i` itself is gone.
   */
  lemma ScreenedKeysAfterRemoval<K>(keys: seq<K>, keys': seq<K>, empty: K, pred: K -> bool, i: int, e: int)
    requires |keys| == |keys'| && 0 <= i < |keys| && 0 <= e < |keys|
    requires keys[i] !in KeySet(keys', empty)
    requires KeysMovedBack(keys, keys', empty, i, e)
    requires ScreenedKeys(keys, empty, pred, i)
    ensures ScreenedKeys(keys', empty, pred, i)
  {
    forall p | 0 <= p < i && keys'[p] != empty
      ensures !pred(keys'[p])
    {
      assert keys'[p] in KeySet(keys', empty);
      assert NextSlot(p, |keys|) == p + 1;
    }
  }

  /** The keys held out of band: the empty key when its flag is set. */
  function Flagged<K>(empty: K, present: bool): (r: set<K>)
    ensures r == {} || r == {empty}
  {
    if present then {empty} else {}
  }

  /**
   * Adding `key` to the keys in the slots and the flagged empty key: the empty key only sets the
   * flag, another key joins the slots.
   */
  lemma Joined<K>(stored: set<K>, before: set<K>, empty: K, key: K, was: bool, now: bool)
    requires empty !in before
    requires if key == empty then stored == before && now else stored == before + {key} && now == was
    ensures stored + Flagged(empty, now) == before + Flagged(empty, was) + {key}
    ensures key in before + Flagged(empty, was) <==> (if key == empty then was else key in before)
  {
  }

  /**
   * Removing `key` from the keys in the slots and the flagged empty key: the empty key only
   * clears the flag, another key leaves the slots if it is there.
   */
  lemma Parted<K>(stored: set<K>, before: set<K>, empty: K, key: K, was: bool, now: bool)
    requires empty !in before
    requires if key == empty then stored == before && !now
             else (stored == before - {key} || (key !in before && stored == before)) && now == was
    ensures stored + Flagged(empty, now) == before + Flagged(empty, was) - {key}
    ensures key in before + Flagged(empty, was) <==> (if key == empty then was else key in before)
  {
  }

  /**
   * Removing the keys `pred` selects from the keys in the slots and the flagged empty key: the
   * flag is cleared if `pred` selects the empty key.
   */
  lemma Kept<K>(stored: set<K>, before: set<K>, empty: K, pred: K -> bool, was: bool, now: bool)
    requires empty !in before
    requires stored == set k | k in before && !pred(k)
    requires now == (was && !pred(empty))
    ensures stored + Flagged(empty, now) == set k | k in before + Flagged(empty, was) && !pred(k)
  {
  }

  class HashSet<K(==)> {
    /** The key 0/null, which marks an empty slot and is held out of band. */
    const empty: K
    /** The key's hash code, perturbed and mixed: `REHASH(key)`. */
    const hash: K -> int

    var keys: array<K>
    var hashCache: array<int>
    var allocatedDefaultKey: bool
    var assignedCount: int
    var resizeAt: int

    ghost var Repr: set<object>

    ghost predicate Valid()
      reads this, Repr
    {
      var n := keys.Length;
      && Repr == {this, keys, hashCache}
      && (keys as object) != hashCache
      && PowerOfTwo(n)
      && Table(keys[..], hashCache[..], empty, hash)
      && assignedCount == |KeySet(keys[..], empty)|
      && assignedCount <= resizeAt < n
    }

    /** The keys the set holds: those in the slots, and the empty key if allocated. */
    ghost function Contents(): set<K>
      requires Valid()
      reads this, Repr
    {
      KeySet(keys[..], empty) + Flagged(empty, allocatedDefaultKey)
    }

    /** An empty slot, which the load bound guarantees. */
    lemma EmptySlot() returns (e: int)
      requires Valid()
      ensures 0 <= e < keys.Length && keys[e] == empty
    {
      FreeSlotExists(keys[..], empty);
      e :| 0 <= e < keys.Length && keys[..][e] == empty;
    }

    /** The empty key is held out of band; the slots hold only other keys. */
    lemma EmptyKeyApart()
      requires Valid()
      ensures empty !in KeySet(keys[..], empty)
      ensures empty in Contents() <==> allocatedDefaultKey
    {
    }

    /**
     * A set of `capacity` slots that grows when it holds `expandAt` keys in its slots. The capacity
     * and the threshold are those `minBufferSize` and `expandAtCount` compute.
     */
    constructor (capacity: int, expandAt: int, hash: K -> int, empty: K)
      requires PowerOfTwo(capacity) && capacity >= 2 && 0 <= expandAt < capacity
      ensures Valid() && fresh(Repr)
      ensures Contents() == {}
      ensures keys.Length == capacity && resizeAt == expandAt
      ensures this.hash == hash && this.empty == empty
    {
      this.empty := empty;
      this.hash := hash;
      allocatedDefaultKey := false;
      assignedCount := 0;
      keys := new K[capacity](_ => empty);
      hashCache := new int[capacity](_ => 0);
      resizeAt := expandAt;
      new;
      Repr := {this, keys, hashCache};
      EmptyTable(keys[..], seq(capacity, _ => ()), hashCache[..], empty, hash);
    }

    /** `allocateBuffers`: fresh empty arrays of `capacity` slots. */
    method AllocateBuffers(capacity: int, expandAt: int)
      requires PowerOfTwo(capacity) && capacity >= 2 && 0 <= expandAt < capacity
      modifies this
      ensures fresh(keys) && fresh(hashCache) && (keys as object) != hashCache
      ensures Repr == {this, keys, hashCache}
      ensures keys.Length == hashCache.Length == capacity
      ensures Table(keys[..], hashCache[..], empty, hash) && KeySet(keys[..], empty) == {}
      ensures resizeAt == expandAt
      ensures assignedCount == old(assignedCount) && allocatedDefaultKey == old(allocatedDefaultKey)
    {
      keys := new K[capacity](_ => empty);
      hashCache := new int[capacity](_ => 0);
      resizeAt := expandAt;
      Repr := {this, keys, hashCache};
      EmptyTable(keys[..], seq(capacity, _ => ()), hashCache[..], empty, hash);
    }

    /**
     * `add`: adds `key` and answers whether it was new. A full table first grows to
     * `grownCapacity` slots with threshold `grownExpandAt`.
     */
    method Add(key: K, grownCapacity: int, grownExpandAt: int) returns (r: bool)
      requires Valid()
      requires PowerOfTwo(grownCapacity) && grownCapacity > keys.Length
      requires resizeAt < grownExpandAt < grownCapacity
      modifies Repr
      ensures Valid() && fresh(Repr - old(Repr))
      ensures Contents() == old(Contents()) + {key}
      ensures r <==> key !in old(Contents())
      ensures key == empty ==>
        && keys == old(keys) && hashCache == old(hashCache)
        && keys[..] == old(keys[..]) && hashCache[..] == old(hashCache[..])
        && assignedCount == old(assignedCount)
    {
      EmptyKeyApart();
      ghost var stored, flagged := KeySet(keys[..], empty), allocatedDefaultKey;
      if key == empty {
        if allocatedDefaultKey {
          Joined(stored, stored, empty, key, flagged, true);
          return false;
        }
        allocatedDefaultKey := true;
        assert KeySet(keys[..], empty) == stored;
        Joined(stored, stored, empty, key, flagged, true);
        return true;
      }
      r := AddStored(key, grownCapacity, grownExpandAt);
      Joined(KeySet(keys[..], empty), stored, empty, key, flagged, flagged);
    }

    /** `add` of a key other than the empty key: the probe loop, then the store or the growth. */
    method AddStored(key: K, grownCapacity: int, grownExpandAt: int) returns (r: bool)
      requires Valid() && key != empty
      requires PowerOfTwo(grownCapacity) && grownCapacity > keys.Length
      requires resizeAt < grownExpandAt < grownCapacity
      modifies Repr
      ensures Valid() && fresh(Repr - old(Repr))
      ensures KeySet(keys[..], empty) == old(KeySet(keys[..], empty)) + {key}
      ensures r <==> key !in old(KeySet(keys[..], empty))
      ensures assignedCount == old(assignedCount) + if r then 1 else 0
      ensures allocatedDefaultKey == old(allocatedDefaultKey)
    {
      ghost var stored := KeySet(keys[..], empty);
      ghost var e := EmptySlot();
      ghost var ks, cs := keys[..], hashCache[..];
      ghost var ideal := IdealSlot(hash(key), keys.Length);
      AdmitFinds(ks, cs, empty, hash, key, e);
      AdmitCarries(ks, cs, empty, hash, key, e);
      ghost var a := Admit(ks, cs, empty, key, ideal, ideal, 0, e);
      var found, slot, k, initial, dist := AddFrom(key, e);
      assert keys[..] == a.keys && hashCache[..] == a.cache;
      if found {
        assert a.Present?;
        return false;
      }
      assert KeySet(keys[..], empty) + {k} == stored + {key};
      assert Inserting(keys[..], hashCache[..], empty, hash, k, initial, slot, dist, e) && Absent(keys[..], k);
      assert |KeySet(keys[..], empty)| == assignedCount;
      AddPending(k, initial, slot, dist, e, grownCapacity, grownExpandAt);
      return true;
    }

    /**
     * The probe loop of `add`, on the arrays alone: it ends as `Admit` describes, with the key
     * found or the carried key at an empty slot.
     */
    method AddFrom(key: K, ghost e: int) returns (found: bool, slot: int, k: K, initial: int, dist: int)
      requires (keys as object) != hashCache
      requires keys.Length >= 2
      requires Walk(keys[..], hashCache[..], empty, IdealSlot(hash(key), keys.Length), IdealSlot(hash(key), keys.Length), e)
      modifies keys, hashCache
      ensures var a := Admit(old(keys[..]), old(hashCache[..]), empty, key,
                             IdealSlot(hash(key), keys.Length), IdealSlot(hash(key), keys.Length), 0, e);
              && keys[..] == a.keys && hashCache[..] == a.cache
              && found == a.Present?
              && (a.Vacant? ==> k == a.k && initial == a.initial && slot == a.slot && dist == a.dist)
    {
      var n := keys.Length;
      slot := IdealSlot(hash(key), n);
      k, initial, dist := key, slot, 0;
      var keys, cached := this.keys, this.hashCache;
      ghost var goal := Admit(keys[..], cached[..], empty, k, initial, slot, dist, e);
      while keys[slot] != empty
        invariant Walk(keys[..], cached[..], empty, initial, slot, e)
        invariant Admit(keys[..], cached[..], empty, k, initial, slot, dist, e) == goal
        decreases ProbeDistance(e, slot, n)
      {
        var existing := ProbeDistance(slot, cached[slot], n);
        if dist <= existing && k == keys[slot] {
          assert goal == Present(keys[..], cached[..]);
          return true, slot, k, initial, dist;
        }
        ghost var ks, cs := keys[..], cached[..];
        AdmitStep(ks, cs, empty, k, initial, slot, dist, e);
        if dist > existing {
          k, initial := SwapKey(keys, cached, slot, k, initial);
          dist := existing;
        }
        slot := NextSlot(slot, n);
        dist := dist + 1;
      }
      assert goal == Vacant(keys[..], cached[..], k, initial, slot, dist);
      found := false;
    }

    /** Exchanges the carried key and cached ideal slot with those of slot `slot`. */
    static method SwapKey(keys: array<K>, cached: array<int>, slot: int, k: K, initial: int)
      returns (k': K, initial': int)
      requires (keys as object) != cached
      requires 0 <= slot < keys.Length == cached.Length
      modifies keys, cached
      ensures k' == old(keys[slot]) && initial' == old(cached[slot])
      ensures keys[..] == old(keys[..])[slot := k] && cached[..] == old(cached[..])[slot := initial]
    {
      k', initial' := keys[slot], cached[slot];
      keys[slot] := k;
      cached[slot] := initial;
    }

    /**
     * The end of `add` for a new key: the carried key `k` settles in the empty slot `slot`, or the
     * set grows first when it holds `resizeAt` keys.
     */
    method AddPending(k: K, initial: int, slot: int, dist: int, ghost e: int, grownCapacity: int, grownExpandAt: int)
      requires Valid()
      requires Inserting(keys[..], hashCache[..], empty, hash, k, initial, slot, dist, e) && Absent(keys[..], k)
      requires keys[slot] == empty
      requires PowerOfTwo(grownCapacity) && grownCapacity > keys.Length
      requires resizeAt < grownExpandAt < grownCapacity
      modifies Repr
      ensures Valid() && fresh(Repr - old(Repr))
      ensures KeySet(keys[..], empty) == old(KeySet(keys[..], empty)) + {k}
      ensures assignedCount == old(assignedCount) + 1
      ensures allocatedDefaultKey == old(allocatedDefaultKey)
    {
      if assignedCount == resizeAt {
        ExpandAndAdd(k, slot, grownCapacity, grownExpandAt);
      } else {
        ghost var ks, cs := keys[..], hashCache[..];
        InsertSettle(ks, cs, empty, hash, k, initial, slot, dist, e);
        KeySetInsert(ks, empty, slot, k);
        assignedCount := assignedCount + 1;
        hashCache[slot] := initial;
        keys[slot] := k;
        assert keys[..] == ks[slot := k] && hashCache[..] == cs[slot := initial];
      }
    }

    /**
     * `expandAndAdd`: writes the pending key into the free slot of the old array, allocates the
     * grown arrays and re-inserts every old key, from the highest slot down.
     */
    method ExpandAndAdd(pendingKey: K, freeSlot: int, grownCapacity: int, grownExpandAt: int)
      requires Valid()
      requires pendingKey != empty && 0 <= freeSlot < keys.Length && keys[freeSlot] == empty
      requires Absent(keys[..], pendingKey)
      requires assignedCount == resizeAt
      requires PowerOfTwo(grownCapacity) && grownCapacity > keys.Length
      requires resizeAt < grownExpandAt < grownCapacity
      modifies Repr
      ensures Valid() && fresh(Repr - old(Repr))
      ensures KeySet(keys[..], empty) == old(KeySet(keys[..], empty)) + {pendingKey}
      ensures assignedCount == old(assignedCount) + 1
      ensures keys.Length == grownCapacity && resizeAt == grownExpandAt
      ensures allocatedDefaultKey == old(allocatedDefaultKey)
    {
      var oldKeys := keys;
      ghost var ks := keys[..];
      ghost var pending := ks[freeSlot := pendingKey];
      KeySetInsert(ks, empty, freeSlot, pendingKey);
      AllocateBuffers(grownCapacity, grownExpandAt);
      assignedCount := assignedCount + 1;
      oldKeys[freeSlot] := pendingKey;
      assert oldKeys[..] == pending;
      Rehash(oldKeys);
    }

    /** The re-insertion loop of `expandAndAdd`: every key of `oldKeys` goes into the empty new table. */
    method Rehash(oldKeys: array<K>)
      requires keys.Length == hashCache.Length && (keys as object) != hashCache
      requires (oldKeys as object) != keys && (oldKeys as object) != hashCache
      requires Table(keys[..], hashCache[..], empty, hash) && KeySet(keys[..], empty) == {}
      requires Distinct(oldKeys[..], empty) && |KeySet(oldKeys[..], empty)| < keys.Length
      modifies keys, hashCache
      ensures Table(keys[..], hashCache[..], empty, hash)
      ensures KeySet(keys[..], empty) == KeySet(oldKeys[..], empty)
    {
      ghost var ok := oldKeys[..];
      ghost var ou := seq(oldKeys.Length, _ => ());
      ghost var vs := seq(keys.Length, _ => ());
      MappingKeys(keys[..], vs, empty);
      var i := oldKeys.Length;
      while i > 0
        invariant 0 <= i <= oldKeys.Length
        invariant Table(keys[..], hashCache[..], empty, hash) && |vs| == keys.Length
        invariant Mapping(keys[..], vs, empty) == MappingFrom(ok, ou, empty, i)
        decreases i
      {
        i := i - 1;
        MappingFromStep(ok, ou, empty, i);
        if oldKeys[i] != empty {
          var k := oldKeys[i];
          ghost var e := RoomToMove(keys[..], vs, ok, ou, empty, i);
          Reinserted(keys[..], vs, hashCache[..], empty, hash, k, (), e);
          ghost var ideal := IdealSlot(hash(k), keys.Length);
          ghost var r := Carried(keys[..], vs, hashCache[..], empty, k, (), ideal, ideal, 0, e);
          Reinsert(k, e, vs);
          vs := r.vals;
        }
      }
      assert MappingFrom(ok, ou, empty, 0) == Mapping(ok, ou, empty);
      MappingKeys(keys[..], vs, empty);
      MappingKeys(ok, ou, empty);
    }

    /** One re-insertion: the key is carried from its ideal slot to an empty one, as `Carried` describes. */
    method Reinsert(key: K, ghost e: int, ghost vs: seq<()>)
      requires (keys as object) != hashCache
      requires keys.Length >= 2
      requires Stepping(keys[..], vs, hashCache[..], empty,
                        IdealSlot(hash(key), keys.Length), IdealSlot(hash(key), keys.Length), e)
      modifies keys, hashCache
      ensures var r := Carried(old(keys[..]), vs, old(hashCache[..]), empty, key, (),
                               IdealSlot(hash(key), keys.Length), IdealSlot(hash(key), keys.Length), 0, e);
              keys[..] == r.keys && hashCache[..] == r.cache
    {
      var n := keys.Length;
      var keys, cached := this.keys, this.hashCache;
      var k := key;
      var slot := IdealSlot(hash(k), n);
      var initial, dist := slot, 0;
      ghost var vals, v := vs, ();
      ghost var goal := Carried(keys[..], vals, cached[..], empty, k, v, initial, slot, dist, e);
      while keys[slot] != empty
        invariant Stepping(keys[..], vals, cached[..], empty, initial, slot, e)
        invariant Carried(keys[..], vals, cached[..], empty, k, v, initial, slot, dist, e) == goal
        decreases ProbeDistance(e, slot, n)
      {
        ghost var ks, cs := keys[..], cached[..];
        CarriedStep(ks, vals, cs, empty, k, v, initial, slot, dist, e);
        var existing := ProbeDistance(slot, cached[slot], n);
        if dist > existing {
          k, initial := SwapKey(keys, cached, slot, k, initial);
          vals, v := vals[slot := v], vals[slot];
          dist := existing;
        }
        slot := NextSlot(slot, n);
        dist := dist + 1;
      }
      cached[slot] := initial;
      keys[slot] := k;
    }

    /**
     * The probe that `contains` and `remove` share: from the key's ideal slot, step over the
     * entries until the key, an empty slot, or an entry nearer its own ideal slot than the key
     * would be. The slot that holds `key`, or -1.
     */
    method SlotOf(key: K) returns (slot: int)
      requires Valid() && key != empty
      ensures -1 <= slot < keys.Length
      ensures slot == -1 <==> key !in KeySet(keys[..], empty)
      ensures slot != -1 ==> keys[slot] == key
    {
      ghost var ks, cs := keys[..], hashCache[..];
      ghost var e := EmptySlot();
      ProbeStart(ks, cs, empty, hash, key, e);
      var n := keys.Length;
      slot := IdealSlot(hash(key), n);
      ghost var ideal := slot;
      var dist := 0;
      assert Advance(ideal, 0, n) == ideal;
      while keys[slot] != empty && dist <= ProbeDistance(slot, hashCache[slot], n)
        invariant Probe(ks, cs, empty, hash, key, e, dist)
        invariant slot == Advance(ideal, dist, n)
        decreases ProbeDistance(e, ideal, n) - dist
      {
        if key == keys[slot] {
          return;
        }
        ProbeStep(ks, cs, empty, hash, key, e, dist);
        slot := NextSlot(slot, n);
        dist := dist + 1;
      }
      ProbeMiss(ks, cs, empty, hash, key, e, dist);
      return -1;
    }

    /** `contains`: whether the set holds `key`. */
    method Contains(key: K) returns (r: bool)
      requires Valid()
      ensures r <==> key in Contents()
    {
      EmptyKeyApart();
      if key == empty {
        return allocatedDefaultKey;
      }
      var slot := SlotOf(key);
      return slot != -1;
    }

    /** `remove`: removes `key` and answers whether the set held it. */
    method Remove(key: K) returns (r: bool)
      requires Valid()
      modifies Repr
      ensures Valid() && Repr == old(Repr)
      ensures keys.Length == old(keys.Length) && resizeAt == old(resizeAt)
      ensures Contents() == old(Contents()) - {key}
      ensures r <==> key in old(Contents())
      ensures key !in old(Contents()) ==> keys[..] == old(keys[..]) && hashCache[..] == old(hashCache[..])
    {
      EmptyKeyApart();
      ghost var stored, flagged := KeySet(keys[..], empty), allocatedDefaultKey;
      if key == empty {
        if allocatedDefaultKey {
          allocatedDefaultKey := false;
          assert KeySet(keys[..], empty) == stored;
          Parted(stored, stored, empty, key, flagged, false);
          return true;
        }
        Parted(stored, stored, empty, key, flagged, false);
        return false;
      }
      var slot := SlotOf(key);
      if slot == -1 {
        Parted(stored, stored, empty, key, flagged, flagged);
        return false;
      }
      ghost var e := EmptySlot();
      ShiftConflictingKeys(slot, e);
      Parted(KeySet(keys[..], empty), stored, empty, key, flagged, flagged);
      return true;
    }

    /** `removeAll(KType)`: removes `key` and answers how many keys were removed, one or none. */
    method RemoveAllOf(key: K) returns (removed: int)
      requires Valid()
      modifies Repr
      ensures Valid() && Repr == old(Repr)
      ensures keys.Length == old(keys.Length) && resizeAt == old(resizeAt)
      ensures Contents() == old(Contents()) - {key}
      ensures removed == if key in old(Contents()) then 1 else 0
    {
      var found := Remove(key);
      removed := if found then 1 else 0;
    }

    /**
     * `shiftConflictingKeys`: removes the key of slot `gapSlot` by closing the gap, and counts one
     * key less. Every other key stays in its slot or moves back by one.
     */
    method ShiftConflictingKeys(gapSlot: int, ghost e: int)
      requires Valid()
      requires 0 <= gapSlot < keys.Length && keys[gapSlot] != empty && 0 <= e < keys.Length && keys[e] == empty
      modifies Repr
      ensures Valid() && Repr == old(Repr) && keys.Length == old(keys.Length)
      ensures KeySet(keys[..], empty) == old(KeySet(keys[..], empty)) - {old(keys[gapSlot])}
      ensures KeysMovedBack(old(keys[..]), keys[..], empty, gapSlot, e)
      ensures assignedCount == old(assignedCount) - 1
      ensures allocatedDefaultKey == old(allocatedDefaultKey) && keys == old(keys) && resizeAt == old(resizeAt)
    {
      RemovedKey(keys[..], hashCache[..], empty, hash, gapSlot, e);
      ghost var r := Shifted(keys[..], Units(keys.Length), hashCache[..], empty, (), gapSlot, 0, e);
      ShiftBack(gapSlot, e, Units(keys.Length));
      assert keys[..] == r.keys && hashCache[..] == r.cache;
      assignedCount := assignedCount - 1;
    }

    /**
     * The loop of `shiftConflictingKeys`, as `Shifted` describes it: each following entry that may
     * not stay where it is moves back into the gap, and the last gap is blanked.
     */
    method ShiftBack(gapSlot: int, ghost e: int, ghost us: seq<()>)
      requires (keys as object) != hashCache
      requires Gapped(keys[..], us, hashCache[..], empty, gapSlot, 0, e)
      modifies keys, hashCache
      ensures var r := Shifted(old(keys[..]), us, old(hashCache[..]), empty, (), gapSlot, 0, e);
              keys[..] == r.keys && hashCache[..] == r.cache
    {
      var n := keys.Length;
      var keys, cached := this.keys, this.hashCache;
      var g, distance := gapSlot, 0;
      ghost var vals := us;
      ghost var goal := Shifted(keys[..], vals, cached[..], empty, (), g, distance, e);
      // `distance` counts the slots scanned past the gap.
      while true
        invariant Gapped(keys[..], vals, cached[..], empty, g, distance, e)
        invariant Shifted(keys[..], vals, cached[..], empty, (), g, distance, e) == goal
        decreases ProbeDistance(e, g, n) - distance
      {
        var slot := Advance(g, distance + 1, n);
        if keys[slot] == empty {
          break;
        }
        ghost var ks, cs := keys[..], cached[..];
        ShiftStep(ks, vals, cs, empty, (), g, distance, e);
        var shift := ProbeDistance(slot, cached[slot], n);
        if shift >= distance + 1 {
          keys[g] := keys[slot];
          cached[g] := cached[slot];
          vals := vals[g := vals[slot]];
          g, distance := slot, 0;
        } else {
          distance := distance + 1;
        }
      }
      keys[g] := empty;
    }

    /**
     * `removeAll(KTypePredicate)`: removes every key that `pred` selects, the empty key included,
     * and returns how many were removed.
     */
    method RemoveAll(pred: K -> bool) returns (removed: int)
      requires Valid()
      modifies Repr
      ensures Valid() && Repr == old(Repr)
      ensures keys.Length == old(keys.Length) && resizeAt == old(resizeAt)
      ensures Contents() == set k | k in old(Contents()) && !pred(k)
      ensures removed == |old(Contents())| - |Contents()|
    {
      var before := Size();
      EmptyKeyApart();
      ghost var stored, flagged := KeySet(keys[..], empty), allocatedDefaultKey;
      if allocatedDefaultKey && pred(empty) {
        allocatedDefaultKey := false;
      }
      RemoveSelectedSlots(pred);
      Kept(KeySet(keys[..], empty), stored, empty, pred, flagged, allocatedDefaultKey);
      var after := Size();
      removed := before - after;
    }

    /**
     * The slot scan of `removeAll`: removes every key in the slots that `pred` selects. A slot
     * whose key is removed is looked at again, since the shift may have filled it.
     */
    method RemoveSelectedSlots(pred: K -> bool)
      requires Valid()
      modifies Repr
      ensures Valid() && Repr == old(Repr)
      ensures KeySet(keys[..], empty) == set k | k in old(KeySet(keys[..], empty)) && !pred(k)
      ensures allocatedDefaultKey == old(allocatedDefaultKey)
      ensures keys.Length == old(keys.Length) && resizeAt == old(resizeAt)
    {
      ghost var stored := KeySet(keys[..], empty);
      var i := 0;
      while i < keys.Length
        invariant Valid() && Repr == old(Repr) && allocatedDefaultKey == old(allocatedDefaultKey)
        invariant keys == old(keys) && resizeAt == old(resizeAt)
        invariant 0 <= i <= keys.Length
        invariant KeySet(keys[..], empty) <= stored
        invariant forall k :: k in stored && k !in KeySet(keys[..], empty) ==> pred(k)
        invariant ScreenedKeys(keys[..], empty, pred, i)
        decreases assignedCount, keys.Length - i
      {
        if keys[i] != empty && pred(keys[i]) {
          ghost var ks := keys[..];
          ghost var e := EmptySlot();
          ShiftConflictingKeys(i, e);
          ScreenedKeysAfterRemoval(ks, keys[..], empty, pred, i, e);
        } else {
          i := i + 1;
        }
      }
    }

    /** `clear`: empties the set; the arrays keep their size. */
    method Clear()
      requires Valid()
      modifies Repr
      ensures Valid() && Repr == old(Repr)
      ensures Contents() == {}
      ensures keys == old(keys) && keys.Length == old(keys.Length) && resizeAt == old(resizeAt)
      ensures forall i :: 0 <= i < keys.Length ==> keys[i] == empty
    {
      assignedCount := 0;
      allocatedDefaultKey := false;
      forall i | 0 <= i < keys.Length {
        keys[i] := empty;
      }
      assert KeySet(keys[..], empty) == {};
    }

    /** `size`: the number of keys, the out-of-band one included. */
    method Size() returns (r: int)
      requires Valid()
      ensures r == |Contents()|
    {
      EmptyKeyApart();
      r := assignedCount + if allocatedDefaultKey then 1 else 0;
    }

    /**
     * `capacity`: the number of keys the slots take before the set grows. It bounds the keys in
     * the slots and stays below the number of slots.
     */
    method Capacity() returns (r: int)
      requires Valid()
      ensures r == resizeAt
      ensures |KeySet(keys[..], empty)| <= r < keys.Length
    {
      r := resizeAt;
    }
  }
}
