// The probe loops of the map, as functions on snapshots of its parallel arrays. Each loop of
// the class is proved to leave its arrays as the function says; the lemmas below say what the
// function's result holds.

module ProbeLoops {
  import opened Probing

  /** Snapshots of the `keys`, `values` and `hash_cache` arrays. */
  datatype Slots<K, V> = Slots(keys: seq<K>, vals: seq<V>, cache: seq<int>)

  /** What a loop may assume of the snapshots it steps through: lengths and cached slots in range. */
  ghost predicate Stepping<K, V>(keys: seq<K>, vals: seq<V>, cache: seq<int>, empty: K,
                                 initial: int, slot: int, e: int)
  {
    var n := |keys|;
    && WellSized(keys, cache) && |vals| == n
    && 0 <= initial < n && 0 <= slot < n
    && 0 <= e < n && keys[e] == empty
  }

  // ---------------------------------------------------------------------------
  // The re-insertion loop of the growth
  // ---------------------------------------------------------------------------

  /**
   * Carrying `k`/`v`, whose ideal slot is `initial`, from `slot`, `dist` steps along: an entry
   * displaced by less than `dist` is swapped out and carried on instead, and the carried pair
   * settles in the first empty slot. The empty slot `e` bounds the walk.
   */
  ghost function Carried<K, V>(keys: seq<K>, vals: seq<V>, cache: seq<int>, empty: K,
                               k: K, v: V, initial: int, slot: int, dist: int, e: int): (r: Slots<K, V>)
    requires Stepping(keys, vals, cache, empty, initial, slot, e)
    ensures |r.keys| == |r.cache| == |r.vals| == |keys|
    decreases ProbeDistance(e, slot, |keys|)
  {
    var n := |keys|;
    if keys[slot] == empty then
      Slots(keys[slot := k], vals[slot := v], cache[slot := initial])
    else
      DistanceFromNext(e, slot, n);
      if dist > Dist(cache, slot) then
        Carried(keys[slot := k], vals[slot := v], cache[slot := initial], empty,
                keys[slot], vals[slot], cache[slot], NextSlot(slot, n), Dist(cache, slot) + 1, e)
      else
        Carried(keys, vals, cache, empty, k, v, initial, NextSlot(slot, n), dist + 1, e)
  }

  /** `r` is a valid table holding exactly the pairs of `target`, in `count` slots. */
  ghost predicate Stores<K, V>(r: Slots<K, V>, empty: K, hash: K -> int, target: map<K, V>, count: int) {
    var n := |r.keys|;
    && Table(r.keys, r.cache, empty, hash) && |r.vals| == n
    && Mapping(r.keys, r.vals, empty) == target
    && |KeySet(r.keys, empty)| == count
  }

  /** One step of `Carried` past an occupied slot, as a swap or a pass. */
  lemma CarriedStep<K, V>(keys: seq<K>, vals: seq<V>, cache: seq<int>, empty: K,
                          k: K, v: V, initial: int, slot: int, dist: int, e: int)
    requires Stepping(keys, vals, cache, empty, initial, slot, e) && keys[slot] != empty
    ensures slot != e
    ensures Stepping(keys[slot := k], vals[slot := v], cache[slot := initial], empty,
                     cache[slot], NextSlot(slot, |keys|), e)
    ensures dist > Dist(cache, slot) ==>
      Carried(keys, vals, cache, empty, k, v, initial, slot, dist, e)
      == Carried(keys[slot := k], vals[slot := v], cache[slot := initial], empty,
                 keys[slot], vals[slot], cache[slot], NextSlot(slot, |keys|), Dist(cache, slot) + 1, e)
    ensures dist <= Dist(cache, slot) ==>
      Carried(keys, vals, cache, empty, k, v, initial, slot, dist, e)
      == Carried(keys, vals, cache, empty, k, v, initial, NextSlot(slot, |keys|), dist + 1, e)
  {
  }

  /** The carrying loop ends with the carried pair added to the table, whose invariant holds. */
  lemma {:induction false} CarriedLoads<K, V>(keys: seq<K>, vals: seq<V>, cache: seq<int>, empty: K,
                                              hash: K -> int, k: K, v: V, initial: int, slot: int,
                                              dist: int, e: int, target: map<K, V>, count: int)
    requires Loading(keys, vals, cache, empty, hash, k, v, initial, slot, dist, e, target, count)
    ensures Stepping(keys, vals, cache, empty, initial, slot, e)
    ensures Stores(Carried(keys, vals, cache, empty, k, v, initial, slot, dist, e), empty, hash, target, count + 1)
    decreases ProbeDistance(e, slot, |keys|)
  {
    var n := |keys|;
    if keys[slot] == empty {
      LoadSettle(keys, vals, cache, empty, hash, k, v, initial, slot, dist, e, target, count);
      assert Carried(keys, vals, cache, empty, k, v, initial, slot, dist, e)
          == Slots(keys[slot := k], vals[slot := v], cache[slot := initial]);
    } else if dist > Dist(cache, slot) {
      LoadSwap(keys, vals, cache, empty, hash, k, v, initial, slot, dist, e, target, count);
      CarriedStep(keys, vals, cache, empty, k, v, initial, slot, dist, e);
      CarriedLoads(keys[slot := k], vals[slot := v], cache[slot := initial], empty, hash,
                   keys[slot], vals[slot], cache[slot], NextSlot(slot, n), Dist(cache, slot) + 1, e,
                   target, count);
    } else {
      LoadPast(keys, vals, cache, empty, hash, k, v, initial, slot, dist, e, target, count);
      CarriedStep(keys, vals, cache, empty, k, v, initial, slot, dist, e);
      CarriedLoads(keys, vals, cache, empty, hash, k, v, initial, NextSlot(slot, n), dist + 1, e,
                   target, count);
    }
  }

  /**
   * Re-inserting a key absent from a valid table, from its ideal slot, keeps the table valid
   * and adds exactly that pair.
   */
  lemma Reinserted<K, V>(keys: seq<K>, vals: seq<V>, cache: seq<int>, empty: K, hash: K -> int,
                         k: K, v: V, e: int)
    requires Table(keys, cache, empty, hash) && |vals| == |keys|
    requires k != empty && Absent(keys, k) && 0 <= e < |keys| && keys[e] == empty
    ensures Stepping(keys, vals, cache, empty, IdealSlot(hash(k), |keys|), IdealSlot(hash(k), |keys|), e)
    ensures Stores(Carried(keys, vals, cache, empty, k, v, IdealSlot(hash(k), |keys|),
                           IdealSlot(hash(k), |keys|), 0, e),
                   empty, hash, Mapping(keys, vals, empty)[k := v], |KeySet(keys, empty)| + 1)
  {
    var ideal := IdealSlot(hash(k), |keys|);
    assert Advance(ideal, 0, |keys|) == ideal;
    CarriedLoads(keys, vals, cache, empty, hash, k, v, ideal, ideal, 0, e,
                 Mapping(keys, vals, empty)[k := v], |KeySet(keys, empty)|);
  }

  // ---------------------------------------------------------------------------
  // The slow-path loop of `put`
  // ---------------------------------------------------------------------------

  /** How the loop of `put` ends: the key's value replaced, or a pair still to store. */
  datatype Placement<K, V> =
    | Replaced(slots: Slots<K, V>, previous: V)
    | Pending(slots: Slots<K, V>, k: K, v: V, initial: int, slot: int, dist: int)

  /**
   * The loop of `put` from `slot`, carrying `k`/`v` as `Carried` does, except that it stops
   * at a slot holding the carried key and replaces its value. It reaches an empty slot with the
   * carried pair still pending; storing it there, or growing first, is left to the caller.
   */
  ghost function Place<K, V>(keys: seq<K>, vals: seq<V>, cache: seq<int>, empty: K,
                             k: K, v: V, initial: int, slot: int, dist: int, e: int): (r: Placement<K, V>)
    requires Stepping(keys, vals, cache, empty, initial, slot, e)
    ensures |r.slots.keys| == |r.slots.cache| == |r.slots.vals| == |keys|
    ensures r.Pending? ==> 0 <= r.slot < |keys| && r.slots.keys[r.slot] == empty
    decreases ProbeDistance(e, slot, |keys|)
  {
    var n := |keys|;
    if keys[slot] == empty then
      Pending(Slots(keys, vals, cache), k, v, initial, slot, dist)
    else if keys[slot] == k then
      Replaced(Slots(keys, vals[slot := v], cache), vals[slot])
    else
      DistanceFromNext(e, slot, n);
      if dist > Dist(cache, slot) then
        Place(keys[slot := k], vals[slot := v], cache[slot := initial], empty,
              keys[slot], vals[slot], cache[slot], NextSlot(slot, n), Dist(cache, slot) + 1, e)
      else
        Place(keys, vals, cache, empty, k, v, initial, NextSlot(slot, n), dist + 1, e)
  }

  /** One step of `Place` past an occupied slot holding another key, as a swap or a pass. */
  lemma PlaceStep<K, V>(keys: seq<K>, vals: seq<V>, cache: seq<int>, empty: K,
                        k: K, v: V, initial: int, slot: int, dist: int, e: int)
    requires Stepping(keys, vals, cache, empty, initial, slot, e)
    requires keys[slot] != empty && keys[slot] != k
    ensures slot != e
    ensures Stepping(keys[slot := k], vals[slot := v], cache[slot := initial], empty,
                     cache[slot], NextSlot(slot, |keys|), e)
    ensures dist > Dist(cache, slot) ==>
      Place(keys, vals, cache, empty, k, v, initial, slot, dist, e)
      == Place(keys[slot := k], vals[slot := v], cache[slot := initial], empty,
               keys[slot], vals[slot], cache[slot], NextSlot(slot, |keys|), Dist(cache, slot) + 1, e)
    ensures dist <= Dist(cache, slot) ==>
      Place(keys, vals, cache, empty, k, v, initial, slot, dist, e)
      == Place(keys, vals, cache, empty, k, v, initial, NextSlot(slot, |keys|), dist + 1, e)
  {
  }

  /**
   * What the loop of `put` achieves from a state of the search (`Placing`): it replaces the value
   * exactly when `key` was stored, returning the value it had; otherwise it stops at an empty
   * slot, with the slots and the pending pair together holding `before` plus the new pair.
   */
  lemma {:induction false} Placed<K, V>(keys: seq<K>, vals: seq<V>, cache: seq<int>, empty: K,
                                        hash: K -> int, key: K, value: V, before: map<K, V>, count: int,
                                        swapped: bool, k: K, v: V, initial: int, slot: int, dist: int,
                                        e: int)
    requires Placing(keys, vals, cache, empty, hash, key, value, before, count, swapped,
                     k, v, initial, slot, dist, e)
    ensures Stepping(keys, vals, cache, empty, initial, slot, e)
    ensures var p := Place(keys, vals, cache, empty, k, v, initial, slot, dist, e);
            && (p.Replaced? <==> key in before)
            && (p.Replaced? ==> p.previous == before[key] && Stores(p.slots, empty, hash, before[key := value], count))
            && (p.Pending? ==> Loading(p.slots.keys, p.slots.vals, p.slots.cache, empty, hash,
                                       p.k, p.v, p.initial, p.slot, p.dist, e, before[key := value], count))
    decreases ProbeDistance(e, slot, |keys|)
  {
    var n := |keys|;
    if keys[slot] == empty {
      PlaceEnd(keys, vals, cache, empty, hash, key, value, before, count, swapped, k, v, initial, slot, dist, e);
    } else if keys[slot] == k {
      PlaceFound(keys, vals, cache, empty, hash, key, value, before, count, swapped, k, v, initial, slot, dist, e);
    } else if dist > Dist(cache, slot) {
      PlaceSwap(keys, vals, cache, empty, hash, key, value, before, count, swapped, k, v, initial, slot, dist, e);
      PlaceStep(keys, vals, cache, empty, k, v, initial, slot, dist, e);
      Placed(keys[slot := k], vals[slot := v], cache[slot := initial], empty, hash, key, value, before, count,
             true, keys[slot], vals[slot], cache[slot], NextSlot(slot, n), Dist(cache, slot) + 1, e);
    } else {
      PlacePast(keys, vals, cache, empty, hash, key, value, before, count, swapped, k, v, initial, slot, dist, e);
      PlaceStep(keys, vals, cache, empty, k, v, initial, slot, dist, e);
      Placed(keys, vals, cache, empty, hash, key, value, before, count,
             swapped, k, v, initial, NextSlot(slot, n), dist + 1, e);
    }
  }

  // ---------------------------------------------------------------------------
  // The backward-shift loop of `shiftConflictingKeys`
  // ---------------------------------------------------------------------------

  /** What the shift loop may assume: gap `g`, `d` slots scanned, and the empty slot `e` not reached. */
  ghost predicate Gapped<K, V>(keys: seq<K>, vals: seq<V>, cache: seq<int>, empty: K, g: int, d: int, e: int)
  {
    var n := |keys|;
    && WellSized(keys, cache) && |vals| == n
    && 0 <= g < n && 0 <= e < n && e != g && keys[e] == empty
    && 0 <= d < ProbeDistance(e, g, n)
  }

  /**
   * The shift loop from gap `g` with `d` slots scanned: the next slot's entry, if it is displaced
   * at least as far as it lies from the gap, moves into the gap and its slot becomes the gap;
   * otherwise the scan goes on. At the first empty slot the gap is blanked with `blank`. The gap
   * keeps its stale key and value until then.
   */
  ghost function Shifted<K, V>(keys: seq<K>, vals: seq<V>, cache: seq<int>, empty: K, blank: V,
                               g: int, d: int, e: int): (r: Slots<K, V>)
    requires Gapped(keys, vals, cache, empty, g, d, e)
    ensures |r.keys| == |r.cache| == |r.vals| == |keys|
    decreases ProbeDistance(e, g, |keys|) - d
  {
    var n := |keys|;
    var slot := Advance(g, d + 1, n);
    if keys[slot] == empty then
      Slots(keys[g := empty], vals[g := blank], cache)
    else
      DistanceFromAdvance(e, g, d + 1, n);
      if Dist(cache, slot) >= d + 1 then
        Shifted(keys[g := keys[slot]], vals[g := vals[slot]], cache[g := cache[slot]], empty, blank, slot, 0, e)
      else
        Shifted(keys, vals, cache, empty, blank, g, d + 1, e)
  }

  /** One step of `Shifted` at an occupied slot, as a move or a scan. */
  lemma ShiftStep<K, V>(keys: seq<K>, vals: seq<V>, cache: seq<int>, empty: K, blank: V, g: int, d: int, e: int)
    requires Gapped(keys, vals, cache, empty, g, d, e) && keys[Advance(g, d + 1, |keys|)] != empty
    ensures var s := Advance(g, d + 1, |keys|);
            Dist(cache, s) >= d + 1 ==>
              && Gapped(keys[g := keys[s]], vals[g := vals[s]], cache[g := cache[s]], empty, s, 0, e)
              && Shifted(keys, vals, cache, empty, blank, g, d, e)
                 == Shifted(keys[g := keys[s]], vals[g := vals[s]], cache[g := cache[s]], empty, blank, s, 0, e)
    ensures var s := Advance(g, d + 1, |keys|);
            Dist(cache, s) < d + 1 ==>
              && Gapped(keys, vals, cache, empty, g, d + 1, e)
              && Shifted(keys, vals, cache, empty, blank, g, d, e)
                 == Shifted(keys, vals, cache, empty, blank, g, d + 1, e)
  {
    DistanceFromAdvance(e, g, d + 1, |keys|);
  }

  /**
   * Where the shift leaves each pair, with gap `g` and the empty slot `e`: a slot either keeps
   * its pair, or, if it lies from the gap on and before `e`, receives the pair of the next slot.
   */
  ghost predicate MovedBack<K, V>(keys: seq<K>, vals: seq<V>, keys': seq<K>, vals': seq<V>, empty: K, g: int, e: int)
    requires |vals| == |keys| == |keys'| == |vals'| && 0 <= g < |keys| && 0 <= e < |keys|
  {
    var n := |keys|;
    forall p :: 0 <= p < n && keys'[p] != empty ==>
      || (p != g && keys'[p] == keys[p] && vals'[p] == vals[p])
      || (ProbeDistance(p, g, n) < ProbeDistance(e, g, n)
          && keys'[p] == keys[NextSlot(p, n)] && vals'[p] == vals[NextSlot(p, n)])
  }

  /**
   * The shift loop from gap `g` ends with a valid table that holds the pairs of the gapped table,
   * each left in place or moved back by one slot.
   */
  ghost predicate ShiftDone<K, V>(keys: seq<K>, vals: seq<V>, cache: seq<int>, empty: K, blank: V,
                                  hash: K -> int, g: int, d: int, e: int)
    requires Gapped(keys, vals, cache, empty, g, d, e) && Distinct(keys[g := empty], empty)
  {
    var r := Shifted(keys, vals, cache, empty, blank, g, d, e);
    && Stores(r, empty, hash, Mapping(keys[g := empty], vals, empty), |KeySet(keys[g := empty], empty)|)
    && MovedBack(keys, vals, r.keys, r.vals, empty, g, e)
  }

  /** The scan meets an empty slot: the loop ends. */
  lemma ShiftDoneEnd<K, V>(keys: seq<K>, vals: seq<V>, cache: seq<int>, empty: K, blank: V,
                           hash: K -> int, g: int, d: int, e: int)
    requires Shifting(keys, cache, empty, hash, g, d, e) && |vals| == |keys|
    requires keys[Advance(g, d + 1, |keys|)] == empty
    ensures Gapped(keys, vals, cache, empty, g, d, e) && Distinct(keys[g := empty], empty)
    ensures ShiftDone(keys, vals, cache, empty, blank, hash, g, d, e)
  {
    ShiftEnd(keys, cache, empty, hash, g, d, e);
    MappingBlank(keys[g := empty], vals, empty, g, blank);
    assert Shifted(keys, vals, cache, empty, blank, g, d, e) == Slots(keys[g := empty], vals[g := blank], cache);
  }

  /** The entry after the gap moves into it: the rest of the loop starts from the next slot. */
  lemma ShiftDoneMove<K, V>(keys: seq<K>, vals: seq<V>, cache: seq<int>, empty: K, blank: V,
                            hash: K -> int, g: int, d: int, e: int)
    requires Shifting(keys, cache, empty, hash, g, d, e) && |vals| == |keys|
    requires keys[Advance(g, d + 1, |keys|)] != empty && Dist(cache, Advance(g, d + 1, |keys|)) >= d + 1
    ensures d == 0 && Advance(g, d + 1, |keys|) == NextSlot(g, |keys|)
    ensures Gapped(keys, vals, cache, empty, g, d, e) && Distinct(keys[g := empty], empty)
    ensures var s := NextSlot(g, |keys|);
            Shifting(keys[g := keys[s]], cache[g := cache[s]], empty, hash, s, 0, e)
    ensures var s := NextSlot(g, |keys|);
            && Gapped(keys[g := keys[s]], vals[g := vals[s]], cache[g := cache[s]], empty, s, 0, e)
            && Distinct(keys[g := keys[s]][s := empty], empty)
            && (ShiftDone(keys[g := keys[s]], vals[g := vals[s]], cache[g := cache[s]], empty, blank, hash, s, 0, e)
                ==> ShiftDone(keys, vals, cache, empty, blank, hash, g, d, e))
  {
    var n := |keys|;
    ShiftOnlyAdjacent(keys, cache, empty, hash, g, d, e);
    var s := NextSlot(g, n);
    ShiftMove(keys, cache, empty, hash, g, e);
    MappingMove(keys, vals, empty, g, s);
    KeySetMove(keys, empty, g, s);
    ShiftStep(keys, vals, cache, empty, blank, g, d, e);
    var keys', vals', cache' := keys[g := keys[s]], vals[g := vals[s]], cache[g := cache[s]];
    var r := Shifted(keys', vals', cache', empty, blank, s, 0, e);
    if ShiftDone(keys', vals', cache', empty, blank, hash, s, 0, e) {
      MovedBackStep(keys, vals, keys', vals', r, empty, g, e);
    }
  }

  /** The entry after the scanned slots stays: the scan goes on. */
  lemma ShiftDoneScan<K, V>(keys: seq<K>, vals: seq<V>, cache: seq<int>, empty: K, blank: V,
                            hash: K -> int, g: int, d: int, e: int)
    requires Shifting(keys, cache, empty, hash, g, d, e) && |vals| == |keys|
    requires keys[Advance(g, d + 1, |keys|)] != empty && Dist(cache, Advance(g, d + 1, |keys|)) < d + 1
    ensures Shifting(keys, cache, empty, hash, g, d + 1, e)
    ensures Gapped(keys, vals, cache, empty, g, d, e) && Gapped(keys, vals, cache, empty, g, d + 1, e)
    ensures Distinct(keys[g := empty], empty)
    ensures ShiftDone(keys, vals, cache, empty, blank, hash, g, d + 1, e)
            ==> ShiftDone(keys, vals, cache, empty, blank, hash, g, d, e)
  {
    ShiftScan(keys, cache, empty, hash, g, d, e);
    ShiftStep(keys, vals, cache, empty, blank, g, d, e);
  }

  /** From any state of the shift (`Shifting`), the loop ends as `ShiftDone` says. */
  lemma {:induction false} ShiftedRemoves<K, V>(keys: seq<K>, vals: seq<V>, cache: seq<int>, empty: K,
                                                blank: V, hash: K -> int, g: int, d: int, e: int)
    requires Shifting(keys, cache, empty, hash, g, d, e) && |vals| == |keys|
    ensures Gapped(keys, vals, cache, empty, g, d, e) && Distinct(keys[g := empty], empty)
    ensures ShiftDone(keys, vals, cache, empty, blank, hash, g, d, e)
    decreases ProbeDistance(e, g, |keys|) - d
  {
    var n := |keys|;
    var s := Advance(g, d + 1, n);
    if keys[s] == empty {
      ShiftDoneEnd(keys, vals, cache, empty, blank, hash, g, d, e);
    } else if Dist(cache, s) >= d + 1 {
      ShiftDoneMove(keys, vals, cache, empty, blank, hash, g, d, e);
      DistanceFromAdvance(e, g, 1, n);
      ShiftedRemoves(keys[g := keys[s]], vals[g := vals[s]], cache[g := cache[s]], empty, blank, hash, s, 0, e);
    } else {
      ShiftDoneScan(keys, vals, cache, empty, blank, hash, g, d, e);
      ShiftedRemoves(keys, vals, cache, empty, blank, hash, g, d + 1, e);
    }
  }

  /** A move into gap `g` followed by pairs moved back from the next slot is a move back from `g`. */
  lemma MovedBackStep<K, V>(keys: seq<K>, vals: seq<V>, keys': seq<K>, vals': seq<V>, r: Slots<K, V>,
                            empty: K, g: int, e: int)
    requires |vals| == |keys| == |r.keys| == |r.vals| >= 2 && 0 <= g < |keys| && 0 <= e < |keys| && e != g
    requires keys' == keys[g := keys[NextSlot(g, |keys|)]] && vals' == vals[g := vals[NextSlot(g, |keys|)]]
    requires NextSlot(g, |keys|) != e
    requires MovedBack(keys', vals', r.keys, r.vals, empty, NextSlot(g, |keys|), e)
    ensures MovedBack(keys, vals, r.keys, r.vals, empty, g, e)
  {
    var n, s := |keys|, NextSlot(g, |keys|);
    forall p | 0 <= p < n && r.keys[p] != empty
      ensures || (p != g && r.keys[p] == keys[p] && r.vals[p] == vals[p])
              || (ProbeDistance(p, g, n) < ProbeDistance(e, g, n)
                  && r.keys[p] == keys[NextSlot(p, n)] && r.vals[p] == vals[NextSlot(p, n)])
    {
      DistanceFromNext(e, g, n);
      if p != g && ProbeDistance(p, s, n) < ProbeDistance(e, s, n) {
        DistanceFromNext(p, g, n);
      }
    }
  }

  /**
   * Removing the entry of an occupied slot `g` of a valid table by the shift loop leaves a valid
   * table without that key's pair, with one key less, every other pair left in place or moved back
   * by one slot.
   */
  lemma Removed<K, V>(keys: seq<K>, vals: seq<V>, cache: seq<int>, empty: K, blank: V, hash: K -> int,
                      g: int, e: int)
    requires Table(keys, cache, empty, hash) && |vals| == |keys|
    requires 0 <= g < |keys| && keys[g] != empty && 0 <= e < |keys| && keys[e] == empty
    ensures Gapped(keys, vals, cache, empty, g, 0, e)
    ensures var r := Shifted(keys, vals, cache, empty, blank, g, 0, e);
            && Stores(r, empty, hash, Mapping(keys, vals, empty) - {keys[g]}, |KeySet(keys, empty)| - 1)
            && MovedBack(keys, vals, r.keys, r.vals, empty, g, e)
  {
    ShiftStart(keys, cache, empty, hash, g, e);
    ShiftedRemoves(keys, vals, cache, empty, blank, hash, g, 0, e);
    MappingRemove(keys, vals, empty, g);
    KeySetRemove(keys, empty, g);
  }
}
