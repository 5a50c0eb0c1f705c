// The open-addressing engine shared by the custom-strategy hash map and the hash set: linear
// probing on a power-of-two table, Robin-Hood reordering with the ideal slot of every key cached
// beside it, and backward-shift deletion. Everything here is stated on sequences (snapshots of
// the `keys` and `hash_cache` arrays); the two container classes call these lemmas from their
// loops.

module Probing {

  // ---------------------------------------------------------------------------
  // Slot arithmetic on a table of n slots. The tables have a power-of-two
  // length, so `x & (n - 1)` is the remainder of x by n, with a negative x
  // wrapped to [0, n) as Dafny's `%` does.
  // ---------------------------------------------------------------------------

  /** `(slot + 1) & mask`: the next slot, wrapping from the last to the first. */
  function NextSlot(slot: int, n: int): (r: int)
    requires 0 <= slot < n
    ensures 0 <= r < n
  {
    if slot + 1 == n then 0 else slot + 1
  }

  /** The slot before `slot`, wrapping from the first to the last. */
  function PrevSlot(slot: int, n: int): (r: int)
    requires 0 <= slot < n
    ensures 0 <= r < n && NextSlot(r, n) == slot
  {
    if slot == 0 then n - 1 else slot - 1
  }

  /** `(base + t) & mask`: the slot `t` steps after `base`. */
  function Advance(base: int, t: int, n: int): (r: int)
    requires 0 <= base < n && 0 <= t < n
    ensures 0 <= r < n
  {
    if base + t < n then base + t else base + t - n
  }

  /**
   * `probe_distance`: how many steps `slot` lies after `ideal`, wrapping around. The backward
   * shift computes the same quantity as `(slot - ideal) & mask`.
   */
  function ProbeDistance(slot: int, ideal: int, n: int): (r: int)
    requires 0 <= slot < n && 0 <= ideal < n
    ensures 0 <= r < n
    ensures Advance(ideal, r, n) == slot
  {
    if slot < ideal then slot + n - ideal else slot - ideal
  }

  /** `REHASH(key) & mask`: the ideal slot of a key whose mixed hash is `h`. */
  function IdealSlot(h: int, n: int): (r: int)
    requires 0 < n
    ensures 0 <= r < n
  {
    h % n
  }

  lemma AdvanceThenDistance(base: int, t: int, n: int)
    requires 0 <= base < n && 0 <= t < n
    ensures ProbeDistance(Advance(base, t, n), base, n) == t
  {
  }

  lemma AdvanceStep(base: int, t: int, n: int)
    requires 0 <= base < n && 0 <= t && t + 1 < n
    ensures Advance(base, t + 1, n) == NextSlot(Advance(base, t, n), n)
  {
  }

  lemma DistanceOfPrev(slot: int, ideal: int, n: int)
    requires 0 <= slot < n && 0 <= ideal < n && ProbeDistance(slot, ideal, n) >= 1
    ensures ProbeDistance(PrevSlot(slot, n), ideal, n) == ProbeDistance(slot, ideal, n) - 1
  {
  }

  lemma DistanceOfNext(slot: int, ideal: int, n: int)
    requires 0 <= slot < n && 0 <= ideal < n && ProbeDistance(slot, ideal, n) + 1 < n
    ensures ProbeDistance(NextSlot(slot, n), ideal, n) == ProbeDistance(slot, ideal, n) + 1
  {
  }

  /** A probe that starts one slot later is one step shorter. */
  lemma DistanceFromNext(slot: int, start: int, n: int)
    requires 0 <= slot < n && 0 <= start < n && slot != start
    ensures ProbeDistance(slot, NextSlot(start, n), n) == ProbeDistance(slot, start, n) - 1
  {
  }

  /** A probe that starts `t` slots later is `t` steps shorter. */
  lemma DistanceFromAdvance(slot: int, start: int, t: int, n: int)
    requires 0 <= slot < n && 0 <= start < n && 0 <= t <= ProbeDistance(slot, start, n)
    ensures ProbeDistance(slot, Advance(start, t, n), n) == ProbeDistance(slot, start, n) - t
  {
  }

  /** Table lengths are powers of two, so that `& (n - 1)` is the remainder by n. */
  ghost predicate PowerOfTwo(n: int)
    decreases n
  {
    if n <= 1 then n == 1 else n % 2 == 0 && PowerOfTwo(n / 2)
  }

  // ---------------------------------------------------------------------------
  // The table and its invariants
  // ---------------------------------------------------------------------------

  /** `keys` and `hash_cache` have the same length, at least 2, and every cached slot is a slot. */
  ghost predicate WellSized<K>(keys: seq<K>, cache: seq<int>) {
    && |keys| == |cache| >= 2
    && forall i :: 0 <= i < |cache| ==> 0 <= cache[i] < |cache|
  }

  /** The probe distance of the entry in slot `i`, read from the cached ideal slot. */
  function Dist(cache: seq<int>, i: int): int
    requires 0 <= i < |cache| && 0 <= cache[i] < |cache|
  {
    ProbeDistance(i, cache[i], |cache|)
  }

  /** `hash_cache[i] == REHASH(keys[i]) & mask` for every occupied slot. */
  ghost predicate CachedIdeal<K>(keys: seq<K>, cache: seq<int>, empty: K, hash: K -> int)
    requires |keys| == |cache| > 0
  {
    forall i :: 0 <= i < |keys| && keys[i] != empty ==> cache[i] == IdealSlot(hash(keys[i]), |keys|)
  }

  /** No key is stored twice. */
  ghost predicate Distinct<K>(keys: seq<K>, empty: K) {
    forall i, j :: 0 <= i < |keys| && 0 <= j < |keys| && keys[i] != empty && keys[i] == keys[j] ==> i == j
  }

  /**
   * The Robin-Hood ordering, slot by slot: an entry away from its ideal slot follows an occupied
   * slot whose entry is at most one step less displaced. Slot `skip` is exempt (a slot outside
   * the table exempts none).
   */
  ghost predicate OrderedExcept<K>(keys: seq<K>, cache: seq<int>, empty: K, skip: int)
    requires WellSized(keys, cache)
  {
    forall i {:trigger PrevSlot(i, |keys|)} :: 0 <= i < |keys| && i != skip && keys[i] != empty && Dist(cache, i) > 0 ==>
      keys[PrevSlot(i, |keys|)] != empty && Dist(cache, PrevSlot(i, |keys|)) >= Dist(cache, i) - 1
  }

  /** The invariant of the `keys`/`hash_cache` pair between operations. */
  ghost predicate Table<K>(keys: seq<K>, cache: seq<int>, empty: K, hash: K -> int) {
    var n := |keys|;
    && WellSized(keys, cache)
    && CachedIdeal(keys, cache, empty, hash)
    && Distinct(keys, empty)
    && OrderedExcept(keys, cache, empty, n)
  }

  /** The keys stored in the slots. */
  ghost function KeySet<K>(keys: seq<K>, empty: K): set<K> {
    set i | 0 <= i < |keys| && keys[i] != empty :: keys[i]
  }

  /** `key` is in no slot. */
  ghost predicate Absent<K>(keys: seq<K>, key: K) {
    forall p :: 0 <= p < |keys| ==> keys[p] != key
  }

  /** The key/value pairs stored in the slots of parallel `keys` and `vals`. */
  ghost function Mapping<K, V>(keys: seq<K>, vals: seq<V>, empty: K): map<K, V>
    requires |vals| == |keys| && Distinct(keys, empty)
  {
    map i | 0 <= i < |keys| && keys[i] != empty :: keys[i] := vals[i]
  }

  /** The pairs stored in slots `lo` and above. */
  ghost function MappingFrom<K, V>(keys: seq<K>, vals: seq<V>, empty: K, lo: int): map<K, V>
    requires |vals| == |keys| && Distinct(keys, empty)
  {
    map i | lo <= i < |keys| && 0 <= i && keys[i] != empty :: keys[i] := vals[i]
  }

  // ---------------------------------------------------------------------------
  // What the ordering gives a search
  // ---------------------------------------------------------------------------

  /**
   * Every slot from the ideal slot of the entry in `p` up to `p` is occupied: the slot `t` steps
   * along holds an entry displaced by at least `t`.
   */
  lemma {:induction false} Chain<K>(keys: seq<K>, cache: seq<int>, empty: K, p: int, t: int)
    requires WellSized(keys, cache) && OrderedExcept(keys, cache, empty, |keys|)
    requires 0 <= p < |keys| && keys[p] != empty && 0 <= t <= Dist(cache, p)
    ensures keys[Advance(cache[p], t, |keys|)] != empty
    ensures Dist(cache, Advance(cache[p], t, |keys|)) >= t
    decreases Dist(cache, p) - t
  {
    var n := |keys|;
    if t < Dist(cache, p) {
      Chain(keys, cache, empty, p, t + 1);
      AdvanceStep(cache[p], t, n);
      assert PrevSlot(Advance(cache[p], t + 1, n), n) == Advance(cache[p], t, n);
    }
  }

  /** While some slot is empty, no entry is displaced by more than n - 2 slots. */
  lemma DistBound<K>(keys: seq<K>, cache: seq<int>, empty: K, e: int, p: int)
    requires WellSized(keys, cache) && OrderedExcept(keys, cache, empty, |keys|)
    requires 0 <= e < |keys| && keys[e] == empty
    requires 0 <= p < |keys| && keys[p] != empty
    ensures Dist(cache, p) <= |keys| - 2
  {
    if Dist(cache, p) == |keys| - 1 {
      Chain(keys, cache, empty, p, ProbeDistance(e, cache[p], |keys|));
    }
  }

  /** Every copy of `key` is displaced by at least `t` slots. */
  ghost predicate NotBefore<K>(keys: seq<K>, cache: seq<int>, key: K, t: int)
    requires WellSized(keys, cache)
  {
    forall p :: 0 <= p < |keys| && keys[p] == key ==> Dist(cache, p) >= t
  }

  /** A search that finds another key `t` steps past the ideal slot may look one step further. */
  lemma SearchStep<K>(keys: seq<K>, cache: seq<int>, empty: K, hash: K -> int, key: K, t: int)
    requires Table(keys, cache, empty, hash) && key != empty && 0 <= t < |keys|
    requires NotBefore(keys, cache, key, t)
    requires keys[Advance(IdealSlot(hash(key), |keys|), t, |keys|)] != key
    ensures NotBefore(keys, cache, key, t + 1)
  {
    forall p | 0 <= p < |keys| && keys[p] == key
      ensures Dist(cache, p) >= t + 1
    {
    }
  }

  /**
   * The Robin-Hood early exit: a search `t` steps past the ideal slot that meets an empty slot,
   * or an entry displaced by less than `t`, may conclude that `key` is not stored.
   */
  lemma SearchMiss<K>(keys: seq<K>, cache: seq<int>, empty: K, hash: K -> int, key: K, t: int)
    requires Table(keys, cache, empty, hash) && key != empty && 0 <= t < |keys|
    requires NotBefore(keys, cache, key, t)
    requires keys[Advance(IdealSlot(hash(key), |keys|), t, |keys|)] == empty
          || Dist(cache, Advance(IdealSlot(hash(key), |keys|), t, |keys|)) < t
    ensures Absent(keys, key)
  {
    forall p | 0 <= p < |keys|
      ensures keys[p] != key
    {
      if keys[p] == key {
        Chain(keys, cache, empty, p, t);
      }
    }
  }

  /**
   * A search for `key` that has looked at the first `t` slots from its ideal slot without
   * finding it, with the empty slot `e` not yet reached.
   */
  ghost predicate Probe<K>(keys: seq<K>, cache: seq<int>, empty: K, hash: K -> int, key: K, e: int, t: int)
  {
    && Table(keys, cache, empty, hash) && key != empty
    && 0 <= e < |keys| && keys[e] == empty
    && 0 <= t <= ProbeDistance(e, IdealSlot(hash(key), |keys|), |keys|)
    && NotBefore(keys, cache, key, t)
  }

  lemma ProbeStart<K>(keys: seq<K>, cache: seq<int>, empty: K, hash: K -> int, key: K, e: int)
    requires Table(keys, cache, empty, hash) && key != empty
    requires 0 <= e < |keys| && keys[e] == empty
    ensures Probe(keys, cache, empty, hash, key, e, 0)
  {
  }

  /** Passing an occupied slot that holds another key. */
  lemma ProbeStep<K>(keys: seq<K>, cache: seq<int>, empty: K, hash: K -> int, key: K, e: int, t: int)
    requires Probe(keys, cache, empty, hash, key, e, t)
    requires keys[Advance(IdealSlot(hash(key), |keys|), t, |keys|)] != empty
    requires keys[Advance(IdealSlot(hash(key), |keys|), t, |keys|)] != key
    ensures Probe(keys, cache, empty, hash, key, e, t + 1)
    ensures Advance(IdealSlot(hash(key), |keys|), t + 1, |keys|)
         == NextSlot(Advance(IdealSlot(hash(key), |keys|), t, |keys|), |keys|)
  {
    var n, ideal := |keys|, IdealSlot(hash(key), |keys|);
    assert Advance(ideal, ProbeDistance(e, ideal, n), n) == e;
    SearchStep(keys, cache, empty, hash, key, t);
    AdvanceStep(ideal, t, n);
  }

  /** The search ends at an empty slot or at an entry displaced by less than `t`. */
  lemma ProbeMiss<K>(keys: seq<K>, cache: seq<int>, empty: K, hash: K -> int, key: K, e: int, t: int)
    requires Probe(keys, cache, empty, hash, key, e, t)
    requires keys[Advance(IdealSlot(hash(key), |keys|), t, |keys|)] == empty
          || Dist(cache, Advance(IdealSlot(hash(key), |keys|), t, |keys|)) < t
    ensures Absent(keys, key)
  {
    SearchMiss(keys, cache, empty, hash, key, t);
  }

  // ---------------------------------------------------------------------------
  // Robin-Hood insertion
  // ---------------------------------------------------------------------------

  /**
   * The state of an insertion loop: `key`, whose ideal slot is `initial`, is carried to `slot`,
   * `dist` steps after `initial`, and the slot before holds an entry displaced by at least
   * `dist - 1`, so `key` may settle in `slot` without breaking the ordering.
   */
  ghost predicate Carry<K>(keys: seq<K>, cache: seq<int>, empty: K, hash: K -> int,
                           key: K, initial: int, slot: int, dist: int)
    requires WellSized(keys, cache)
  {
    && key != empty
    && initial == IdealSlot(hash(key), |keys|)
    && 0 <= dist < |keys|
    && slot == Advance(initial, dist, |keys|)
    && (dist > 0 ==>
          keys[PrevSlot(slot, |keys|)] != empty && Dist(cache, PrevSlot(slot, |keys|)) >= dist - 1)
  }

  /** Stepping past an entry displaced at least as far as the carried key. */
  lemma CarryPast<K>(keys: seq<K>, cache: seq<int>, empty: K, hash: K -> int,
                     key: K, initial: int, slot: int, dist: int, e: int)
    requires Table(keys, cache, empty, hash) && Carry(keys, cache, empty, hash, key, initial, slot, dist)
    requires 0 <= e < |keys| && keys[e] == empty
    requires keys[slot] != empty && dist <= Dist(cache, slot)
    ensures Carry(keys, cache, empty, hash, key, initial, NextSlot(slot, |keys|), dist + 1)
  {
    DistBound(keys, cache, empty, e, slot);
    AdvanceStep(initial, dist, |keys|);
  }

  /** Putting the carried key into a slot whose entry is less displaced keeps the invariant. */
  lemma CarrySwapTable<K>(keys: seq<K>, cache: seq<int>, empty: K, hash: K -> int,
                          key: K, initial: int, slot: int, dist: int)
    requires Table(keys, cache, empty, hash) && Carry(keys, cache, empty, hash, key, initial, slot, dist)
    requires keys[slot] != empty && dist > Dist(cache, slot)
    requires Absent(keys, key)
    ensures Table(keys[slot := key], cache[slot := initial], empty, hash)
  {
    var n := |keys|;
    var keys', cache' := keys[slot := key], cache[slot := initial];
    AdvanceThenDistance(initial, dist, n);
    assert Dist(cache', slot) == dist;
    forall i {:trigger PrevSlot(i, n)} | 0 <= i < n && keys'[i] != empty && Dist(cache', i) > 0
      ensures keys'[PrevSlot(i, n)] != empty && Dist(cache', PrevSlot(i, n)) >= Dist(cache', i) - 1
    {
      if i != slot && PrevSlot(i, n) == slot {
        assert keys[i] != empty && Dist(cache, i) > 0;
      }
    }
  }

  /** The entry the carried key displaced is carried on from the next slot. */
  lemma CarrySwapCarry<K>(keys: seq<K>, cache: seq<int>, empty: K, hash: K -> int,
                          key: K, initial: int, slot: int, dist: int, e: int)
    requires Table(keys, cache, empty, hash) && Carry(keys, cache, empty, hash, key, initial, slot, dist)
    requires 0 <= e < |keys| && keys[e] == empty
    requires keys[slot] != empty && dist > Dist(cache, slot)
    ensures WellSized(keys[slot := key], cache[slot := initial])
    ensures Carry(keys[slot := key], cache[slot := initial], empty, hash,
                  keys[slot], cache[slot], NextSlot(slot, |keys|), Dist(cache, slot) + 1)
  {
    var n := |keys|;
    DistBound(keys, cache, empty, e, slot);
    AdvanceStep(cache[slot], Dist(cache, slot), n);
    AdvanceThenDistance(initial, dist, n);
    assert Dist(cache[slot := initial], slot) == dist;
  }

  /** The carried key settles in an empty slot. */
  lemma CarrySettle<K>(keys: seq<K>, cache: seq<int>, empty: K, hash: K -> int,
                       key: K, initial: int, slot: int, dist: int)
    requires Table(keys, cache, empty, hash) && Carry(keys, cache, empty, hash, key, initial, slot, dist)
    requires keys[slot] == empty && Absent(keys, key)
    ensures Table(keys[slot := key], cache[slot := initial], empty, hash)
  {
    var n := |keys|;
    var keys', cache' := keys[slot := key], cache[slot := initial];
    AdvanceThenDistance(initial, dist, n);
    assert Dist(cache', slot) == dist;
    forall i {:trigger PrevSlot(i, n)} | 0 <= i < n && keys'[i] != empty && Dist(cache', i) > 0
      ensures keys'[PrevSlot(i, n)] != empty && Dist(cache', PrevSlot(i, n)) >= Dist(cache', i) - 1
    {
    }
  }

  /** The state of an insertion loop over a valid table with an empty slot `e` ahead. */
  ghost predicate Inserting<K>(keys: seq<K>, cache: seq<int>, empty: K, hash: K -> int,
                               key: K, initial: int, slot: int, dist: int, e: int)
  {
    var n := |keys|;
    && Table(keys, cache, empty, hash)
    && Carry(keys, cache, empty, hash, key, initial, slot, dist)
    && 0 <= e < n && keys[e] == empty
  }

  /** The insertion passes an entry displaced at least as far as the carried key. */
  lemma InsertPast<K>(keys: seq<K>, cache: seq<int>, empty: K, hash: K -> int,
                      key: K, initial: int, slot: int, dist: int, e: int)
    requires Inserting(keys, cache, empty, hash, key, initial, slot, dist, e)
    requires keys[slot] != empty && dist <= Dist(cache, slot)
    ensures Inserting(keys, cache, empty, hash, key, initial, NextSlot(slot, |keys|), dist + 1, e)
    ensures ProbeDistance(e, NextSlot(slot, |keys|), |keys|) == ProbeDistance(e, slot, |keys|) - 1
  {
    CarryPast(keys, cache, empty, hash, key, initial, slot, dist, e);
    DistanceFromNext(e, slot, |keys|);
  }

  /**
   * The insertion puts the carried key in place of a less displaced entry and carries that
   * entry on; the table keeps its invariant and its number of keys.
   */
  lemma InsertSwap<K>(keys: seq<K>, cache: seq<int>, empty: K, hash: K -> int,
                      key: K, initial: int, slot: int, dist: int, e: int)
    requires Inserting(keys, cache, empty, hash, key, initial, slot, dist, e) && Absent(keys, key)
    requires keys[slot] != empty && dist > Dist(cache, slot)
    ensures Inserting(keys[slot := key], cache[slot := initial], empty, hash,
                      keys[slot], cache[slot], NextSlot(slot, |keys|), Dist(cache, slot) + 1, e)
    ensures Absent(keys[slot := key], keys[slot])
    ensures |KeySet(keys[slot := key], empty)| == |KeySet(keys, empty)|
    ensures ProbeDistance(e, NextSlot(slot, |keys|), |keys|) == ProbeDistance(e, slot, |keys|) - 1
  {
    CarrySwapTable(keys, cache, empty, hash, key, initial, slot, dist);
    CarrySwapCarry(keys, cache, empty, hash, key, initial, slot, dist, e);
    KeySetSwap(keys, empty, slot, key);
    DistanceFromNext(e, slot, |keys|);
  }

  /** The carried key settles in the empty slot it reached. */
  lemma InsertSettle<K>(keys: seq<K>, cache: seq<int>, empty: K, hash: K -> int,
                        key: K, initial: int, slot: int, dist: int, e: int)
    requires Inserting(keys, cache, empty, hash, key, initial, slot, dist, e) && Absent(keys, key)
    requires keys[slot] == empty
    ensures Table(keys[slot := key], cache[slot := initial], empty, hash)
    ensures |KeySet(keys[slot := key], empty)| == |KeySet(keys, empty)| + 1
  {
    CarrySettle(keys, cache, empty, hash, key, initial, slot, dist);
    KeySetInsert(keys, empty, slot, key);
  }

  /**
   * The state of an insertion that carries an absent pair: the table as in `Inserting`, and the
   * slots' pairs plus the carried one make `target`, with `count` keys in the slots.
   */
  ghost predicate Loading<K, V>(keys: seq<K>, vals: seq<V>, cache: seq<int>, empty: K, hash: K -> int,
                                key: K, v: V, initial: int, slot: int, dist: int, e: int,
                                target: map<K, V>, count: int)
  {
    var n := |keys|;
    && Inserting(keys, cache, empty, hash, key, initial, slot, dist, e)
    && |vals| == n
    && Absent(keys, key)
    && Mapping(keys, vals, empty)[key := v] == target
    && |KeySet(keys, empty)| == count
  }

  /** Passing an entry displaced at least as far keeps the loading state. */
  lemma LoadPast<K, V>(keys: seq<K>, vals: seq<V>, cache: seq<int>, empty: K, hash: K -> int,
                       key: K, v: V, initial: int, slot: int, dist: int, e: int,
                       target: map<K, V>, count: int)
    requires Loading(keys, vals, cache, empty, hash, key, v, initial, slot, dist, e, target, count)
    requires keys[slot] != empty && dist <= Dist(cache, slot)
    ensures Loading(keys, vals, cache, empty, hash, key, v, initial, NextSlot(slot, |keys|), dist + 1, e,
                    target, count)
    ensures ProbeDistance(e, NextSlot(slot, |keys|), |keys|) < ProbeDistance(e, slot, |keys|)
  {
    InsertPast(keys, cache, empty, hash, key, initial, slot, dist, e);
  }

  /** Swapping with a less displaced entry carries that entry on and keeps the loading state. */
  lemma LoadSwap<K, V>(keys: seq<K>, vals: seq<V>, cache: seq<int>, empty: K, hash: K -> int,
                       key: K, v: V, initial: int, slot: int, dist: int, e: int,
                       target: map<K, V>, count: int)
    requires Loading(keys, vals, cache, empty, hash, key, v, initial, slot, dist, e, target, count)
    requires keys[slot] != empty && dist > Dist(cache, slot)
    ensures Loading(keys[slot := key], vals[slot := v], cache[slot := initial], empty, hash,
                    keys[slot], vals[slot], cache[slot], NextSlot(slot, |keys|), Dist(cache, slot) + 1, e,
                    target, count)
    ensures ProbeDistance(e, NextSlot(slot, |keys|), |keys|) < ProbeDistance(e, slot, |keys|)
  {
    InsertSwap(keys, cache, empty, hash, key, initial, slot, dist, e);
    MappingSwap(keys, vals, empty, slot, key, v);
  }

  /** The carried pair settles in the empty slot reached: the slots now hold `target`. */
  lemma LoadSettle<K, V>(keys: seq<K>, vals: seq<V>, cache: seq<int>, empty: K, hash: K -> int,
                         key: K, v: V, initial: int, slot: int, dist: int, e: int,
                         target: map<K, V>, count: int)
    requires Loading(keys, vals, cache, empty, hash, key, v, initial, slot, dist, e, target, count)
    requires keys[slot] == empty
    ensures Table(keys[slot := key], cache[slot := initial], empty, hash)
    ensures Mapping(keys[slot := key], vals[slot := v], empty) == target
    ensures |KeySet(keys[slot := key], empty)| == count + 1
  {
    InsertSettle(keys, cache, empty, hash, key, initial, slot, dist, e);
    MappingInsert(keys, vals, empty, slot, key, v);
  }

  /**
   * The state of a `put` of `key`/`value` over a table that held `before` in `count` slots: until
   * the first swap the search has passed `dist` slots without finding `key` and the slots still
   * hold `before`; after it, `key` is known to be new and the displaced pair `k`/`v` is carried on.
   */
  ghost predicate Placing<K, V>(keys: seq<K>, vals: seq<V>, cache: seq<int>, empty: K, hash: K -> int,
                                key: K, value: V, before: map<K, V>, count: int, swapped: bool,
                                k: K, v: V, initial: int, slot: int, dist: int, e: int)
  {
    var n := |keys|;
    && Inserting(keys, cache, empty, hash, k, initial, slot, dist, e)
    && |vals| == n
    && |KeySet(keys, empty)| == count
    && if swapped then
         && key !in before && Absent(keys, k)
         && Mapping(keys, vals, empty)[k := v] == before[key := value]
       else
         && k == key && v == value
         && NotBefore(keys, cache, key, dist)
         && Mapping(keys, vals, empty) == before
  }

  /** A `put` of a key other than the empty key starts its search at the ideal slot. */
  lemma PlaceStart<K, V>(keys: seq<K>, vals: seq<V>, cache: seq<int>, empty: K, hash: K -> int,
                         key: K, value: V, e: int)
    requires Table(keys, cache, empty, hash) && |vals| == |keys| && key != empty
    requires 0 <= e < |keys| && keys[e] == empty
    ensures Placing(keys, vals, cache, empty, hash, key, value, Mapping(keys, vals, empty),
                    |KeySet(keys, empty)|, false,
                    key, value, IdealSlot(hash(key), |keys|), IdealSlot(hash(key), |keys|), 0, e)
  {
    assert Advance(IdealSlot(hash(key), |keys|), 0, |keys|) == IdealSlot(hash(key), |keys|);
  }

  /** Finding the carried key can only happen before any swap: the value of `key` is replaced. */
  lemma PlaceFound<K, V>(keys: seq<K>, vals: seq<V>, cache: seq<int>, empty: K, hash: K -> int,
                         key: K, value: V, before: map<K, V>, count: int, swapped: bool,
                         k: K, v: V, initial: int, slot: int, dist: int, e: int)
    requires Placing(keys, vals, cache, empty, hash, key, value, before, count, swapped,
                     k, v, initial, slot, dist, e)
    requires keys[slot] == k
    ensures !swapped && key in before && before[key] == vals[slot]
    ensures dist <= Dist(cache, slot)
    ensures Mapping(keys, vals[slot := v], empty) == before[key := value]
  {
    MappingAt(keys, vals, empty, slot);
    MappingOverwrite(keys, vals, empty, slot, v);
  }

  /** Passing an entry displaced at least as far as the carried key. */
  lemma PlacePast<K, V>(keys: seq<K>, vals: seq<V>, cache: seq<int>, empty: K, hash: K -> int,
                        key: K, value: V, before: map<K, V>, count: int, swapped: bool,
                        k: K, v: V, initial: int, slot: int, dist: int, e: int)
    requires Placing(keys, vals, cache, empty, hash, key, value, before, count, swapped,
                     k, v, initial, slot, dist, e)
    requires keys[slot] != empty && keys[slot] != k && dist <= Dist(cache, slot)
    ensures Placing(keys, vals, cache, empty, hash, key, value, before, count, swapped,
                    k, v, initial, NextSlot(slot, |keys|), dist + 1, e)
    ensures ProbeDistance(e, NextSlot(slot, |keys|), |keys|) < ProbeDistance(e, slot, |keys|)
  {
    if swapped {
      LoadPast(keys, vals, cache, empty, hash, k, v, initial, slot, dist, e, before[key := value], count);
    } else {
      SearchStep(keys, cache, empty, hash, key, dist);
      InsertPast(keys, cache, empty, hash, k, initial, slot, dist, e);
    }
  }

  /** Swapping the carried pair with a less displaced entry, which is carried on instead. */
  lemma PlaceSwap<K, V>(keys: seq<K>, vals: seq<V>, cache: seq<int>, empty: K, hash: K -> int,
                        key: K, value: V, before: map<K, V>, count: int, swapped: bool,
                        k: K, v: V, initial: int, slot: int, dist: int, e: int)
    requires Placing(keys, vals, cache, empty, hash, key, value, before, count, swapped,
                     k, v, initial, slot, dist, e)
    requires keys[slot] != empty && keys[slot] != k && dist > Dist(cache, slot)
    ensures Placing(keys[slot := k], vals[slot := v], cache[slot := initial], empty, hash,
                    key, value, before, count, true,
                    keys[slot], vals[slot], cache[slot], NextSlot(slot, |keys|), Dist(cache, slot) + 1, e)
    ensures ProbeDistance(e, NextSlot(slot, |keys|), |keys|) < ProbeDistance(e, slot, |keys|)
  {
    if !swapped {
      SearchMiss(keys, cache, empty, hash, key, dist);
      MappingAbsent(keys, vals, empty, key);
    }
    LoadSwap(keys, vals, cache, empty, hash, k, v, initial, slot, dist, e, before[key := value], count);
  }

  /** The search reached an empty slot: `key` is new, and the carried pair goes into that slot. */
  lemma PlaceEnd<K, V>(keys: seq<K>, vals: seq<V>, cache: seq<int>, empty: K, hash: K -> int,
                       key: K, value: V, before: map<K, V>, count: int, swapped: bool,
                       k: K, v: V, initial: int, slot: int, dist: int, e: int)
    requires Placing(keys, vals, cache, empty, hash, key, value, before, count, swapped,
                     k, v, initial, slot, dist, e)
    requires keys[slot] == empty
    ensures key !in before
    ensures Loading(keys, vals, cache, empty, hash, k, v, initial, slot, dist, e, before[key := value], count)
  {
    if !swapped {
      SearchMiss(keys, cache, empty, hash, key, dist);
      MappingAbsent(keys, vals, empty, key);
    }
  }

  /** A subset has no more elements. */
  lemma SubsetCard<T>(a: set<T>, b: set<T>)
    requires a <= b
    ensures |a| <= |b|
  {
    assert b == a + (b - a);
  }

  // ---------------------------------------------------------------------------
  // Backward-shift deletion
  // ---------------------------------------------------------------------------

  /** Every entry is displaced by at most n - 2 slots. */
  ghost predicate DistBounded<K>(keys: seq<K>, cache: seq<int>, empty: K)
    requires WellSized(keys, cache)
  {
    forall i :: 0 <= i < |keys| && keys[i] != empty ==> Dist(cache, i) <= |keys| - 2
  }

  /**
   * The table with a gap at `g` (the content of slot `g` no longer counts): the invariant holds
   * except that the slot after the gap may have lost its predecessor; every entry is displaced by
   * at most n - 2; and an entry moved back into the gap would still follow its predecessor.
   */
  ghost predicate GapTable<K>(gapped: seq<K>, cache: seq<int>, empty: K, hash: K -> int, g: int)
    requires WellSized(gapped, cache) && 0 <= g < |gapped|
  {
    var n := |gapped|;
    && CachedIdeal(gapped, cache, empty, hash)
    && Distinct(gapped, empty)
    && OrderedExcept(gapped, cache, empty, NextSlot(g, n))
    && DistBounded(gapped, cache, empty)
    && (gapped[NextSlot(g, n)] != empty && Dist(cache, NextSlot(g, n)) >= 2 ==>
          gapped[PrevSlot(g, n)] != empty
          && Dist(cache, PrevSlot(g, n)) >= Dist(cache, NextSlot(g, n)) - 2)
  }

  /**
   * `d` slots after the gap were scanned without a move: the first holds an entry in its ideal
   * slot and the last an entry displaced by less than `d`.
   */
  ghost predicate Scanned<K>(gapped: seq<K>, cache: seq<int>, empty: K, g: int, d: int)
    requires WellSized(gapped, cache) && 0 <= g < |gapped| && 1 <= d < |gapped|
  {
    var n := |gapped|;
    && gapped[NextSlot(g, n)] != empty && Dist(cache, NextSlot(g, n)) == 0
    && gapped[Advance(g, d, n)] != empty && Dist(cache, Advance(g, d, n)) < d
  }

  /**
   * The state of the shift loop of `shiftConflictingKeys`: gap `g`, `d` slots scanned since the
   * last move, and an empty slot `e` that the scan has not reached.
   */
  ghost predicate Shifting<K>(keys: seq<K>, cache: seq<int>, empty: K, hash: K -> int, g: int, d: int, e: int)
  {
    var n := |keys|;
    && WellSized(keys, cache)
    && 0 <= g < n && 0 <= e < n && e != g && keys[e] == empty
    && 0 <= d < ProbeDistance(e, g, n)
    && GapTable(keys[g := empty], cache, empty, hash, g)
    && (d >= 1 ==> Scanned(keys[g := empty], cache, empty, g, d))
  }

  /** Removing the entry in slot `g` opens the gap. */
  lemma ShiftStart<K>(keys: seq<K>, cache: seq<int>, empty: K, hash: K -> int, g: int, e: int)
    requires Table(keys, cache, empty, hash)
    requires 0 <= g < |keys| && keys[g] != empty && 0 <= e < |keys| && keys[e] == empty
    ensures Shifting(keys, cache, empty, hash, g, 0, e)
  {
    var n := |keys|;
    var gapped := keys[g := empty];
    forall i | 0 <= i < n && gapped[i] != empty
      ensures Dist(cache, i) <= n - 2
    {
      DistBound(keys, cache, empty, e, i);
    }
    var f := NextSlot(g, n);
    if gapped[f] != empty && Dist(cache, f) >= 2 {
      assert PrevSlot(f, n) == g;
      assert keys[g] != empty && Dist(cache, g) >= 1;
    }
    AdvanceThenDistance(g, 0, n);
  }

  /** A scanned entry that is not displaced past the gap stays; the scan goes on. */
  lemma ShiftScan<K>(keys: seq<K>, cache: seq<int>, empty: K, hash: K -> int, g: int, d: int, e: int)
    requires Shifting(keys, cache, empty, hash, g, d, e)
    requires keys[Advance(g, d + 1, |keys|)] != empty
    requires Dist(cache, Advance(g, d + 1, |keys|)) < d + 1
    ensures Shifting(keys, cache, empty, hash, g, d + 1, e)
  {
    var n := |keys|;
    AdvanceThenDistance(g, d + 1, n);
    AdvanceThenDistance(g, 1, n);
  }

  /** Only the slot right after the gap can hold an entry displaced past the gap. */
  lemma ShiftOnlyAdjacent<K>(keys: seq<K>, cache: seq<int>, empty: K, hash: K -> int, g: int, d: int, e: int)
    requires Shifting(keys, cache, empty, hash, g, d, e)
    requires keys[Advance(g, d + 1, |keys|)] != empty
    requires Dist(cache, Advance(g, d + 1, |keys|)) >= d + 1
    ensures d == 0
  {
    var n := |keys|;
    if d >= 1 {
      var gapped := keys[g := empty];
      var s := Advance(g, d + 1, n);
      var before := PrevSlot(s, n);
      AdvanceStep(g, d, n);
      AdvanceThenDistance(g, d + 1, n);
      AdvanceThenDistance(g, 1, n);
      assert false;
    }
  }

  /** The ordering part of moving the entry after the gap back into the gap. */
  lemma MoveKeepsOrder<K>(gapped: seq<K>, cache: seq<int>, empty: K, hash: K -> int, g: int)
    requires WellSized(gapped, cache) && 0 <= g < |gapped| && gapped[g] == empty
    requires GapTable(gapped, cache, empty, hash, g)
    requires gapped[NextSlot(g, |gapped|)] != empty && Dist(cache, NextSlot(g, |gapped|)) >= 1
    ensures WellSized(gapped[g := gapped[NextSlot(g, |gapped|)]][NextSlot(g, |gapped|) := empty],
                      cache[g := cache[NextSlot(g, |gapped|)]])
    ensures OrderedExcept(gapped[g := gapped[NextSlot(g, |gapped|)]][NextSlot(g, |gapped|) := empty],
                          cache[g := cache[NextSlot(g, |gapped|)]], empty,
                          NextSlot(NextSlot(g, |gapped|), |gapped|))
  {
    var n := |gapped|;
    var s := NextSlot(g, n);
    var moved, cache' := gapped[g := gapped[s]][s := empty], cache[g := cache[s]];
    DistanceOfPrev(s, cache[s], n);
    assert Dist(cache', g) == Dist(cache, s) - 1;
    forall i {:trigger PrevSlot(i, n)} | 0 <= i < n && i != NextSlot(s, n) && moved[i] != empty && Dist(cache', i) > 0
      ensures moved[PrevSlot(i, n)] != empty && Dist(cache', PrevSlot(i, n)) >= Dist(cache', i) - 1
    {
      if i == g {
        assert PrevSlot(g, n) != s;
      } else {
        assert PrevSlot(i, n) != s && PrevSlot(i, n) != g;
        assert gapped[i] != empty && Dist(cache, i) > 0;
      }
    }
  }

  /** Cached ideal slots, distinctness and the displacement bound survive the move into the gap. */
  lemma MoveKeepsEntries<K>(gapped: seq<K>, cache: seq<int>, empty: K, hash: K -> int, g: int)
    requires WellSized(gapped, cache) && 0 <= g < |gapped| && gapped[g] == empty
    requires GapTable(gapped, cache, empty, hash, g)
    requires gapped[NextSlot(g, |gapped|)] != empty && Dist(cache, NextSlot(g, |gapped|)) >= 1
    ensures WellSized(gapped[g := gapped[NextSlot(g, |gapped|)]][NextSlot(g, |gapped|) := empty],
                      cache[g := cache[NextSlot(g, |gapped|)]])
    ensures CachedIdeal(gapped[g := gapped[NextSlot(g, |gapped|)]][NextSlot(g, |gapped|) := empty],
                        cache[g := cache[NextSlot(g, |gapped|)]], empty, hash)
    ensures Distinct(gapped[g := gapped[NextSlot(g, |gapped|)]][NextSlot(g, |gapped|) := empty], empty)
    ensures DistBounded(gapped[g := gapped[NextSlot(g, |gapped|)]][NextSlot(g, |gapped|) := empty],
                        cache[g := cache[NextSlot(g, |gapped|)]], empty)
  {
    var n := |gapped|;
    var s := NextSlot(g, n);
    DistanceOfPrev(s, cache[s], n);
  }

  /** The rest of the gap invariant after moving the entry after the gap back into the gap. */
  lemma MoveKeepsGap<K>(gapped: seq<K>, cache: seq<int>, empty: K, hash: K -> int, g: int)
    requires WellSized(gapped, cache) && 0 <= g < |gapped| && gapped[g] == empty
    requires GapTable(gapped, cache, empty, hash, g)
    requires gapped[NextSlot(g, |gapped|)] != empty && Dist(cache, NextSlot(g, |gapped|)) >= 1
    ensures WellSized(gapped[g := gapped[NextSlot(g, |gapped|)]][NextSlot(g, |gapped|) := empty],
                      cache[g := cache[NextSlot(g, |gapped|)]])
    ensures GapTable(gapped[g := gapped[NextSlot(g, |gapped|)]][NextSlot(g, |gapped|) := empty],
                     cache[g := cache[NextSlot(g, |gapped|)]], empty, hash, NextSlot(g, |gapped|))
  {
    var n := |gapped|;
    var s := NextSlot(g, n);
    var moved, cache' := gapped[g := gapped[s]][s := empty], cache[g := cache[s]];
    MoveKeepsOrder(gapped, cache, empty, hash, g);
    MoveKeepsEntries(gapped, cache, empty, hash, g);
    DistanceOfPrev(s, cache[s], n);
    var f := NextSlot(s, n);
    assert f != g && f != s;
    assert PrevSlot(f, n) == s && PrevSlot(s, n) == g;
  }

  /** Moving the entry after the gap back into the gap moves the gap one slot on. */
  lemma ShiftMove<K>(keys: seq<K>, cache: seq<int>, empty: K, hash: K -> int, g: int, e: int)
    requires Shifting(keys, cache, empty, hash, g, 0, e)
    requires keys[NextSlot(g, |keys|)] != empty && Dist(cache, NextSlot(g, |keys|)) >= 1
    ensures Shifting(keys[g := keys[NextSlot(g, |keys|)]], cache[g := cache[NextSlot(g, |keys|)]],
                     empty, hash, NextSlot(g, |keys|), 0, e)
  {
    var n := |keys|;
    var s := NextSlot(g, n);
    var gapped := keys[g := empty];
    assert gapped[s] == keys[s];
    MoveKeepsGap(gapped, cache, empty, hash, g);
    assert keys[g := keys[s]][s := empty] == gapped[g := gapped[s]][s := empty];
    assert ProbeDistance(e, s, n) > 0;
  }

  /** When the scan meets an empty slot, blanking the gap restores the invariant. */
  lemma ShiftEnd<K>(keys: seq<K>, cache: seq<int>, empty: K, hash: K -> int, g: int, d: int, e: int)
    requires Shifting(keys, cache, empty, hash, g, d, e)
    requires keys[Advance(g, d + 1, |keys|)] == empty
    ensures Table(keys[g := empty], cache, empty, hash)
  {
    var n := |keys|;
    AdvanceThenDistance(g, d + 1, n);
    AdvanceThenDistance(g, 1, n);
  }

  // ---------------------------------------------------------------------------
  // What the slot writes do to the stored keys and pairs
  // ---------------------------------------------------------------------------

  /** A table whose keys are distinct and fewer than its slots has an empty slot. */
  lemma FreeSlotExists<K>(keys: seq<K>, empty: K)
    requires Distinct(keys, empty) && |KeySet(keys, empty)| < |keys|
    ensures exists e :: 0 <= e < |keys| && keys[e] == empty
  {
    assert keys[..|keys|] == keys;
    if forall e :: 0 <= e < |keys| ==> keys[e] != empty {
      FullKeySet(keys, empty, |keys|);
    }
  }

  lemma {:induction false} FullKeySet<K>(keys: seq<K>, empty: K, m: int)
    requires Distinct(keys, empty) && 0 <= m <= |keys|
    requires forall e :: 0 <= e < |keys| ==> keys[e] != empty
    ensures |KeySet(keys[..m], empty)| == m
  {
    if m > 0 {
      FullKeySet(keys, empty, m - 1);
      var prefix, shorter, last := keys[..m], keys[..m - 1], keys[m - 1];
      var big, small := KeySet(prefix, empty), KeySet(shorter, empty);
      forall x | x in big
        ensures x in small + {last}
      {
        var i :| 0 <= i < m && prefix[i] != empty && prefix[i] == x;
        if i < m - 1 {
          assert shorter[i] == x;
        }
      }
      forall x | x in small
        ensures x in big && x != last
      {
        var i :| 0 <= i < m - 1 && shorter[i] != empty && shorter[i] == x;
        assert prefix[i] == x && keys[i] == x;
      }
      assert prefix[m - 1] == last;
      assert big == small + {last};
    }
  }

  /** Writing an absent key, or blanking a slot, keeps the keys distinct. */
  lemma DistinctWrite<K>(keys: seq<K>, empty: K, slot: int, key: K)
    requires Distinct(keys, empty) && 0 <= slot < |keys| && (key == empty || Absent(keys, key))
    ensures Distinct(keys[slot := key], empty)
  {
  }

  /** Storing an absent key into an empty slot adds it to the stored keys. */
  lemma KeySetInsert<K>(keys: seq<K>, empty: K, slot: int, key: K)
    requires Distinct(keys, empty) && 0 <= slot < |keys| && keys[slot] == empty
    requires key != empty && Absent(keys, key)
    ensures Distinct(keys[slot := key], empty)
    ensures KeySet(keys[slot := key], empty) == KeySet(keys, empty) + {key}
    ensures |KeySet(keys[slot := key], empty)| == |KeySet(keys, empty)| + 1
  {
    DistinctWrite(keys, empty, slot, key);
    var keys' := keys[slot := key];
    var before, after := KeySet(keys, empty), KeySet(keys', empty);
    forall x | x in after
      ensures x in before + {key}
    {
      var i :| 0 <= i < |keys| && keys'[i] != empty && keys'[i] == x;
      if i != slot {
        assert keys[i] == x;
      }
    }
    forall x | x in before
      ensures x in after && x != key
    {
      var i :| 0 <= i < |keys| && keys[i] != empty && keys[i] == x;
      assert keys'[i] == x;
    }
    assert keys'[slot] == key;
    assert after == before + {key};
  }

  /** Blanking an occupied slot removes its key from the stored keys. */
  lemma KeySetRemove<K>(keys: seq<K>, empty: K, slot: int)
    requires Distinct(keys, empty) && 0 <= slot < |keys| && keys[slot] != empty
    ensures Distinct(keys[slot := empty], empty)
    ensures KeySet(keys[slot := empty], empty) == KeySet(keys, empty) - {keys[slot]}
    ensures |KeySet(keys[slot := empty], empty)| == |KeySet(keys, empty)| - 1
  {
    DistinctWrite(keys, empty, slot, empty);
    var keys' := keys[slot := empty];
    var before, after := KeySet(keys, empty), KeySet(keys', empty);
    forall x | x in after
      ensures x in before && x != keys[slot]
    {
      var i :| 0 <= i < |keys| && keys'[i] != empty && keys'[i] == x;
      assert keys[i] == x;
    }
    forall x | x in before && x != keys[slot]
      ensures x in after
    {
      var i :| 0 <= i < |keys| && keys[i] != empty && keys[i] == x;
      assert keys'[i] == x;
    }
    assert keys[slot] in before;
    assert after == before - {keys[slot]};
  }

  /** Replacing the key in an occupied slot by an absent key keeps the number of keys. */
  lemma KeySetSwap<K>(keys: seq<K>, empty: K, slot: int, key: K)
    requires Distinct(keys, empty) && 0 <= slot < |keys| && keys[slot] != empty
    requires key != empty && Absent(keys, key)
    ensures Distinct(keys[slot := key], empty)
    ensures Absent(keys[slot := key], keys[slot])
    ensures |KeySet(keys[slot := key], empty)| == |KeySet(keys, empty)|
  {
    KeySetRemove(keys, empty, slot);
    var gapped := keys[slot := empty];
    KeySetInsert(gapped, empty, slot, key);
    assert gapped[slot := key] == keys[slot := key];
  }

  /** Moving the entry after a gap into the gap keeps the stored keys. */
  lemma KeySetMove<K>(keys: seq<K>, empty: K, g: int, s: int)
    requires 0 <= g < |keys| && 0 <= s < |keys| && g != s && keys[s] != empty
    requires Distinct(keys[g := empty], empty)
    ensures KeySet(keys[g := keys[s]][s := empty], empty) == KeySet(keys[g := empty], empty)
  {
    var gapped, moved := keys[g := empty], keys[g := keys[s]][s := empty];
    assert gapped[s] == keys[s] && moved[g] == keys[s];
    forall x | x in KeySet(gapped, empty)
      ensures x in KeySet(moved, empty)
    {
      var i :| 0 <= i < |keys| && gapped[i] != empty && gapped[i] == x;
      if i == s {
        assert moved[g] == x;
      } else {
        assert moved[i] == x;
      }
    }
    forall x | x in KeySet(moved, empty)
      ensures x in KeySet(gapped, empty)
    {
      var i :| 0 <= i < |keys| && moved[i] != empty && moved[i] == x;
      if i == g {
        assert gapped[s] == x;
      } else {
        assert gapped[i] == x;
      }
    }
  }

  /** The stored pairs have the stored keys as domain. */
  lemma MappingKeys<K, V>(keys: seq<K>, vals: seq<V>, empty: K)
    requires |vals| == |keys| && Distinct(keys, empty)
    ensures Mapping(keys, vals, empty).Keys == KeySet(keys, empty)
  {
  }

  /** Two tables holding the same pairs hold the same number of keys. */
  lemma SameKeyCount<K, V>(keys: seq<K>, vals: seq<V>, keys': seq<K>, vals': seq<V>, empty: K)
    requires |vals| == |keys| && Distinct(keys, empty)
    requires |vals'| == |keys'| && Distinct(keys', empty)
    requires Mapping(keys, vals, empty) == Mapping(keys', vals', empty)
    ensures |KeySet(keys, empty)| == |KeySet(keys', empty)|
  {
    MappingKeys(keys, vals, empty);
    MappingKeys(keys', vals', empty);
  }

  /** A key in no slot has no pair. */
  lemma MappingAbsent<K, V>(keys: seq<K>, vals: seq<V>, empty: K, key: K)
    requires |vals| == |keys| && Distinct(keys, empty) && Absent(keys, key)
    ensures key !in Mapping(keys, vals, empty)
  {
  }

  /** An occupied slot holds a stored pair. */
  lemma MappingAt<K, V>(keys: seq<K>, vals: seq<V>, empty: K, i: int)
    requires |vals| == |keys| && Distinct(keys, empty)
    requires 0 <= i < |keys| && keys[i] != empty
    ensures keys[i] in Mapping(keys, vals, empty)
    ensures Mapping(keys, vals, empty)[keys[i]] == vals[i]
  {
  }

  /** Overwriting the value of an occupied slot updates that key. */
  lemma MappingOverwrite<K, V>(keys: seq<K>, vals: seq<V>, empty: K, slot: int, v: V)
    requires |vals| == |keys| && Distinct(keys, empty)
    requires 0 <= slot < |keys| && keys[slot] != empty
    ensures Mapping(keys, vals[slot := v], empty) == Mapping(keys, vals, empty)[keys[slot] := v]
  {
  }

  /** The value array is irrelevant at an empty slot. */
  lemma MappingBlank<K, V>(keys: seq<K>, vals: seq<V>, empty: K, slot: int, v: V)
    requires |vals| == |keys| && Distinct(keys, empty)
    requires 0 <= slot < |keys| && keys[slot] == empty
    ensures Mapping(keys, vals[slot := v], empty) == Mapping(keys, vals, empty)
  {
  }

  /** Storing an absent key into an empty slot adds the pair. */
  lemma MappingInsert<K, V>(keys: seq<K>, vals: seq<V>, empty: K, slot: int, key: K, v: V)
    requires |vals| == |keys| && Distinct(keys, empty)
    requires 0 <= slot < |keys| && keys[slot] == empty && key != empty && Absent(keys, key)
    ensures Distinct(keys[slot := key], empty)
    ensures Mapping(keys[slot := key], vals[slot := v], empty) == Mapping(keys, vals, empty)[key := v]
  {
    DistinctWrite(keys, empty, slot, key);
    var keys', vals' := keys[slot := key], vals[slot := v];
    var before, after := Mapping(keys, vals, empty), Mapping(keys', vals', empty);
    forall x | x in after
      ensures x in before[key := v] && after[x] == before[key := v][x]
    {
      var i :| 0 <= i < |keys| && keys'[i] != empty && keys'[i] == x;
      MappingAt(keys', vals', empty, i);
      if i != slot {
        MappingAt(keys, vals, empty, i);
      }
    }
    forall x | x in before
      ensures x in after
    {
      var i :| 0 <= i < |keys| && keys[i] != empty && keys[i] == x;
      assert keys'[i] == x;
    }
    MappingAt(keys', vals', empty, slot);
  }

  /** Swapping an absent key into an occupied slot trades one pair for the other. */
  lemma MappingSwap<K, V>(keys: seq<K>, vals: seq<V>, empty: K, slot: int, key: K, v: V)
    requires |vals| == |keys| && Distinct(keys, empty)
    requires 0 <= slot < |keys| && keys[slot] != empty && key != empty && Absent(keys, key)
    ensures Distinct(keys[slot := key], empty)
    ensures Mapping(keys[slot := key], vals[slot := v], empty)[keys[slot] := vals[slot]]
         == Mapping(keys, vals, empty)[key := v]
  {
    DistinctWrite(keys, empty, slot, key);
    var gapped := keys[slot := empty];
    MappingRemove(keys, vals, empty, slot);
    MappingInsert(gapped, vals, empty, slot, key, v);
    assert gapped[slot := key] == keys[slot := key];
    MappingAt(keys, vals, empty, slot);
  }

  /** Blanking an occupied slot removes its pair. */
  lemma MappingRemove<K, V>(keys: seq<K>, vals: seq<V>, empty: K, slot: int)
    requires |vals| == |keys| && Distinct(keys, empty)
    requires 0 <= slot < |keys| && keys[slot] != empty
    ensures Distinct(keys[slot := empty], empty)
    ensures Mapping(keys[slot := empty], vals, empty) == Mapping(keys, vals, empty) - {keys[slot]}
  {
    DistinctWrite(keys, empty, slot, empty);
    var gapped := keys[slot := empty];
    var before, after := Mapping(keys, vals, empty), Mapping(gapped, vals, empty);
    forall x | x in after
      ensures x in before && after[x] == before[x]
    {
      var i :| 0 <= i < |keys| && gapped[i] != empty && gapped[i] == x;
      MappingAt(gapped, vals, empty, i);
      MappingAt(keys, vals, empty, i);
    }
    MappingAt(keys, vals, empty, slot);
    forall x | x in before && x != keys[slot]
      ensures x in after
    {
      var i :| 0 <= i < |keys| && keys[i] != empty && keys[i] == x;
      assert gapped[i] == x;
    }
  }

  /** Moving the pair after a gap into the gap keeps the stored pairs. */
  lemma MappingMove<K, V>(keys: seq<K>, vals: seq<V>, empty: K, g: int, s: int)
    requires |vals| == |keys| && 0 <= g < |keys| && 0 <= s < |keys| && g != s && keys[s] != empty
    requires Distinct(keys[g := empty], empty) && Distinct(keys[g := keys[s]][s := empty], empty)
    ensures Mapping(keys[g := keys[s]][s := empty], vals[g := vals[s]], empty)
         == Mapping(keys[g := empty], vals, empty)
  {
    KeySetMove(keys, empty, g, s);
    var gapped, moved, vals' := keys[g := empty], keys[g := keys[s]][s := empty], vals[g := vals[s]];
    var before, after := Mapping(gapped, vals, empty), Mapping(moved, vals', empty);
    MappingKeys(gapped, vals, empty);
    MappingKeys(moved, vals', empty);
    forall x | x in after
      ensures after[x] == before[x]
    {
      var i :| 0 <= i < |keys| && moved[i] != empty && moved[i] == x;
      MappingAt(moved, vals', empty, i);
      if i == g {
        MappingAt(gapped, vals, empty, s);
      } else {
        MappingAt(gapped, vals, empty, i);
      }
    }
  }

  /**
   * While the pairs of slots `lo + 1` and above of a table `oldKeys` are moved into a table with
   * more slots than `oldKeys` has keys, the key of slot `lo` is absent from it and it has an
   * empty slot.
   */
  lemma RoomToMove<K, V>(keys: seq<K>, vals: seq<V>, oldKeys: seq<K>, oldVals: seq<V>, empty: K, lo: int)
    returns (e: int)
    requires |vals| == |keys| && Distinct(keys, empty)
    requires |oldVals| == |oldKeys| && Distinct(oldKeys, empty) && |KeySet(oldKeys, empty)| < |keys|
    requires 0 <= lo < |oldKeys| && oldKeys[lo] != empty
    requires Mapping(keys, vals, empty) == MappingFrom(oldKeys, oldVals, empty, lo + 1)
    ensures Absent(keys, oldKeys[lo])
    ensures 0 <= e < |keys| && keys[e] == empty
  {
    var k := oldKeys[lo];
    MappingFromStep(oldKeys, oldVals, empty, lo);
    MappingKeys(keys, vals, empty);
    assert k in KeySet(oldKeys, empty);
    SubsetCard(KeySet(keys, empty), KeySet(oldKeys, empty) - {k});
    FreeSlotExists(keys, empty);
    e :| 0 <= e < |keys| && keys[e] == empty;
  }

  /** Freshly allocated buffers, all slots empty, form a table with no pairs. */
  lemma EmptyTable<K, V>(keys: seq<K>, vals: seq<V>, cache: seq<int>, empty: K, hash: K -> int)
    requires |keys| == |vals| == |cache| >= 2
    requires forall i :: 0 <= i < |keys| ==> keys[i] == empty && cache[i] == 0
    ensures Table(keys, cache, empty, hash)
    ensures KeySet(keys, empty) == {} && Mapping(keys, vals, empty) == map[]
  {
    assert KeySet(keys, empty) == {};
  }

  /** The pairs of slots `lo` and above, one slot at a time. */
  lemma MappingFromStep<K, V>(keys: seq<K>, vals: seq<V>, empty: K, lo: int)
    requires |vals| == |keys| && Distinct(keys, empty) && 0 <= lo < |keys|
    ensures keys[lo] == empty ==> MappingFrom(keys, vals, empty, lo) == MappingFrom(keys, vals, empty, lo + 1)
    ensures keys[lo] != empty ==>
              && keys[lo] !in MappingFrom(keys, vals, empty, lo + 1)
              && MappingFrom(keys, vals, empty, lo) == MappingFrom(keys, vals, empty, lo + 1)[keys[lo] := vals[lo]]
    ensures MappingFrom(keys, vals, empty, lo + 1).Keys <= KeySet(keys, empty)
  {
  }
}
