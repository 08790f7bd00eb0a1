/** Compact indices for sparse keys, and the counters kept for them. */
module Profile {
  import opened Common
  import opened Bits

  // ----- First appearances -----

  /** The keys seen so far, in order of first appearance, after one more key. */
  function Appear<T(==)>(order: seq<T>, key: T): seq<T> {
    if key in order then order else order + [key]
  }

  /** The place of the first occurrence of a key. */
  ghost function Position<T>(order: seq<T>, key: T): (i: nat)
    requires key in order
    ensures i < |order| && order[i] == key && key !in order[..i]
  {
    FirstOccurrence(order, key);
    var i: nat :| i < |order| && order[i] == key && key !in order[..i];
    i
  }

  lemma {:induction false} FirstOccurrence<T>(order: seq<T>, key: T)
    requires key in order
    ensures exists i: nat :: i < |order| && order[i] == key && key !in order[..i]
  {
    var last := |order| - 1;
    if key in order[..last] {
      FirstOccurrence(order[..last], key);
      var i: nat :| i < last && order[..last][i] == key && key !in order[..last][..i];
      assert order[..last][..i] == order[..i];
    } else {
      assert order[last] == key;
    }
  }

  /** The distinct keys of a sequence in order of first appearance, after those of `order`. */
  function Order<T(==)>(order: seq<T>, keys: seq<T>): seq<T>
    decreases |keys|
  {
    if keys == [] then order else Order(Appear(order, keys[0]), keys[1..])
  }

  lemma {:induction false} OrderExtends<T(!new)>(order: seq<T>, keys: seq<T>)
    requires Distinct(order)
    ensures Distinct(Order(order, keys)) && order <= Order(order, keys)
    ensures forall x :: x in Order(order, keys) <==> x in order || x in keys
    decreases |keys|
  {
    if keys != [] {
      OrderExtends(Appear(order, keys[0]), keys[1..]);
    }
  }

  // ----- The compressor -----

  /** The index with a number: indices are 32-bit. */
  function Numbered(i: nat): uint32 {
    i % UINT32_SPAN
  }

  lemma NumberedFacts(i: nat)
    ensures i < UINT32_SPAN ==> Numbered(i) == i
    ensures Numbered(i + 1) == Wrap32(Numbered(i) + 1)
    ensures Numbered(0) == Numbered(UINT32_SPAN)
  {
  }

  /** The map numbers the keys of `order` in order, and the next index is the next number. */
  ghost predicate Numbers<Key>(indices: map<Key, uint32>, nextIndex: uint32, order: seq<Key>) {
    && Distinct(order)
    && indices.Keys == (set key | key in order)
    && (forall i | 0 <= i < |order| :: indices[order[i]] == Numbered(i))
    && nextIndex == Numbered(|order|)
  }

  lemma NewKeyIsNumbered<Key>(indices: map<Key, uint32>, nextIndex: uint32, order: seq<Key>, key: Key)
    requires Numbers(indices, nextIndex, order) && key !in indices
    ensures Numbers(indices[key := nextIndex], Wrap32(nextIndex + 1), order + [key])
  {
    NumberedFacts(|order|);
    assert key !in order;
  }

  lemma {:induction false} AppendedPosition<Key>(order: seq<Key>, key: Key)
    requires Distinct(order) && key !in order
    ensures Position(order + [key], key) == |order|
  {
    assert (order + [key])[|order|] == key;
    PositionUnique(order + [key], |order|);
  }

  /** Maps keys to indices; an index is a 32-bit number. */
  class Compressor<Key(==)> {
    var indices: map<Key, uint32>
    var nextIndex: uint32
    ghost var order: seq<Key>

    ghost predicate Valid()
      reads this
    {
      Numbers(indices, nextIndex, order)
    }

    constructor ()
      ensures Valid() && order == []
    {
      indices, nextIndex, order := map[], 0, [];
    }

    /** The index of a key, new keys being numbered in order of appearance. */
    method Map(key: Key) returns (index: uint32)
      requires Valid()
      modifies this
      ensures Valid() && order == Appear(old(order), key)
      ensures index == Numbered(Position(order, key))
      ensures forall k | k in old(indices) :: k in indices && indices[k] == old(indices[k])
    {
      if key in indices {
        index := indices[key];
      } else {
        index := nextIndex;
        NewKeyIsNumbered(indices, nextIndex, order, key);
        AppendedPosition(order, key);
        indices := indices[key := nextIndex];
        order := order + [key];
        nextIndex := Wrap32(nextIndex + 1);
      }
    }
  }

  /** The indices a sequence of Map calls returns, starting after the keys of `order`. */
  ghost function Indices<T>(order: seq<T>, keys: seq<T>): seq<uint32>
    decreases |keys|
  {
    if keys == [] then []
    else [Numbered(Position(Appear(order, keys[0]), keys[0]))] + Indices(Appear(order, keys[0]), keys[1..])
  }

  lemma {:induction false} PositionUnique<T>(order: seq<T>, i: nat)
    requires Distinct(order) && i < |order|
    ensures Position(order, order[i]) == i
  {
  }

  lemma {:induction false} OneIndexPerCall<T>(order: seq<T>, keys: seq<T>)
    ensures |Indices(order, keys)| == |keys|
    decreases |keys|
  {
    if keys != [] {
      OneIndexPerCall(Appear(order, keys[0]), keys[1..]);
    }
  }

  /** The first of several calls, seen through the order it leaves. */
  lemma FirstCall<T(!new)>(order: seq<T>, keys: seq<T>, all: seq<T>, out: seq<uint32>) returns (next: seq<T>)
    requires Distinct(order) && keys != []
    requires all == Order(order, keys) && out == Indices(order, keys)
    ensures Distinct(next) && keys[0] in next
    ensures all == Order(next, keys[1..])
    ensures out != [] && out[0] == Numbered(Position(next, keys[0])) && out[1..] == Indices(next, keys[1..])
  {
    next := Appear(order, keys[0]);
  }

  lemma {:induction false} IndexInAll<T(!new)>(order: seq<T>, keys: seq<T>, k: nat, all: seq<T>, out: seq<uint32>)
    requires Distinct(order) && k < |keys|
    requires all == Order(order, keys) && out == Indices(order, keys)
    ensures keys[k] in all && k < |out| && out[k] == Numbered(Position(all, keys[k]))
    decreases |keys|
  {
    var next := FirstCall(order, keys, all, out);
    if k == 0 {
      PlaceStays(next, keys[1..], keys[0]);
    } else {
      IndexInAll(next, keys[1..], k - 1, all, out[1..]);
    }
  }

  /** Each call returns the place of its key in the final order: indices never change. */
  lemma {:induction false} IndexIsPlace<T(!new)>(order: seq<T>, keys: seq<T>, k: nat)
    requires Distinct(order) && k < |keys|
    ensures keys[k] in Order(order, keys)
    ensures |Indices(order, keys)| == |keys|
    ensures Indices(order, keys)[k] == Numbered(Position(Order(order, keys), keys[k]))
  {
    OneIndexPerCall(order, keys);
    IndexInAll(order, keys, k, Order(order, keys), Indices(order, keys));
  }

  lemma {:induction false} PlaceStays<T(!new)>(order: seq<T>, keys: seq<T>, key: T)
    requires Distinct(order) && key in order
    ensures key in Order(order, keys) && Position(Order(order, keys), key) == Position(order, key)
  {
    OrderExtends(order, keys);
    SamePlace(order, Order(order, keys), key);
  }

  lemma {:induction false} SamePlace<T>(order: seq<T>, more: seq<T>, key: T)
    requires key in order && order <= more && Distinct(more)
    ensures key in more && Position(more, key) == Position(order, key)
  {
    assert more[Position(order, key)] == key;
    PositionUnique(more, Position(order, key));
  }

  /** Equal indices mean equal keys. */
  predicate Identifies<T(==)>(keys: seq<T>, out: seq<uint32>)
    requires |out| == |keys|
  {
    forall j, k | 0 <= j < |keys| && 0 <= k < |keys| && out[j] == out[k] :: keys[j] == keys[k]
  }

  /** On any calls from the start, equal keys get equal indices, and equal indices mean equal keys
      exactly when there are no more distinct keys than indices. */
  lemma {:induction false} IndicesIdentifyKeysExactly<T(!new)>(keys: seq<T>)
    ensures var out := Indices([], keys);
            && |out| == |keys|
            && (forall j, k | 0 <= j < |keys| && 0 <= k < |keys| && keys[j] == keys[k] :: out[j] == out[k])
            && (Identifies(keys, out) <==> |Order([], keys)| <= UINT32_SPAN)
  {
    var order, out := Order([], keys), Indices([], keys);
    OneIndexPerCall([], keys);
    forall j, k | 0 <= j < |keys| && 0 <= k < |keys|
      ensures keys[j] == keys[k] ==> out[j] == out[k]
      ensures |order| <= UINT32_SPAN && out[j] == out[k] ==> keys[j] == keys[k]
    {
      IndexIsPlace([], keys, j);
      IndexIsPlace([], keys, k);
      NumberedFacts(Position(order, keys[j]));
      NumberedFacts(Position(order, keys[k]));
    }
    if |order| > UINT32_SPAN {
      var j := CallFor(keys, 0);
      var k := CallFor(keys, UINT32_SPAN);
      NumberedFacts(0);
      assert out[j] == out[k] && keys[j] != keys[k];
    }
  }

  /** A call whose key has a given place in the order. */
  lemma CallFor<T(!new)>(keys: seq<T>, i: nat) returns (k: nat)
    requires i < |Order([], keys)|
    ensures k < |keys| && keys[k] == Order([], keys)[i]
    ensures |Indices([], keys)| == |keys| && Indices([], keys)[k] == Numbered(i)
    ensures Distinct(Order([], keys))
  {
    OrderExtends([], keys);
    assert Order([], keys)[i] in keys;
    k :| 0 <= k < |keys| && keys[k] == Order([], keys)[i];
    IndexIsPlace([], keys, k);
    PositionUnique(Order([], keys), i);
  }

  /** As long as the indices suffice, those in use are the numbers below the number of distinct keys. */
  lemma {:induction false} IndicesAreCompact<T(!new)>(keys: seq<T>, i: nat)
    requires |Order([], keys)| <= UINT32_SPAN
    ensures i in Indices([], keys) <==> i < |Order([], keys)|
  {
    OneIndexPerCall([], keys);
    if i < |Order([], keys)| {
      var k := CallFor(keys, i);
      NumberedFacts(i);
    }
    if i in Indices([], keys) {
      var k :| 0 <= k < |keys| && Indices([], keys)[k] == i;
      IndexIsPlace([], keys, k);
      NumberedFacts(Position(Order([], keys), keys[k]));
    }
  }

  // ----- Counters -----

  /** A counter per index. The vector's elements number as many as it was created with; mapping keys
      only reserves room. */
  class CompressorCounter<Key(==), Counter(0)> {
    const keys: Compressor<Key>
    var counters: seq<Counter>
    var capacity: nat
    ghost const initial: nat

    ghost predicate Valid()
      reads this, keys
    {
      && keys.Valid() && |counters| == initial < UINT32_SPAN
      && GrownTo(initial, capacity, Reachable(|keys.order|))
    }

    constructor (initCounterSize: uint32, zero: Counter)
      ensures Valid() && fresh(keys) && keys.order == []
      ensures initial == capacity == initCounterSize && counters == seq(initCounterSize, _ => zero)
    {
      keys := new Compressor<Key>();
      counters := seq(initCounterSize, _ => zero);
      capacity := initCounterSize;
      initial := initCounterSize;
      new;
      assert initial > 0 ==> Doubled(initial, 0) == capacity;
    }

    /** Maps a key and doubles the capacity when the next index, a 32-bit number, would reach it. */
    method Map(key: Key) returns (index: uint32)
      requires Valid()
      modifies this`capacity, keys
      ensures Valid() && keys.order == Appear(old(keys.order), key)
      ensures index == Numbered(Position(keys.order, key))
      ensures capacity == NextCapacity(old(capacity), index) && counters == old(counters)
    {
      ghost var mapped := keys.order;
      index := keys.Map(key);
      if Wrap32(index + 1) >= capacity {
        capacity := Reserve(capacity, 2 * capacity);
      }
      MapKeepsGrowth(initial, old(capacity), mapped, key);
    }
  }

  /** A reserve that grows to exactly the requested capacity. */
  function Reserve(capacity: nat, wanted: nat): nat {
    if wanted > capacity then wanted else capacity
  }

  function Doubled(initial: nat, k: nat): nat {
    if k == 0 then initial else 2 * Doubled(initial, k - 1)
  }

  /** The capacity is the least doubling of the initial size above the number of mapped keys; a vector
      created empty never gets any capacity. */
  ghost predicate GrownTo(initial: nat, capacity: nat, mapped: nat) {
    if initial == 0 then capacity == 0
    else exists k: nat ::
      capacity == Doubled(initial, k) && capacity > mapped && (k > 0 ==> Doubled(initial, k - 1) <= mapped)
  }

  /** How many keys the comparison with the capacity can see: the next index wraps before 2^32. */
  function Reachable(mapped: nat): nat {
    if mapped < UINT32_SPAN then mapped else UINT32_SPAN - 1
  }

  /** The capacity after a call that returned `index`. */
  function NextCapacity(capacity: nat, index: uint32): nat {
    if Wrap32(index + 1) >= capacity then Reserve(capacity, 2 * capacity) else capacity
  }

  lemma MapKeepsGrowth<T>(initial: nat, capacity: nat, order: seq<T>, key: T)
    requires Distinct(order) && GrownTo(initial, capacity, Reachable(|order|))
    ensures var after := Appear(order, key);
            GrownTo(initial, NextCapacity(capacity, Numbered(Position(after, key))), Reachable(|after|))
  {
    if initial > 0 {
      if key in order {
        NumberedFacts(Position(order, key));
      } else {
        AppendedPosition(order, key);
        NumberedFacts(|order|);
        NewKeyGrowth(initial, capacity, |order|);
      }
    }
  }

  lemma NewKeyGrowth(initial: nat, capacity: nat, n: nat)
    requires initial > 0 && GrownTo(initial, capacity, Reachable(n))
    ensures GrownTo(initial, NextCapacity(capacity, Numbered(n)), Reachable(n + 1))
  {
    NumberedFacts(n);
    var k: nat :|
      && capacity == Doubled(initial, k) && capacity > Reachable(n)
      && (k > 0 ==> Doubled(initial, k - 1) <= Reachable(n));
    if n + 1 < UINT32_SPAN && n + 1 >= capacity {
      assert Doubled(initial, k + 1) == 2 * capacity;
    }
  }

  /** The capacity after a sequence of calls, the keys of `order` being mapped before. */
  ghost function CapacityAfter<T>(capacity: nat, order: seq<T>, keys: seq<T>): nat
    decreases |keys|
  {
    if keys == [] then capacity
    else
      var after := Appear(order, keys[0]);
      CapacityAfter(NextCapacity(capacity, Numbered(Position(after, keys[0]))), after, keys[1..])
  }

  lemma {:induction false} GrowthAlongCalls<T(!new)>(initial: nat, capacity: nat, order: seq<T>, keys: seq<T>)
    requires Distinct(order) && GrownTo(initial, capacity, Reachable(|order|))
    ensures GrownTo(initial, CapacityAfter(capacity, order, keys), Reachable(|Order(order, keys)|))
    decreases |keys|
  {
    if keys != [] {
      var after := Appear(order, keys[0]);
      MapKeepsGrowth(initial, capacity, order, keys[0]);
      GrowthAlongCalls(initial, NextCapacity(capacity, Numbered(Position(after, keys[0]))), after, keys[1..]);
    }
  }

  /** Over any calls with fewer than 2^32 distinct keys, the capacity ends above the number of distinct keys
      exactly for a nonzero initial size; it never exceeds twice that number or the initial size; and from
      2^32 distinct keys on it stays where it is, below 2^33. */
  lemma {:induction false} CapacityCoversExactly<T(!new)>(initial: uint32, keys: seq<T>)
    ensures var n, capacity := |Order([], keys)|, CapacityAfter(initial, [], keys);
            && (n < UINT32_SPAN ==> (capacity > n <==> initial > 0))
            && capacity <= (if initial >= 2 * n then initial else 2 * n)
            && (n >= UINT32_SPAN && initial > 0 ==> UINT32_SPAN <= capacity < 2 * UINT32_SPAN)
  {
    assert initial > 0 ==> Doubled(initial, 0) == initial > Reachable(0);
    GrowthAlongCalls(initial, initial, [], keys);
  }

  /** Over any calls, every returned index has an element in the vector exactly when no more distinct keys
      were mapped than the vector was created with elements, whatever its capacity. */
  lemma {:induction false} EntriesCoverKeysExactly<T(!new)>(initial: uint32, keys: seq<T>)
    ensures (forall i <- Indices([], keys) :: i < initial) <==> |Order([], keys)| <= initial
  {
    if |Order([], keys)| > initial {
      var k := CallFor(keys, initial);
      NumberedFacts(initial);
      assert Indices([], keys)[k] == initial;
      assert initial in Indices([], keys);
    } else {
      forall i | i in Indices([], keys)
        ensures i < initial
      {
        IndicesAreCompact(keys, i);
      }
    }
  }

  /** A vector created empty: after one key there is neither capacity nor an element for its index. */
  lemma EmptyVectorFails<T>(key: T)
    ensures Order([], [key]) == [key] && CapacityAfter(0, [], [key]) == 0
    ensures Indices([], [key]) == [0]
  {
    assert Appear([], key) == [key];
    assert Position([key], key) == 0;
    NumberedFacts(0);
    assert [key][1..] == [];
  }
}
