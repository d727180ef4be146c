/** The cuckoo multimap's slot array and its simple operations
    (CuckooHash.java:52-183, 278-311). A table is its slot sequence; the
    capacity is the sequence's length. Keys are hashed by a caller-supplied
    `hash`, Java's `key.hashCode()`; key and value equality is Dafny's. */
module CuckooTable {

  import opened Wrappers
  import opened JavaInt

  /** A bucket: one stored <key, value> pair. */
  datatype Entry<K, V> = Entry(key: K, value: V)

  /** `table`: each slot empty (`null`) or holding one bucket. */
  type Slots<K, V> = seq<Option<Entry<K, V>>>

  /** The constants of `hash2`. */
  const A: int := 37
  const B: int := 17

  /** The exception the constructor throws. */
  datatype CuckooError = NegativeArraySize

  /** Hash codes both hash functions map into the table: `Math.abs` is
      non-negative (so not `MinInt`) and `a * b + Math.abs(hc)` does not
      overflow. */
  predicate ValidCode(hc: int) {
    -(MaxInt - A * B) <= hc <= MaxInt - A * B
  }

  /** `hash1`: `Math.abs(hc) % CAPACITY`, with Java's `abs` and `%`. */
  function Hash1(hc: int, capacity: int): (i: int)
    requires IsInt(hc) && capacity > 0
    ensures ValidCode(hc) ==> 0 <= i < capacity
  {
    Rem(Abs(hc), capacity)
  }

  /** `hash2`: `(a * b + Math.abs(hc)) % CAPACITY`, the sum an `int`. */
  function Hash2(hc: int, capacity: int): (i: int)
    requires IsInt(hc) && capacity > 0
    ensures ValidCode(hc) ==> 0 <= i < capacity
  {
    Rem(Wrap(A * B + Abs(hc)), capacity)
  }

  /** Outside `ValidCode` the hashes are not indices: `Math.abs(MinInt)` is
      negative, and so is the wrapped sum for a code near `MaxInt`. */
  lemma HashesLeaveTableOutsideValidCodes()
    ensures Hash1(MinInt, 10) == -8
    ensures Hash2(MaxInt - 1, 10) == -1
  {
  }

  /** The primary slot of `key`. */
  function H1<K>(hash: K -> int, key: K, capacity: nat): (i: nat)
    requires capacity > 0 && ValidCode(hash(key))
    ensures i < capacity
  {
    Hash1(hash(key), capacity)
  }

  /** The secondary slot of `key`. */
  function H2<K>(hash: K -> int, key: K, capacity: nat): (i: nat)
    requires capacity > 0 && ValidCode(hash(key))
    ensures i < capacity
  {
    Hash2(hash(key), capacity)
  }

  /** Slot `i` is one of the two slots of `key` in a table of this capacity. */
  predicate IsHome<K>(hash: K -> int, key: K, capacity: nat, i: nat) {
    && capacity > 0
    && ValidCode(hash(key))
    && (i == H1(hash, key, capacity) || i == H2(hash, key, capacity))
  }

  /** The placement invariant: every pair sits in one of its key's two slots
      under the current capacity. */
  predicate WellPlaced<K(==), V(==)>(slots: Slots<K, V>, hash: K -> int) {
    forall i :: 0 <= i < |slots| && slots[i].Some? ==> IsHome(hash, slots[i].value.key, |slots|, i)
  }

  /** The stored pairs in ascending slot order: the snapshot `rehash` re-puts
      and the order `values` and `printTable` list. */
  function Occupied<K, V>(slots: Slots<K, V>): (r: seq<Entry<K, V>>)
    ensures |r| <= |slots|
  {
    if slots == [] then []
    else
      var last := slots[|slots| - 1];
      Occupied(slots[..|slots| - 1]) + (if last.Some? then [last.value] else [])
  }

  /** The numbers of the occupied slots in ascending order: strictly
      increasing and holding every occupied slot and no other, which fixes
      the sequence. */
  function OccupiedIndices<K, V>(slots: Slots<K, V>): (r: seq<nat>)
    ensures forall j :: 0 <= j < |r| ==> r[j] < |slots| && slots[r[j]].Some?
    ensures forall i :: 0 <= i < |slots| && slots[i].Some? ==> i in r
    ensures forall j, j' :: 0 <= j < j' < |r| ==> r[j] < r[j']
  {
    if slots == [] then []
    else
      var n := |slots| - 1;
      var init := slots[..n];
      var rest := OccupiedIndices(init);
      assert forall j :: 0 <= j < |rest| ==> rest[j] < n && slots[rest[j]] == init[rest[j]];
      assert forall i :: 0 <= i < n ==> slots[i] == init[i];
      rest + (if slots[n].Some? then [n] else [])
  }

  /** The snapshot is in slot order: its j-th pair is the pair of the j-th
      occupied slot. */
  lemma {:induction false} OccupiedInSlotOrder<K, V>(slots: Slots<K, V>)
    ensures |Occupied(slots)| == |OccupiedIndices(slots)|
    ensures forall j :: 0 <= j < |Occupied(slots)| ==>
      Occupied(slots)[j] == slots[OccupiedIndices(slots)[j]].value
    decreases |slots|
  {
    if slots != [] {
      var n := |slots| - 1;
      var init := slots[..n];
      OccupiedInSlotOrder(init);
      var occ, idx := Occupied(init), OccupiedIndices(init);
      assert Occupied(slots) == occ + (if slots[n].Some? then [slots[n].value] else []);
      assert OccupiedIndices(slots) == idx + (if slots[n].Some? then [n] else []);
      forall j | 0 <= j < |occ|
        ensures Occupied(slots)[j] == slots[OccupiedIndices(slots)[j]].value
      {
        assert idx[j] < n && slots[idx[j]] == init[idx[j]];
      }
    }
  }

  /** The snapshot lists exactly the pairs of the occupied slots. */
  lemma {:induction false} OccupiedMembers<K, V>(slots: Slots<K, V>)
    ensures forall i :: 0 <= i < |slots| && slots[i].Some? ==> slots[i].value in Occupied(slots)
    ensures forall j :: 0 <= j < |Occupied(slots)| ==> Some(Occupied(slots)[j]) in slots
    decreases |slots|
  {
    if slots != [] {
      var init := slots[..|slots| - 1];
      OccupiedMembers(init);
      assert forall i :: 0 <= i < |init| ==> init[i] == slots[i];
    }
  }

  /** The pairs of one slot. */
  function SlotPairs<K(==), V(==)>(o: Option<Entry<K, V>>): multiset<Entry<K, V>> {
    if o.Some? then multiset{o.value} else multiset{}
  }

  /** The stored pairs, counted with multiplicity. */
  function Pairs<K(==), V(==)>(slots: Slots<K, V>): multiset<Entry<K, V>> {
    if slots == [] then multiset{}
    else Pairs(slots[..|slots| - 1]) + SlotPairs(slots[|slots| - 1])
  }

  /** The snapshot holds the stored pairs, each as often as it is stored. */
  lemma {:induction false} PairsAreOccupied<K, V>(slots: Slots<K, V>)
    ensures Pairs(slots) == multiset(Occupied(slots))
    decreases |slots|
  {
    if slots != [] {
      PairsAreOccupied(slots[..|slots| - 1]);
    }
  }

  /** A pair is stored exactly when some slot holds it. */
  lemma {:induction false} PairsMembers<K, V>(slots: Slots<K, V>, e: Entry<K, V>)
    ensures e in Pairs(slots) <==> Some(e) in slots
    decreases |slots|
  {
    if slots != [] {
      var init := slots[..|slots| - 1];
      PairsMembers(init, e);
      assert slots == init + [slots[|slots| - 1]];
    }
  }

  /** A multiset with no element twice: for `Pairs`, no pair stored twice. */
  ghost predicate Unique<T>(m: multiset<T>) {
    forall x | x in m :: m[x] == 1
  }

  /** The numbers of the occupied slots. */
  function OccupiedSlots<K(==), V(==)>(slots: Slots<K, V>): set<nat> {
    set i | 0 <= i < |slots| && slots[i].Some?
  }

  /** A table with `capacity` empty slots. */
  function EmptySlots<K(==), V(==)>(capacity: nat): (r: Slots<K, V>)
    ensures |r| == capacity
    ensures forall i :: 0 <= i < capacity ==> r[i] == None
    ensures Occupied(r) == []
  {
    var r := seq(capacity, _ => None);
    NoneOccupied(r);
    r
  }

  lemma {:induction false} NoneOccupied<K, V>(slots: Slots<K, V>)
    requires forall i :: 0 <= i < |slots| ==> slots[i] == None
    ensures Occupied(slots) == []
    decreases |slots|
  {
    if slots != [] {
      NoneOccupied(slots[..|slots| - 1]);
    }
  }

  /** `new CuckooHash(size)`: `new Bucket[size]` throws when `size < 0`. */
  function New<K(==), V(==)>(size: int): (r: Result<Slots<K, V>, CuckooError>)
    ensures r.Ok? <==> size >= 0
    ensures r.Ok? ==> |r.value| == size && Occupied(r.value) == []
  {
    if size < 0 then Err(NegativeArraySize) else Ok(EmptySlots(size))
  }

  /** `size()`: the number of non-null slots. */
  function Size<K(==), V(==)>(slots: Slots<K, V>): (n: nat)
    ensures n == |OccupiedSlots(slots)|
    ensures n <= |slots|
  {
    if slots == [] then 0
    else
      var init := slots[..|slots| - 1];
      assert OccupiedSlots(slots) ==
        OccupiedSlots(init) + (if slots[|slots| - 1].Some? then {|slots| - 1} else {});
      Size(init) + (if slots[|slots| - 1].Some? then 1 else 0)
  }

  /** The size is the number of stored pairs. */
  lemma {:induction false} SizeCountsPairs<K, V>(slots: Slots<K, V>)
    ensures Size(slots) == |Occupied(slots)| == |Pairs(slots)|
    decreases |slots|
  {
    if slots != [] {
      SizeCountsPairs(slots[..|slots| - 1]);
    }
  }

  /** `clear()`: a fresh array of the same capacity. */
  function Clear<K(==), V(==)>(slots: Slots<K, V>): (r: Slots<K, V>)
    ensures |r| == |slots|
    ensures forall i :: 0 <= i < |r| ==> r[i] == None
    ensures Size(r) == 0 && Occupied(r) == []
  {
    var r := EmptySlots(|slots|);
    assert OccupiedSlots(r) == {};
    r
  }

  /** `values()`: the values of the stored pairs in slot order, one entry
      per occupied slot. */
  function Values<K(==), V(==)>(slots: Slots<K, V>): (r: seq<V>)
    ensures |r| == Size(slots) == |OccupiedIndices(slots)|
    ensures forall j :: 0 <= j < |r| ==> r[j] == slots[OccupiedIndices(slots)[j]].value.value
  {
    var idx := OccupiedIndices(slots);
    OccupiedInSlotOrder(slots);
    SizeCountsPairs(slots);
    seq(|idx|, j requires 0 <= j < |idx| => slots[idx[j]].value.value)
  }

  /** Every stored value is listed by `values`, and nothing else is. */
  lemma ValuesMembers<K, V>(slots: Slots<K, V>)
    ensures forall i :: 0 <= i < |slots| && slots[i].Some? ==> slots[i].value.value in Values(slots)
    ensures forall j :: 0 <= j < |Values(slots)| ==>
      exists i :: 0 <= i < |slots| && slots[i].Some? && slots[i].value.value == Values(slots)[j]
  {
    var r, idx := Values(slots), OccupiedIndices(slots);
    forall i | 0 <= i < |slots| && slots[i].Some?
      ensures slots[i].value.value in r
    {
      var j :| 0 <= j < |idx| && idx[j] == i;
      assert r[j] == slots[i].value.value;
    }
  }

  /** `keys()`: the set of keys of the stored pairs. */
  function Keys<K(==), V(==)>(slots: Slots<K, V>): (r: set<K>)
    ensures forall i :: 0 <= i < |slots| && slots[i].Some? ==> slots[i].value.key in r
    ensures forall k | k in r :: exists i :: 0 <= i < |slots| && slots[i].Some? && slots[i].value.key == k
  {
    var occupied := Occupied(slots);
    OccupiedMembers(slots);
    set e | e in occupied :: e.key
  }

  /** Slot `i` holds a pair with key `key`. */
  predicate HasKey<K(==), V(==)>(slots: Slots<K, V>, i: nat, key: K) {
    i < |slots| && slots[i].Some? && slots[i].value.key == key
  }

  /** `get(key)`: the value at the primary slot if its key matches, else at
      the secondary slot if its key matches, else `null`. */
  function Get<K(==), V(==)>(slots: Slots<K, V>, hash: K -> int, key: K): (r: Option<V>)
    requires |slots| > 0 && ValidCode(hash(key))
    ensures var p1 := H1(hash, key, |slots|);
      HasKey(slots, p1, key) ==> r == Some(slots[p1].value.value)
    ensures var p1, p2 := H1(hash, key, |slots|), H2(hash, key, |slots|);
      !HasKey(slots, p1, key) && HasKey(slots, p2, key) ==> r == Some(slots[p2].value.value)
    ensures r.Some? <==> HasKey(slots, H1(hash, key, |slots|), key) || HasKey(slots, H2(hash, key, |slots|), key)
    ensures r.Some? ==> Entry(key, r.value) in Pairs(slots)
  {
    var p1 := H1(hash, key, |slots|);
    var p2 := H2(hash, key, |slots|);
    if HasKey(slots, p1, key) then
      PairsMembers(slots, slots[p1].value);
      Some(slots[p1].value.value)
    else if HasKey(slots, p2, key) then
      PairsMembers(slots, slots[p2].value);
      Some(slots[p2].value.value)
    else None
  }

  /** In a well-placed table `get` finds every stored key: a pair with that
      key sits in one of the two slots `get` reads. */
  lemma GetFindsStoredKey<K, V>(slots: Slots<K, V>, hash: K -> int, e: Entry<K, V>)
    requires WellPlaced(slots, hash) && e in Pairs(slots)
    ensures |slots| > 0 && ValidCode(hash(e.key))
    ensures Get(slots, hash, e.key).Some?
  {
    PairsMembers(slots, e);
    var i :| 0 <= i < |slots| && slots[i] == Some(e);
    assert IsHome(hash, e.key, |slots|, i);
  }

  /** In a well-placed table a pair is stored exactly when it sits in one of
      its key's two slots. */
  lemma PlacedMember<K, V>(slots: Slots<K, V>, hash: K -> int, e: Entry<K, V>)
    requires |slots| > 0 && ValidCode(hash(e.key))
    ensures WellPlaced(slots, hash) ==>
      (e in Pairs(slots) <==>
        slots[H1(hash, e.key, |slots|)] == Some(e) || slots[H2(hash, e.key, |slots|)] == Some(e))
  {
    PairsMembers(slots, e);
    if WellPlaced(slots, hash) && Some(e) in slots {
      var i :| 0 <= i < |slots| && slots[i] == Some(e);
      assert IsHome(hash, e.key, |slots|, i);
    }
  }

  /** Slot `i` holds a pair whose value is `value`. */
  predicate HasValue<K(==), V(==)>(slots: Slots<K, V>, i: nat, value: V) {
    i < |slots| && slots[i].Some? && slots[i].value.value == value
  }

  /** Overwriting one slot replaces that slot's pair in the multiset. */
  lemma {:induction false} PairsUpdate<K, V>(slots: Slots<K, V>, i: nat, o: Option<Entry<K, V>>)
    requires i < |slots|
    ensures Pairs(slots[i := o]) == Pairs(slots) - SlotPairs(slots[i]) + SlotPairs(o)
    decreases |slots|
  {
    var n := |slots| - 1;
    var init := slots[..n];
    var updated := slots[i := o];
    assert Pairs(slots) == Pairs(init) + SlotPairs(slots[n]);
    assert Pairs(updated) == Pairs(updated[..n]) + SlotPairs(updated[n]);
    if i < n {
      assert updated[..n] == init[i := o];
      PairsUpdate(init, i, o);
      SlotInPairs(init, i);
      SwapInsertion(Pairs(init), SlotPairs(slots[n]), SlotPairs(slots[i]), SlotPairs(o));
    } else {
      assert updated[..n] == init;
      ReplaceLast(Pairs(init), SlotPairs(slots[n]), SlotPairs(o));
    }
  }

  /** Each slot's pair is among the stored pairs. */
  lemma SlotInPairs<K, V>(slots: Slots<K, V>, i: nat)
    requires i < |slots|
    ensures SlotPairs(slots[i]) <= Pairs(slots)
  {
    if slots[i].Some? {
      PairsMembers(slots, slots[i].value);
    }
  }

  /** Emptying a slot keeps every remaining pair in one of its key's slots. */
  lemma ClearKeepsPlaced<K, V>(slots: Slots<K, V>, hash: K -> int, i: nat)
    requires i < |slots|
    ensures WellPlaced(slots, hash) ==> WellPlaced(slots[i := None], hash)
  {
    var r := slots[i := None];
    if WellPlaced(slots, hash) {
      forall j | 0 <= j < |r| && r[j].Some?
        ensures IsHome(hash, r[j].value.key, |r|, j)
      {
        assert r[j] == slots[j];
      }
    }
  }

  lemma SwapInsertion<T>(a: multiset<T>, b: multiset<T>, c: multiset<T>, d: multiset<T>)
    requires c <= a
    ensures (a - c + d) + b == (a + b) - c + d
  {
  }

  lemma ReplaceLast<T>(a: multiset<T>, c: multiset<T>, d: multiset<T>)
    ensures a + d == (a + c) - c + d
  {
  }

  /** `remove(key, value)` as written: tries the primary slot, then the
      secondary, and clears the first whose VALUE equals `value`; the key
      stored there is never compared. */
  function Remove<K(==), V(==)>(slots: Slots<K, V>, hash: K -> int, key: K, value: V): (r: (Slots<K, V>, bool))
    requires |slots| > 0 && ValidCode(hash(key))
    ensures |r.0| == |slots|
    ensures var p1, p2 := H1(hash, key, |slots|), H2(hash, key, |slots|);
      r.1 <==> HasValue(slots, p1, value) || HasValue(slots, p2, value)
    ensures !r.1 ==> r.0 == slots
    ensures var p1 := H1(hash, key, |slots|);
      HasValue(slots, p1, value) ==> r.0 == slots[p1 := None]
    ensures var p1, p2 := H1(hash, key, |slots|), H2(hash, key, |slots|);
      !HasValue(slots, p1, value) && HasValue(slots, p2, value) ==> r.0 == slots[p2 := None]
    ensures r.1 ==> exists i :: 0 <= i < |slots| && HasValue(slots, i, value) &&
                                Pairs(r.0) == Pairs(slots) - multiset{slots[i].value}
    ensures WellPlaced(slots, hash) ==> WellPlaced(r.0, hash)
  {
    var p1 := H1(hash, key, |slots|);
    var p2 := H2(hash, key, |slots|);
    if HasValue(slots, p1, value) then
      PairsUpdate(slots, p1, None);
      ClearKeepsPlaced(slots, hash, p1);
      (slots[p1 := None], true)
    else if HasValue(slots, p2, value) then
      PairsUpdate(slots, p2, None);
      ClearKeepsPlaced(slots, hash, p2);
      (slots[p2 := None], true)
    else (slots, false)
  }

  /** `remove` as evidently intended: the pair is removed only when both its
      key and its value match. */
  function RemoveExact<K(==), V(==)>(slots: Slots<K, V>, hash: K -> int, key: K, value: V): (r: (Slots<K, V>, bool))
    requires |slots| > 0 && ValidCode(hash(key))
    ensures |r.0| == |slots|
    ensures WellPlaced(slots, hash) ==> (r.1 <==> Entry(key, value) in Pairs(slots))
    ensures r.1 ==> Pairs(r.0) == Pairs(slots) - multiset{Entry(key, value)}
    ensures !r.1 ==> r.0 == slots
    ensures WellPlaced(slots, hash) ==> WellPlaced(r.0, hash)
  {
    var p1 := H1(hash, key, |slots|);
    var p2 := H2(hash, key, |slots|);
    var e := Some(Entry(key, value));
    PlacedMember(slots, hash, e.value);
    if slots[p1] == e then
      PairsUpdate(slots, p1, None);
      ClearKeepsPlaced(slots, hash, p1);
      (slots[p1 := None], true)
    else if slots[p2] == e then
      PairsUpdate(slots, p2, None);
      ClearKeepsPlaced(slots, hash, p2);
      (slots[p2 := None], true)
    else (slots, false)
  }

  /** With key 1 stored as <1, "v"> in slot 1 of ten, `remove(11, "v")` reads
      slot 1 (11 % 10), finds the value "v" there and deletes the pair of key
      1, although no pair <11, "v"> was ever stored. */
  lemma RemoveIgnoresKey()
    ensures var slots: Slots<int, string> := EmptySlots(10)[1 := Some(Entry(1, "v"))];
      var hash := (k: int) => k;
      && Entry(11, "v") !in Pairs(slots)
      && Remove(slots, hash, 11, "v") == (EmptySlots(10), true)
      && RemoveExact(slots, hash, 11, "v") == (slots, false)
  {
    var slots: Slots<int, string> := EmptySlots(10)[1 := Some(Entry(1, "v"))];
    var hash := (k: int) => k;
    assert H1(hash, 11, 10) == 1;
    assert H2(hash, 11, 10) == 0;
    assert slots[1 := None] == EmptySlots(10);
    PairsMembers(slots, Entry(11, "v"));
    assert forall i :: 0 <= i < 10 ==> slots[i] != Some(Entry(11, "v"));
  }
}
