/** Cuckoo insertion and growth (CuckooHash.java:186-256, 353-364).

    `put` is an unfinished stub in the repository: its body computes the two
    bucket numbers and returns. What is modelled here is the algorithm its
    documentation comment prescribes, which `rehash` and the repository's
    tests rely on:
      - an identical <key, value> pair already in one of the key's two slots
        is not stored again (other pairs with the same key are);
      - the new pair goes to its primary slot, evicting the occupant, which
        moves to its other slot, evicting that slot's occupant, and so on
        until a slot is empty or CAPACITY moves have been made;
      - after CAPACITY moves the table grows to 2 * CAPACITY + 1 (`rehash`,
        re-putting the old pairs in ascending slot order) and the pair still
        being carried is put again.
    This does not always terminate (three pairs with one key never fit in
    that key's two slots), so `Put`, `Rehash` and `ReputAll` take `fuel`,
    the number of nested growths allowed; `None` means the fuel ran out. */
module CuckooInsert {

  import opened Wrappers
  import opened CuckooTable

  /** Writing a pair into one of its key's slots keeps the table well placed. */
  lemma PlaceKeepsPlaced<K, V>(slots: Slots<K, V>, hash: K -> int, i: nat, e: Entry<K, V>)
    requires i < |slots| && WellPlaced(slots, hash) && IsHome(hash, e.key, |slots|, i)
    ensures WellPlaced(slots[i := Some(e)], hash)
  {
    var r := slots[i := Some(e)];
    forall j | 0 <= j < |r| && r[j].Some?
      ensures IsHome(hash, r[j].value.key, |r|, j)
    {
      if j != i {
        assert r[j] == slots[j];
      }
    }
  }

  /** The other slot of a pair evicted from slot `pos`: `hash2` if it was
      evicted from its `hash1` slot, `hash1` otherwise. */
  function OtherSlot<K>(hash: K -> int, key: K, capacity: nat, pos: nat): (i: nat)
    requires capacity > 0 && ValidCode(hash(key))
    ensures IsHome(hash, key, capacity, i)
    ensures IsHome(hash, key, capacity, pos) && H1(hash, key, capacity) != H2(hash, key, capacity) ==> i != pos
  {
    if pos == H1(hash, key, capacity) then H2(hash, key, capacity) else H1(hash, key, capacity)
  }

  /** The kick chain: carry `e` to slot `pos`; if the slot is empty the pair
      lands there, otherwise it takes the slot and the occupant is carried on
      to its other slot. After `kicks` moves the pair still carried is
      returned. */
  function Displace<K(==), V(==)>(slots: Slots<K, V>, hash: K -> int, e: Entry<K, V>, pos: nat, kicks: nat)
    : (r: (Slots<K, V>, Option<Entry<K, V>>))
    requires pos < |slots| && WellPlaced(slots, hash) && IsHome(hash, e.key, |slots|, pos)
    ensures |r.0| == |slots|
    ensures WellPlaced(r.0, hash)
    ensures Pairs(r.0) + SlotPairs(r.1) == Pairs(slots) + multiset{e}
    ensures r.1.Some? ==> ValidCode(hash(r.1.value.key))
    ensures kicks == 0 ==> r == (slots, Some(e))
    ensures kicks > 0 && slots[pos].None? ==> r == (slots[pos := Some(e)], None)
    decreases kicks
  {
    if kicks == 0 then (slots, Some(e))
    else
      PlaceKeepsPlaced(slots, hash, pos, e);
      PairsUpdate(slots, pos, Some(e));
      match slots[pos]
      case None => (slots[pos := Some(e)], None)
      case Some(evicted) =>
        assert IsHome(hash, evicted.key, |slots|, pos);
        SlotInPairs(slots, pos);
        var next := OtherSlot(hash, evicted.key, |slots|, pos);
        Displace(slots[pos := Some(e)], hash, evicted, next, kicks - 1)
  }

  /** An empty table holds no pairs and is well placed under any hash. */
  lemma EmptyTable<K, V>(capacity: nat, hash: K -> int)
    ensures Pairs(EmptySlots<K, V>(capacity)) == multiset{}
    ensures WellPlaced(EmptySlots<K, V>(capacity), hash)
  {
    PairsAreOccupied(EmptySlots<K, V>(capacity));
  }

  /** `put(key, value)` as documented. With fuel enough, the result is well
      placed, never smaller, and holds the old pairs plus the new one unless
      that exact pair was already stored. */
  function Put<K(==), V(==)>(slots: Slots<K, V>, hash: K -> int, e: Entry<K, V>, fuel: nat)
    : (r: Option<Slots<K, V>>)
    requires |slots| > 0 && WellPlaced(slots, hash) && ValidCode(hash(e.key))
    ensures r.Some? ==> |r.value| >= |slots| && WellPlaced(r.value, hash)
    ensures r.Some? && Unique(Pairs(slots)) ==>
      Pairs(r.value) == Pairs(slots) + (if e in Pairs(slots) then multiset{} else multiset{e})
    ensures e in Pairs(slots) ==> r == Some(slots)
    ensures r.Some? ==> GrownFrom(|slots|, |r.value|)
    decreases fuel, 0, 0
  {
    var p1 := H1(hash, e.key, |slots|);
    var p2 := H2(hash, e.key, |slots|);
    PlacedMember(slots, hash, e);
    if slots[p1] == Some(e) || slots[p2] == Some(e) then Some(slots)
    else
      var (table, carried) := Displace(slots, hash, e, p1, |slots|);
      if carried.None? then Some(table)
      else if fuel == 0 then None
      else
        match Rehash(table, hash, fuel - 1)
        case None => None
        case Some(grown) =>
          var r := Put(grown, hash, carried.value, fuel - 1);
          GrowAccounting(slots, table, grown, r, e, carried.value);
          r
  }

  /** After a growth and a retry, the pairs are the old ones plus `e`, and
      the capacity has grown from the old one by at least one growth. */
  lemma GrowAccounting<K, V>(slots: Slots<K, V>, table: Slots<K, V>, grown: Slots<K, V>,
                             r: Option<Slots<K, V>>, e: Entry<K, V>, carried: Entry<K, V>)
    requires e !in Pairs(slots)
    requires |table| == |slots|
    requires Pairs(table) + multiset{carried} == Pairs(slots) + multiset{e}
    requires GrownFrom(Grow(|table|), |grown|)
    requires Unique(Pairs(table)) ==> Pairs(grown) == Pairs(table)
    requires r.Some? ==> GrownFrom(|grown|, |r.value|)
    requires r.Some? && Unique(Pairs(grown)) ==>
      Pairs(r.value) == Pairs(grown) + (if carried in Pairs(grown) then multiset{} else multiset{carried})
    ensures r.Some? && Unique(Pairs(slots)) ==> Pairs(r.value) == Pairs(slots) + multiset{e}
    ensures r.Some? ==> GrownFrom(|slots|, |r.value|) && |r.value| > |slots|
  {
    CarriedIsNew(slots, table, e, carried);
    if r.Some? {
      GrowStep(|table|, |grown|, |r.value|);
    }
  }

  /** When the old pairs are distinct and `e` is new, the pair left over
      by a kick chain is not among the pairs it left in the table. */
  lemma CarriedIsNew<K, V>(slots: Slots<K, V>, table: Slots<K, V>, e: Entry<K, V>, carried: Entry<K, V>)
    requires Pairs(table) + multiset{carried} == Pairs(slots) + multiset{e}
    ensures Unique(Pairs(slots)) && e !in Pairs(slots) ==> Unique(Pairs(table)) && carried !in Pairs(table)
  {
    if Unique(Pairs(slots)) && e !in Pairs(slots) {
      var all := Pairs(slots) + multiset{e};
      assert Unique(all) by {
        forall x | x in all ensures all[x] == 1 {
          if x == e {
            assert x !in Pairs(slots);
          }
        }
      }
      assert all[carried] == Pairs(table)[carried] + 1;
      forall x | x in Pairs(table) ensures Pairs(table)[x] == 1 {
        assert all[x] >= Pairs(table)[x];
      }
    }
  }

  /** `rehash()`: a table of capacity 2 * CAPACITY + 1 into which the old
      pairs are put in ascending slot order. */
  function Rehash<K(==), V(==)>(slots: Slots<K, V>, hash: K -> int, fuel: nat) : (r: Option<Slots<K, V>>)
    requires WellPlaced(slots, hash)
    ensures r.Some? ==> |r.value| >= 2 * |slots| + 1 && WellPlaced(r.value, hash)
    ensures r.Some? && Unique(Pairs(slots)) ==> Pairs(r.value) == Pairs(slots)
    ensures r.Some? ==> GrownFrom(Grow(|slots|), |r.value|)
    decreases fuel, 2, 0
  {
    var empty: Slots<K, V> := EmptySlots(Grow(|slots|));
    EmptyTable<K, V>(Grow(|slots|), hash);
    SnapshotCodes(slots, hash);
    JoinEmpty(Pairs(empty), Occupied(slots), Pairs(slots));
    ReputAll(empty, hash, Occupied(slots), fuel)
  }

  /** The snapshot `rehash` re-puts holds the old pairs, every one with a
      key of valid code. */
  lemma SnapshotCodes<K, V>(slots: Slots<K, V>, hash: K -> int)
    requires WellPlaced(slots, hash)
    ensures forall j :: 0 <= j < |Occupied(slots)| ==> ValidCode(hash(Occupied(slots)[j].key))
    ensures multiset(Occupied(slots)) == Pairs(slots)
  {
    PairsAreOccupied(slots);
    OccupiedMembers(slots);
    forall j | 0 <= j < |Occupied(slots)|
      ensures ValidCode(hash(Occupied(slots)[j].key))
    {
      var i :| 0 <= i < |slots| && slots[i] == Some(Occupied(slots)[j]);
      assert IsHome(hash, slots[i].value.key, |slots|, i);
    }
  }

  lemma JoinEmpty<T>(empty: multiset<T>, snapshot: seq<T>, m: multiset<T>)
    requires empty == multiset{} && multiset(snapshot) == m
    ensures empty + multiset(snapshot) == m
  {
  }

  /** Puts `pending` in order into `acc`: the loop of `rehash`. */
  function ReputAll<K(==), V(==)>(acc: Slots<K, V>, hash: K -> int, pending: seq<Entry<K, V>>, fuel: nat)
    : (r: Option<Slots<K, V>>)
    requires |acc| > 0 && WellPlaced(acc, hash)
    requires forall j :: 0 <= j < |pending| ==> ValidCode(hash(pending[j].key))
    ensures r.Some? ==> |r.value| >= |acc| && WellPlaced(r.value, hash)
    ensures r.Some? && Unique(Pairs(acc) + multiset(pending)) ==> Pairs(r.value) == Pairs(acc) + multiset(pending)
    ensures r.Some? ==> GrownFrom(|acc|, |r.value|)
    decreases fuel, 1, |pending|
  {
    if pending == [] then Some(acc)
    else
      match Put(acc, hash, pending[0], fuel)
      case None => None
      case Some(next) =>
        ReputStep(acc, pending);
        var r := ReputAll(next, hash, pending[1..], fuel);
        if r.Some? then GrownFromTrans(|acc|, |next|, |r.value|); r else r
  }

  /** Splitting off the first pending pair keeps the accounting distinct. */
  lemma ReputStep<K, V>(acc: Slots<K, V>, pending: seq<Entry<K, V>>)
    requires pending != []
    ensures Pairs(acc) + multiset(pending) == (Pairs(acc) + multiset{pending[0]}) + multiset(pending[1..])
    ensures Unique(Pairs(acc) + multiset(pending)) ==>
      Unique(Pairs(acc)) && pending[0] !in Pairs(acc) && Unique((Pairs(acc) + multiset{pending[0]}) + multiset(pending[1..]))
  {
    assert pending == [pending[0]] + pending[1..];
    var all := Pairs(acc) + multiset(pending);
    if Unique(all) {
      assert all[pending[0]] == 1;
      forall x | x in Pairs(acc) ensures Pairs(acc)[x] == 1 {
        assert all[x] >= Pairs(acc)[x];
      }
    }
  }

  /** A new pair whose primary slot is free goes straight into it. */
  lemma PutFreeHome<K, V>(slots: Slots<K, V>, hash: K -> int, e: Entry<K, V>, fuel: nat)
    requires |slots| > 0 && WellPlaced(slots, hash) && ValidCode(hash(e.key))
    requires slots[H1(hash, e.key, |slots|)] == None
    requires slots[H2(hash, e.key, |slots|)] != Some(e)
    ensures Put(slots, hash, e, fuel) == Some(slots[H1(hash, e.key, |slots|) := Some(e)])
  {
  }

  /** A new pair whose primary slot is taken evicts the occupant, which
      moves to its other slot when that one is free. */
  lemma PutKickOnce<K, V>(slots: Slots<K, V>, hash: K -> int, e: Entry<K, V>, fuel: nat)
    requires |slots| > 1 && WellPlaced(slots, hash) && ValidCode(hash(e.key))
    requires slots[H1(hash, e.key, |slots|)].Some?
    requires slots[H1(hash, e.key, |slots|)] != Some(e) && slots[H2(hash, e.key, |slots|)] != Some(e)
    requires var x := slots[H1(hash, e.key, |slots|)].value;
      slots[OtherSlot(hash, x.key, |slots|, H1(hash, e.key, |slots|))] == None
    ensures var p := H1(hash, e.key, |slots|);
      var x := slots[p].value;
      Put(slots, hash, e, fuel) == Some(slots[p := Some(e)][OtherSlot(hash, x.key, |slots|, p) := Some(x)])
  {
    var p := H1(hash, e.key, |slots|);
    var x := slots[p].value;
    var q := OtherSlot(hash, x.key, |slots|, p);
    var t := slots[p := Some(e)];
    assert IsHome(hash, x.key, |slots|, p);
    PlaceKeepsPlaced(slots, hash, p, e);
    assert t[q] == None;
    assert Displace(t, hash, x, q, |slots| - 1) == (t[q := Some(x)], None);
    assert Displace(slots, hash, e, p, |slots|) == Displace(t, hash, x, q, |slots| - 1);
  }

  /** `put` never stores a pair twice. */
  lemma PutKeepsUnique<K, V>(slots: Slots<K, V>, hash: K -> int, e: Entry<K, V>, fuel: nat)
    requires |slots| > 0 && WellPlaced(slots, hash) && ValidCode(hash(e.key))
    requires Unique(Pairs(slots))
    ensures var r := Put(slots, hash, e, fuel);
      r.Some? ==> Unique(Pairs(r.value)) && e in Pairs(r.value)
  {
    var r := Put(slots, hash, e, fuel);
    if r.Some? && e !in Pairs(slots) {
      var m := Pairs(r.value);
      assert m == Pairs(slots) + multiset{e};
      forall x | x in m ensures m[x] == 1 {
        if x != e {
          assert m[x] == Pairs(slots)[x];
        }
      }
    }
  }

  /** After `put(key, value)`, `get(key)` finds a value for the key. */
  lemma PutThenGet<K, V>(slots: Slots<K, V>, hash: K -> int, e: Entry<K, V>, fuel: nat)
    requires |slots| > 0 && WellPlaced(slots, hash) && ValidCode(hash(e.key))
    requires Unique(Pairs(slots))
    ensures var r := Put(slots, hash, e, fuel);
      r.Some? ==> Get(r.value, hash, e.key).Some?
  {
    var r := Put(slots, hash, e, fuel);
    if r.Some? {
      PutKeepsUnique(slots, hash, e, fuel);
      GetFindsStoredKey(r.value, hash, e);
    }
  }

  /** A put keeps every stored pair reachable by `get`. */
  lemma PutKeepsOthers<K, V>(slots: Slots<K, V>, hash: K -> int, e: Entry<K, V>, fuel: nat, other: Entry<K, V>)
    requires |slots| > 0 && WellPlaced(slots, hash) && ValidCode(hash(e.key))
    requires Unique(Pairs(slots)) && other in Pairs(slots) && ValidCode(hash(other.key))
    ensures var r := Put(slots, hash, e, fuel);
      r.Some? ==> other in Pairs(r.value) && Get(r.value, hash, other.key).Some?
  {
    var r := Put(slots, hash, e, fuel);
    if r.Some? {
      GetFindsStoredKey(r.value, hash, other);
    }
  }

  /** Putting the same pair twice is the same as putting it once. */
  lemma PutIdempotent<K, V>(slots: Slots<K, V>, hash: K -> int, e: Entry<K, V>, fuel: nat, fuel2: nat)
    requires |slots| > 0 && WellPlaced(slots, hash) && ValidCode(hash(e.key))
    requires Unique(Pairs(slots))
    ensures var r := Put(slots, hash, e, fuel);
      r.Some? ==> Put(r.value, hash, e, fuel2) == r
  {
    PutKeepsUnique(slots, hash, e, fuel);
  }

  /** `size()` grows by one exactly when the pair was not stored already. */
  lemma PutSize<K, V>(slots: Slots<K, V>, hash: K -> int, e: Entry<K, V>, fuel: nat)
    requires |slots| > 0 && WellPlaced(slots, hash) && ValidCode(hash(e.key))
    requires Unique(Pairs(slots))
    ensures var r := Put(slots, hash, e, fuel);
      r.Some? ==> Size(r.value) == Size(slots) + (if e in Pairs(slots) then 0 else 1)
  {
    var r := Put(slots, hash, e, fuel);
    SizeCountsPairs(slots);
    if r.Some? {
      SizeCountsPairs(r.value);
    }
  }

  /** Capacity `d` is reached from capacity `c` by zero or more growths,
      each to twice the capacity plus one. */
  predicate GrownFrom(c: nat, d: nat)
    decreases d - c
  {
    d == c || (d > c && GrownFrom(Grow(c), d))
  }

  /** The capacity `rehash` grows a table of capacity `c` to. */
  function Grow(c: nat): (g: nat)
    ensures g > c
  {
    2 * c + 1
  }

  /** Growth never shrinks the table. */
  lemma {:induction false} GrownFromAtLeast(c: nat, d: nat)
    requires GrownFrom(c, d)
    ensures c <= d
    decreases d - c
  {
    if d != c {
      GrownFromAtLeast(Grow(c), d);
    }
  }

  /** Growths chain. */
  lemma {:induction false} GrownFromTrans(c: nat, d: nat, e: nat)
    requires GrownFrom(c, d) && GrownFrom(d, e)
    ensures GrownFrom(c, e)
    decreases d - c
  {
    if d != c {
      GrownFromTrans(Grow(c), d, e);
      GrownFromAtLeast(Grow(c), e);
    }
  }

  /** Each growth doubles CAPACITY + 1, so a grown capacity plus one is a
      multiple of the old capacity plus one. */
  lemma {:induction false} GrownFromMultiple(c: nat, d: nat) returns (k: nat)
    requires GrownFrom(c, d)
    ensures d + 1 == (c + 1) * k && k >= 1
    decreases d - c
  {
    if d == c {
      k := 1;
    } else {
      var j := GrownFromMultiple(Grow(c), d);
      k := 2 * j;
    }
  }

  /** A growth of a table of capacity `c` to `g`, followed by a retry
      that grew from `g` to `d`, grew from `c`. */
  lemma GrowStep(c: nat, g: nat, d: nat)
    requires GrownFrom(Grow(c), g) && GrownFrom(g, d)
    ensures GrownFrom(c, d) && d > c
  {
    GrownFromAtLeast(Grow(c), g);
    assert GrownFrom(c, g);
    GrownFromTrans(c, g, d);
    GrownFromAtLeast(g, d);
  }

  /** `put` keeps the capacity when the kick chain places every pair, and
      grows it only when the chain gives up with fuel left for a rehash. */
  lemma PutKeepsCapacity<K, V>(slots: Slots<K, V>, hash: K -> int, e: Entry<K, V>, fuel: nat)
    requires |slots| > 0 && WellPlaced(slots, hash) && ValidCode(hash(e.key))
    ensures var d := Displace(slots, hash, e, H1(hash, e.key, |slots|), |slots|);
      var r := Put(slots, hash, e, fuel);
      && (d.1.None? ==> r.Some? && |r.value| == |slots|)
      && (r.Some? && |r.value| != |slots| ==>
            && slots[H1(hash, e.key, |slots|)] != Some(e) && slots[H2(hash, e.key, |slots|)] != Some(e)
            && d.1.Some? && fuel > 0)
  {
  }
}
