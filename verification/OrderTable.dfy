/**
  The open-addressing table of live orders: linear probing with wraparound and tombstones.  It holds
  a map, whatever mixing function spreads the keys.
 */
module OrderTables {
  import opened Types

  datatype Slot<V> = Empty | Tombstone | Live(key: u64, value: V)

  datatype Place = Held(idx: nat) | Room(idx: nat) | NoRoom

  // ---- The probe sequence ----

  /** Probing from home meets slot i before it gets to slot j. */
  predicate Before(home: nat, j: nat, i: nat) {
    if home <= j then home <= i < j else home <= i || i < j
  }

  predicate Probed(home: nat, idx: nat, probes: nat, size: nat, i: nat) {
    probes == size || Before(home, idx, i)
  }

  predicate AtProbe(home: nat, idx: nat, probes: nat, size: nat) {
    && home < size && idx < size && probes <= size
    && idx == if home + probes < size then home + probes else home + probes - size
  }

  function NextSlot(idx: nat, size: nat): nat {
    if idx + 1 == size then 0 else idx + 1
  }

  // ---- The table as a value ----

  ghost predicate IsFor<V>(slot: Slot<V>, key: u64) {
    slot.Live? && slot.key == key
  }

  function Removed<V>(m: map<u64, V>, key: u64): map<u64, V> {
    map k | k in m && k != key :: m[k]
  }

  lemma RemovedIsSmaller<V>(m: map<u64, V>, key: u64)
    requires key in m
    ensures |Removed(m, key)| == |m| - 1
  {
    assert Removed(m, key).Keys == m.Keys - {key};
    assert |m| == |m.Keys| && |Removed(m, key)| == |Removed(m, key).Keys|;
  }

  /** The live slots are exactly the entries of the map, each in its place. */
  ghost predicate Indexed<V>(slots: seq<Slot<V>>, contents: map<u64, V>, at: map<u64, nat>) {
    && at.Keys == contents.Keys
    && (forall k :: k in at ==> at[k] < |slots| && slots[at[k]] == Live(k, contents[k]))
    && (forall i :: 0 <= i < |slots| && slots[i].Live? ==> slots[i].key in at && at[slots[i].key] == i)
  }

  /** No empty slot lies on the way from an order's home to the order. */
  ghost predicate Connected<V>(slots: seq<Slot<V>>, home: u64 -> nat, at: map<u64, nat>) {
    forall k, i :: k in at && 0 <= i < |slots| && Before(home(k), at[k], i) ==> !slots[i].Empty?
  }

  /** The table holds the map. */
  ghost predicate Holds<V>(slots: seq<Slot<V>>, contents: map<u64, V>, at: map<u64, nat>, home: u64 -> nat) {
    forall u {:trigger Unsealed(u)} :: Unsealed(u) ==> Indexed(slots, contents, at) && Connected(slots, home, at)
  }

  lemma HitAt<V>(slots: seq<Slot<V>>, contents: map<u64, V>, at: map<u64, nat>, home: u64 -> nat, key: u64, idx: nat)
    requires Holds(slots, contents, at, home) && idx < |slots| && IsFor(slots[idx], key)
    ensures key in contents && slots[idx] == Live(key, contents[key])
  {
    assert Unsealed(true);
  }

  /** A probe for the key has come to a slot without meeting the key or an empty slot. */
  ghost predicate Passed<V>(slots: seq<Slot<V>>, home: nat, key: u64, idx: nat, probes: nat) {
    AtProbe(home, idx, probes, |slots|) && NoneMet(slots, home, key, idx, probes) == true
  }

  ghost predicate NoneMet<V>(slots: seq<Slot<V>>, home: nat, key: u64, idx: nat, probes: nat) {
    forall u {:trigger Unsealed(u)} :: Unsealed(u) ==>
      forall i :: 0 <= i < |slots| && Probed(home, idx, probes, |slots|, i) ==>
        !slots[i].Empty? && !IsFor(slots[i], key)
  }

  lemma ProbeStarts<V>(slots: seq<Slot<V>>, home: nat, key: u64)
    requires home < |slots|
    ensures Passed(slots, home, key, home, 0)
  {
    assert NoneMet(slots, home, key, home, 0);
  }

  lemma PassedOneMore<V>(slots: seq<Slot<V>>, home: nat, key: u64, idx: nat, probes: nat)
    requires Passed(slots, home, key, idx, probes) && probes < |slots|
    requires !slots[idx].Empty? && !IsFor(slots[idx], key)
    ensures Passed(slots, home, key, NextSlot(idx, |slots|), probes + 1)
  {
    assert Unsealed(true);
    forall i | 0 <= i < |slots| && Probed(home, NextSlot(idx, |slots|), probes + 1, |slots|, i)
      ensures Probed(home, idx, probes, |slots|, i) || i == idx
    {
    }
    assert NoneMet(slots, home, key, NextSlot(idx, |slots|), probes + 1);
  }

  /** An empty slot, or a full turn, shows that the key is absent. */
  lemma AbsentAt<V>(slots: seq<Slot<V>>, contents: map<u64, V>, at: map<u64, nat>, home: u64 -> nat,
                    key: u64, idx: nat, probes: nat)
    requires Holds(slots, contents, at, home) && Passed(slots, home(key), key, idx, probes)
    requires probes == |slots| || slots[idx].Empty?
    ensures key !in contents
  {
    assert Unsealed(true);
    if key in contents {
      assert IsFor(slots[at[key]], key);
      assert false;
    }
  }

  lemma NothingToErase<V>(contents: map<u64, V>, key: u64)
    requires key !in contents
    ensures contents == Removed(contents, key)
  {
  }

  lemma OccupyKeepsTable<V>(slots: seq<Slot<V>>, contents: map<u64, V>, at: map<u64, nat>, home: u64 -> nat,
                            key: u64, value: V, target: nat, idx: nat, probes: nat)
    requires Holds(slots, contents, at, home) && key !in contents
    requires Passed(slots, home(key), key, idx, probes) && probes < |slots|
    requires target < |slots| && !slots[target].Live?
    requires target == idx || Probed(home(key), idx, probes, |slots|, target)
    ensures Holds(slots[target := Live(key, value)], contents[key := value], at[key := target], home)
  {
    assert Unsealed(true);
    var after := slots[target := Live(key, value)];
    forall k, i | k in at[key := target] && 0 <= i < |after| && Before(home(k), at[key := target][k], i)
      ensures !after[i].Empty?
    {
    }
  }

  lemma BuryKeepsTable<V>(slots: seq<Slot<V>>, contents: map<u64, V>, at: map<u64, nat>, home: u64 -> nat, idx: nat)
    requires Holds(slots, contents, at, home) && idx < |slots| && slots[idx].Live?
    ensures slots[idx].key in contents
    ensures Holds(slots[idx := Tombstone], Removed(contents, slots[idx].key), Removed(at, slots[idx].key), home)
  {
    assert Unsealed(true);
    var key, after := slots[idx].key, slots[idx := Tombstone];
    forall k | k in Removed(at, key) ensures after[at[k]] == Live(k, contents[k]) {
      assert slots[at[k]].key == k;
    }
    forall i | 0 <= i < |after| && after[i].Live?
      ensures after[i].key in Removed(at, key) && at[after[i].key] == i
    {
      assert after[i] == slots[i];
    }
  }

  lemma RewriteKeepsTable<V>(slots: seq<Slot<V>>, contents: map<u64, V>, at: map<u64, nat>, home: u64 -> nat,
                             idx: nat, value: V)
    requires Holds(slots, contents, at, home) && idx < |slots| && slots[idx].Live?
    ensures var key := slots[idx].key;
            key in contents
            && Holds(slots[idx := Live(key, value)], contents[key := value], at, home)
            && |contents[key := value]| == |contents|
  {
    assert Unsealed(true);
    UpdateKeepsSize(contents, slots[idx].key, value);
  }

  lemma UpdateKeepsSize<V>(m: map<u64, V>, key: u64, value: V)
    requires key in m
    ensures |m[key := value]| == |m|
  {
    assert m[key := value].Keys == m.Keys;
    assert |m| == |m.Keys| && |m[key := value]| == |m[key := value].Keys|;
  }

  ghost predicate HasEmptySlot<V>(slots: seq<Slot<V>>) {
    exists i :: 0 <= i < |slots| && slots[i].Empty?
  }

  lemma FullTurnMeetsNoEmpty<V>(slots: seq<Slot<V>>, home: nat, key: u64, idx: nat)
    requires Passed(slots, home, key, idx, |slots|)
    ensures !HasEmptySlot(slots)
  {
    assert Unsealed(true);
  }

  /** Slots get filled and buried, but none gets empty. */
  ghost predicate NoneEmptied<V>(was: seq<Slot<V>>, now: seq<Slot<V>>) {
    |was| == |now| && forall i :: 0 <= i < |now| && now[i].Empty? ==> was[i].Empty?
  }

  lemma OneChangedNoneEmptied<V>(was: seq<Slot<V>>, i: nat, slot: Slot<V>)
    requires i < |was| && !slot.Empty?
    ensures NoneEmptied(was, was[i := slot])
  {
  }

  /** The home slot of an order in the table is not empty. */
  lemma HomeIsTaken<V>(slots: seq<Slot<V>>, contents: map<u64, V>, at: map<u64, nat>, home: u64 -> nat, key: u64)
    requires Holds(slots, contents, at, home) && key in contents && home(key) < |slots|
    ensures !slots[home(key)].Empty?
  {
    assert Unsealed(true);
    assert slots[at[key]].Live?;
    if at[key] != home(key) {
      assert Before(home(key), at[key], home(key));
    }
  }

  class OrderTable<V> {
    const slots: array<Slot<V>>
    const home: u64 -> nat
    var orderCount: nat
    var dropped: nat
    ghost var contents: map<u64, V>
    ghost var at: map<u64, nat>

    ghost predicate Valid()
      reads this, slots
    {
      Sound() == true
    }

    ghost predicate Sound()
      reads this, slots
    {
      && (forall key :: home(key) < slots.Length)
      && Holds(slots[..], contents, at, home)
      && orderCount == |contents| && orderCount <= slots.Length / 2 + 1
    }

    /** The table never gets further than one order over half full. */
    lemma CountIsSize()
      requires Valid()
      ensures orderCount == |contents| <= slots.Length / 2 + 1
    {
    }

    constructor (size: nat, mix: u64 -> nat)
      requires size > 0
      ensures Valid() && contents == map[] && dropped == 0 && slots.Length == size && fresh(slots)
      ensures forall key :: home(key) == mix(key) % size
      ensures forall i :: 0 <= i < size ==> slots[i].Empty?
    {
      slots := new Slot<V>[size](_ => Empty);
      home := key => mix(key) % size;
      orderCount, dropped := 0, 0;
      contents, at := map[], map[];
    }

    method FindOrder(key: u64) returns (found: Option<nat>)
      requires Valid()
      ensures found.Some? <==> key in contents
      ensures found.Some? ==> found.value < slots.Length && slots[found.value] == Live(key, contents[key])
    {
      var idx: nat, probes: nat := home(key), 0;
      ProbeStarts(slots[..], home(key), key);
      while probes < slots.Length
        invariant Passed(slots[..], home(key), key, idx, probes)
      {
        if slots[idx].Empty? {
          AbsentAt(slots[..], contents, at, home, key, idx, probes);
          return None;
        }
        if slots[idx].Live? && slots[idx].key == key {
          HitAt(slots[..], contents, at, home, key, idx);
          return Some(idx);
        }
        PassedOneMore(slots[..], home(key), key, idx, probes);
        idx := NextSlot(idx, slots.Length);
        probes := probes + 1;
      }
      AbsentAt(slots[..], contents, at, home, key, idx, probes);
      return None;
    }

    /** Writing through the pointer that FindOrder returned. */
    method Rewrite(idx: nat, value: V)
      requires Valid() && idx < slots.Length && slots[idx].Live?
      modifies slots, this`contents
      ensures Valid() && contents == old(contents)[old(slots[idx].key) := value]
      ensures NoneEmptied(old(slots[..]), slots[..])
    {
      RewriteKeepsTable(slots[..], contents, at, home, idx, value);
      contents := contents[slots[idx].key := value];
      slots[idx] := Live(slots[idx].key, value);
      assert slots[..] == old(slots[..])[idx := slots[idx]];
      OneChangedNoneEmptied(old(slots[..]), idx, slots[idx]);
    }

    /** Where an order with the key goes: its own slot, else the first tombstone met or the empty slot. */
    method FindPlace(key: u64) returns (place: Place, ghost idx: nat, ghost probes: nat)
      requires Valid()
      ensures place.Held? <==> key in contents
      ensures place.Held? ==> place.idx < slots.Length && IsFor(slots[place.idx], key)
      ensures place.NoRoom? <==> key !in contents && !HasEmptySlot(slots[..])
      ensures place.Room? ==>
        && place.idx < slots.Length && !slots[place.idx].Live?
        && probes < slots.Length && Passed(slots[..], home(key), key, idx, probes)
        && (place.idx == idx || Probed(home(key), idx, probes, slots.Length, place.idx))
    {
      var cur: nat, count: nat := home(key), 0;
      ProbeStarts(slots[..], home(key), key);
      var firstTombstone: nat := slots.Length;
      while count < slots.Length
        invariant Passed(slots[..], home(key), key, cur, count)
        invariant firstTombstone <= slots.Length
        invariant firstTombstone < slots.Length ==>
          slots[firstTombstone].Tombstone? && Probed(home(key), cur, count, slots.Length, firstTombstone)
      {
        if slots[cur].Live? && slots[cur].key == key {
          HitAt(slots[..], contents, at, home, key, cur);
          return Held(cur), cur, count;
        }
        if slots[cur].Tombstone? && firstTombstone == slots.Length {
          firstTombstone := cur;
        }
        if slots[cur].Empty? {
          assert slots[..][cur].Empty?;
          AbsentAt(slots[..], contents, at, home, key, cur, count);
          return Room(if firstTombstone == slots.Length then cur else firstTombstone), cur, count;
        }
        PassedOneMore(slots[..], home(key), key, cur, count);
        cur := NextSlot(cur, slots.Length);
        count := count + 1;
      }
      AbsentAt(slots[..], contents, at, home, key, cur, count);
      FullTurnMeetsNoEmpty(slots[..], home(key), key, cur);
      return NoRoom, cur, count;
    }

    /**
      Fails exactly when the table is more than half full, or when the key is new and no slot is
      empty, however many tombstones there are; a failure changes nothing but the drop counter.
     */
    method PutOrder(key: u64, value: V) returns (ok: bool)
      requires Valid()
      modifies this, slots
      ensures Valid()
      ensures ok <==> old(orderCount) <= slots.Length / 2 && (key in old(contents) || HasEmptySlot(old(slots[..])))
      ensures ok ==> contents == old(contents)[key := value] && dropped == old(dropped)
      ensures !ok ==> contents == old(contents) && slots[..] == old(slots[..]) && dropped == old(dropped) + 1
      ensures NoneEmptied(old(slots[..]), slots[..])
    {
      if orderCount > slots.Length / 2 {
        dropped := dropped + 1;
        return false;
      }
      var place, idx, probes := FindPlace(key);
      match place
      case Held(mine) =>
        Rewrite(mine, value);
        return true;
      case Room(target) =>
        assert HasEmptySlot(slots[..]);
        Occupy(key, value, target, idx, probes);
        return true;
      case NoRoom =>
        dropped := dropped + 1;
        return false;
    }

    /** The order goes into a slot that the probe met. */
    method Occupy(key: u64, value: V, target: nat, ghost idx: nat, ghost probes: nat)
      requires Valid() && key !in contents && orderCount <= slots.Length / 2
      requires Passed(slots[..], home(key), key, idx, probes) && probes < slots.Length
      requires target < slots.Length && !slots[target].Live?
      requires target == idx || Probed(home(key), idx, probes, slots.Length, target)
      modifies slots, this`orderCount, this`contents, this`at
      ensures Valid() && contents == old(contents)[key := value]
      ensures NoneEmptied(old(slots[..]), slots[..])
    {
      OccupyKeepsTable(slots[..], contents, at, home, key, value, target, idx, probes);
      slots[target] := Live(key, value);
      orderCount := orderCount + 1;
      contents := contents[key := value];
      at := at[key := target];
      assert slots[..] == old(slots[..])[target := slots[target]];
      OneChangedNoneEmptied(old(slots[..]), target, slots[target]);
    }

    /** Probes as FindOrder does. */
    method EraseOrder(key: u64)
      requires Valid()
      modifies slots, this`orderCount, this`contents, this`at
      ensures Valid() && contents == Removed(old(contents), key)
      ensures NoneEmptied(old(slots[..]), slots[..])
    {
      var found := FindOrder(key);
      match found
      case Some(idx) =>
        Bury(idx, key);
      case None =>
        NothingToErase(contents, key);
    }

    method Bury(idx: nat, ghost key: u64)
      requires Valid() && idx < slots.Length && IsFor(slots[idx], key)
      modifies slots, this`orderCount, this`contents, this`at
      ensures Valid() && contents == Removed(old(contents), key)
      ensures NoneEmptied(old(slots[..]), slots[..])
    {
      ghost var was := slots[..];
      BuryKeepsTable(was, contents, at, home, idx);
      RemovedIsSmaller(contents, key);
      slots[idx] := Tombstone;
      assert slots[..] == was[idx := Tombstone];
      OneChangedNoneEmptied(was, idx, Tombstone);
      if orderCount > 0 {
        orderCount := orderCount - 1;
      }
      contents := Removed(contents, key);
      at := Removed(at, key);
    }
  }

  // ---- Tables that no new order enters ----

  datatype TableOp<V> = Put(key: u64, value: V) | Erase(key: u64)

  /** A table without an empty slot stays so: whatever is put or erased, no new key ever enters it. */
  method RunSaturated<V>(table: OrderTable<V>, ops: seq<TableOp<V>>)
    requires table.Valid() && !HasEmptySlot(table.slots[..])
    modifies table, table.slots
    ensures table.Valid() && !HasEmptySlot(table.slots[..])
    ensures table.contents.Keys <= old(table.contents.Keys)
  {
    for n := 0 to |ops|
      invariant table.Valid() && !HasEmptySlot(table.slots[..])
      invariant table.contents.Keys <= old(table.contents.Keys)
    {
      match ops[n]
      case Put(key, value) =>
        var _ := table.PutOrder(key, value);
      case Erase(key) =>
        table.EraseOrder(key);
    }
  }

  /**
    The way there: one order for each home slot, put and erased again.  The table is empty, yet it
    refuses every key.
   */
  method Saturate<V>(size: nat, mix: u64 -> nat, keys: seq<u64>, value: V) returns (table: OrderTable<V>)
    requires size > 0 && |keys| == size && forall i :: 0 <= i < size ==> mix(keys[i]) % size == i
    ensures fresh(table) && fresh(table.slots) && table.slots.Length == size
    ensures table.Valid() && table.contents == map[] && !HasEmptySlot(table.slots[..])
  {
    table := new OrderTable(size, mix);
    for n := 0 to size
      invariant fresh(table) && fresh(table.slots) && table.slots.Length == size
      invariant forall key :: table.home(key) == mix(key) % size
      invariant table.Valid() && table.contents == map[]
      invariant forall i :: 0 <= i < n ==> !table.slots[i].Empty?
    {
      PutAndErase(table, keys[n], value);
    }
  }

  /** Nothing is left of the order but its slot, which is no longer empty. */
  method PutAndErase<V>(table: OrderTable<V>, key: u64, value: V)
    requires table.Valid() && table.contents == map[] && table.home(key) < table.slots.Length
    modifies table, table.slots
    ensures table.Valid() && table.contents == map[]
    ensures NoneEmptied(old(table.slots[..]), table.slots[..]) && !table.slots[table.home(key)].Empty?
  {
    var ok := table.PutOrder(key, value);
    if ok {
      HomeIsTaken(table.slots[..], table.contents, table.at, table.home, key);
    }
    table.EraseOrder(key);
  }
}
