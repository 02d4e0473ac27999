/**
 * The container the derive macro emits for a record with one field of each
 * index kind.
 *
 * The records live in a slab `_store` (here `store`, occupied slot to
 * record); each indexed field has a lookup table: `_field1_index` and
 * `_field3_index` map a value to the slot of the one record holding it,
 * `_field2_index` and `_field4_index` map a value to the set of slots of the
 * records holding it. `Valid` is the agreement every emitted method relies
 * on. The newest templates (multi_index_map_derive/src/generators.rs) and
 * the earlier ones (multi_index_map_derive/src/lib.rs) emit the same engine;
 * the earlier ones lack `update_by_*`.
 */
module MultiIndex {
  import opened Wrappers
  import opened Element
  import opened Order
  import opened Slab
  import opened Tables
  import opened Iterators

  class MultiIndexMap {
    /** `_store`: the occupied slots of the slab and their records. */
    var store: map<nat, Elem>
    /** `_field1_index` (hashed unique). */
    var index1: map<nat, nat>
    /** `_field2_index` (hashed non-unique). */
    var index2: map<nat, set<nat>>
    /** `_field3_index` (ordered unique). */
    var index3: map<nat, nat>
    /** `_field4_index` (ordered non-unique). */
    var index4: map<nat, set<nat>>
    /** The slab's capacity. */
    var capacity: nat

    function Tabs(): Indexes
      reads this
    {
      Indexes(index1, index2, index3, index4)
    }

    function UTable(f: UniqueField): map<nat, nat>
      reads this
    {
      UTab(Tabs(), f)
    }

    function NTable(f: NonUniqueField): map<nat, set<nat>>
      reads this
    {
      NTab(Tabs(), f)
    }

    /** Every table agrees with the store, and the slab holds no more than it has room for. */
    ghost predicate Valid()
      reads this
    {
      Agrees(store, Tabs()) && |store| <= capacity
    }

    /** `Default`: an empty store and empty tables. */
    constructor ()
      ensures Valid()
      ensures store == map[] && Tabs() == Indexes(map[], map[], map[], map[])
      ensures capacity == 0
    {
      store, capacity := map[], 0;
      index1, index2, index3, index4 := map[], map[], map[], map[];
    }

    /** `with_capacity(n)`: empty, with room for at least `n` records. */
    constructor WithCapacity(n: nat)
      ensures Valid()
      ensures store == map[] && Tabs() == Indexes(map[], map[], map[], map[])
      ensures capacity >= n
    {
      store, capacity := map[], n;
      index1, index2, index3, index4 := map[], map[], map[], map[];
    }

    /**
     * `capacity`: never below `len` on a valid container. The bound is part
     * of `Valid()`; it stands for the slab's own guarantee that its capacity
     * covers what it holds, which is assumed here, not derived from `capacity()`.
     */
    function Capacity(): (c: nat)
      reads this
      ensures Valid() ==> Len() <= c
    {
      capacity
    }

    /** `len`: the number of occupied slots; zero exactly when the container is empty. */
    function Len(): (n: nat)
      reads this
      ensures n == 0 <==> IsEmpty()
    {
      |store|
    }

    /** `is_empty`: the slab's. */
    function IsEmpty(): bool
      reads this
    {
      Slab.IsEmpty(store)
    }

    /** Under agreement the count is also the size of each unique table, and emptiness is that of every table. */
    lemma LenMatchesTables()
      requires Valid()
      ensures Len() == |index1| == |index3|
      ensures IsEmpty() <==> index1 == map[] && index2 == map[] && index3 == map[] && index4 == map[]
    {
      UniqueSize(store, index1, Field1);
      UniqueSize(store, index3, Field3);
      GroupEmptyIffStoreEmpty(store, index2, Field2);
      GroupEmptyIffStoreEmpty(store, index4, Field4);
    }

    /** `reserve(additional)`: room for `additional` more records; nothing stored changes. */
    method Reserve(additional: nat)
      modifies this
      ensures capacity >= old(capacity) && capacity >= |store| + additional
      ensures store == old(store) && Tabs() == old(Tabs())
      ensures old(Valid()) ==> Valid()
    {
      if capacity < |store| + additional {
        capacity := |store| + additional;
      }
    }

    /** `shrink_to_fit`: the capacity drops towards the count; nothing stored changes. */
    method ShrinkToFit()
      requires Valid()
      modifies this
      ensures |store| <= capacity <= old(capacity)
      ensures store == old(store) && Tabs() == old(Tabs())
      ensures Valid()
    {
      capacity := |store|;
    }

    /** `clear`: the store and every table emptied. */
    method Clear()
      modifies this
      ensures Valid()
      ensures store == map[] && Tabs() == Indexes(map[], map[], map[], map[])
      ensures capacity == old(capacity)
    {
      store := map[];
      index1, index2, index3, index4 := map[], map[], map[], map[];
    }

    /** `get_by_field1` / `get_by_field3`: the record holding `key`, found through the table. */
    function GetByUnique(f: UniqueField, key: nat): (r: Option<Elem>)
      reads this
      requires Valid()
      ensures r.Some? <==> exists s :: s in store && UKey(store[s], f) == key
      ensures r.Some? ==> UKey(r.value, f) == key && r.value in store.Values
    {
      AgreesUnique(store, Tabs(), f);
      UniqueLookup(store, UTable(f), f, key);
      if key in UTable(f) then Some(store[UTable(f)[key]]) else None
    }

    /**
     * `get_by_field2` / `get_by_field4`: the records of the key's slot set in
     * ascending slot order, which are exactly the records holding `key`.
     */
    function GetByGroup(f: NonUniqueField, key: nat): (r: seq<Elem>)
      reads this
      requires Valid()
      ensures r == Records(store, Sorted(MatchingSlots(store, f, key)))
    {
      AgreesGroup(store, Tabs(), f);
      GroupIsMatching(store, NTable(f), f, key);
      if key in NTable(f) then Records(store, Sorted(NTable(f)[key])) else []
    }

    /** `iter`: the slab's, over the records. */
    function Iter(): seq<(nat, Elem)>
      reads this
    {
      Slab.Iter(store)
    }

    /**
     * `insert`, as emitted: the record takes a vacant slot, then each table
     * in field order registers it. A unique table whose value was already
     * registered has by then overwritten that entry, and the method panics
     * (here `Err`) leaving the store and the earlier tables written.
     */
    method Insert(e: Elem) returns (slot: nat, r: Result<(), UniquenessError>)
      requires Valid()
      modifies this
      ensures slot !in old(store) && store == old(store)[slot := e]
      ensures |store| == |old(store)| + 1
      ensures capacity >= old(capacity) && capacity >= |store|
      ensures (Tabs(), if r.Ok? then None else Some(r.error)) == Registered(old(Tabs()), e, slot)
      ensures r.Ok? <==> Valid()
      ensures r == Err(UniquenessError(Field1)) <==> HeldElsewhere(old(store), Field1, e.field1, slot)
      ensures r == Err(UniquenessError(Field3)) <==>
        !HeldElsewhere(old(store), Field1, e.field1, slot) && HeldElsewhere(old(store), Field3, e.field3, slot)
    {
      VacantSlotExists(store);
      slot :| slot !in store;
      ghost var s0, t0 := store, Tabs();
      store := store[slot := e];
      if capacity < |store| {
        capacity := |store|;
      }
      var err := Register(slot, e);
      r := if err.None? then Ok(()) else Err(err.value);
      assert Registered(t0, e, slot) == (Tabs(), err);
      RegisteredKeeps(s0, t0, e, slot);
    }

    /** The inserts of `insert`: each table in field order registers `e` at `slot`. */
    method Register(slot: nat, e: Elem) returns (err: Option<UniquenessError>)
      modifies this
      ensures store == old(store) && capacity == old(capacity)
      ensures (Tabs(), err) == Registered(old(Tabs()), e, slot)
    {
      var clash := e.field1 in index1;
      index1 := index1[e.field1 := slot];
      if clash {
        return Some(UniquenessError(Field1));
      }
      index2 := GroupAdd(index2, e.field2, slot);
      clash := e.field3 in index3;
      index3 := index3[e.field3 := slot];
      if clash {
        return Some(UniquenessError(Field3));
      }
      index4 := GroupAdd(index4, e.field4, slot);
      return None;
    }

    /** A stored record is found through every table by its own values. */
    lemma StoredFound(s: nat, e: Elem)
      requires Valid() && s in store && store[s] == e
      ensures GetByUnique(Field1, e.field1) == Some(e) && GetByUnique(Field3, e.field3) == Some(e)
      ensures e in GetByGroup(Field2, e.field2) && e in GetByGroup(Field4, e.field4)
    {
      var occ2 := Sorted(MatchingSlots(store, Field2, e.field2));
      var occ4 := Sorted(MatchingSlots(store, Field4, e.field4));
      assert s in occ2 && s in occ4;
    }

    /**
     * An insert that checks every unique table before writing anything: a
     * clash leaves the container untouched, so agreement always survives.
     */
    method TryInsert(e: Elem) returns (r: Result<nat, UniquenessError>)
      requires Valid()
      modifies this
      ensures Valid()
      ensures r == Err(UniquenessError(Field1)) <==> (exists s :: s in old(store) && old(store)[s].field1 == e.field1)
      ensures r == Err(UniquenessError(Field3)) <==>
        (forall s :: s in old(store) ==> old(store)[s].field1 != e.field1) &&
        (exists s :: s in old(store) && old(store)[s].field3 == e.field3)
      ensures r.Err? ==> store == old(store) && Tabs() == old(Tabs()) && capacity == old(capacity)
      ensures r.Ok? ==> r.value !in old(store) && store == old(store)[r.value := e]
      ensures r.Ok? ==> Tabs() == Registered(old(Tabs()), e, r.value).0
    {
      UniqueLookup(store, index1, Field1, e.field1);
      UniqueLookup(store, index3, Field3, e.field3);
      if e.field1 in index1 {
        return Err(UniquenessError(Field1));
      }
      if e.field3 in index3 {
        return Err(UniquenessError(Field3));
      }
      var slot, _ := Insert(e);
      r := Ok(slot);
    }

    /**
     * The body of a remover's loop: `_store.remove(idx)` takes the record out
     * of its slot, then every table unregisters it.
     */
    method Vacate(idx: nat) returns (o: Elem)
      requires idx in store
      modifies this
      ensures o == old(store)[idx] && store == old(store) - {idx}
      ensures Tabs() == Unregistered(old(Tabs()), o, idx)
      ensures capacity == old(capacity)
    {
      o := store[idx];
      store := store - {idx};
      index1 := index1 - {o.field1};
      index2 := GroupRemove(index2, o.field2, idx);
      index3 := index3 - {o.field3};
      index4 := GroupRemove(index4, o.field4, idx);
    }

    /**
     * The loop of `remove_by_field2` / `remove_by_field4`: each slot of the
     * set `idxs`, in ascending order, is vacated and its record unregistered
     * and collected.
     */
    method VacateAll(idxs: set<nat>) returns (r: seq<Elem>)
      requires forall x :: x in idxs ==> x in store
      modifies this
      ensures store == old(store) - idxs
      ensures Tabs() == UnregisteredAll(old(Tabs()), old(store), Sorted(idxs))
      ensures r == Records(old(store), Sorted(idxs))
      ensures capacity == old(capacity)
    {
      ghost var s0, t0 := store, Tabs();
      var order := Sorted(idxs);
      SortedIncreasing(idxs);
      r := [];
      var i := 0;
      while i < |order|
        invariant i <= |order|
        invariant store == Vacated(s0, order[..i])
        invariant Tabs() == UnregisteredAll(t0, s0, order[..i])
        invariant r == Records(s0, order[..i])
        invariant capacity == old(capacity)
      {
        var idx := order[i];
        VacateAllStep(s0, t0, order, i);
        var o := Vacate(idx);
        r := r + [o];
        i := i + 1;
      }
      assert order[..i] == order;
      VacatedAll(s0, order, idxs);
    }

    /**
     * `remove_by_field1` / `remove_by_field3`: the key's entry is taken out of
     * its table, then the record leaves its slot and every table. The result
     * is what the getter would have returned, and afterwards the key is gone.
     */
    method RemoveByUnique(f: UniqueField, key: nat) returns (r: Option<Elem>)
      requires Valid()
      modifies this
      ensures Valid() && capacity == old(capacity)
      ensures r == old(GetByUnique(f, key))
      ensures r.None? ==> store == old(store) && Tabs() == old(Tabs())
      ensures r.Some? ==>
        key in old(UTable(f)) &&
        var s := old(UTable(f))[key];
        store == old(store) - {s} && Tabs() == Unregistered(old(Tabs()), r.value, s)
      ensures GetByUnique(f, key).None?
    {
      if key !in UTable(f) {
        return None;
      }
      RemovedUniqueOutcome(store, Tabs(), f, key);
      var o := TakeUnique(f, key);
      r := Some(o);
    }

    /**
     * The part of `remove_by_field1` / `remove_by_field3` after the lookup:
     * the key leaves its table, then its slot leaves the store and every
     * table.
     */
    method TakeUnique(f: UniqueField, key: nat) returns (o: Elem)
      requires key in UTable(f) && UTable(f)[key] in store
      modifies this
      ensures o == old(store)[old(UTable(f))[key]]
      ensures store == old(store) - {old(UTable(f))[key]}
      ensures Tabs() == Unregistered(DropUnique(old(Tabs()), f, key), o, old(UTable(f))[key])
      ensures capacity == old(capacity)
    {
      var idx := UTable(f)[key];
      var t1 := DropUnique(Tabs(), f, key);
      index1, index3 := t1.index1, t1.index3;
      o := Vacate(idx);
    }

    /**
     * The part of `remove_by_field2` / `remove_by_field4` after the lookup:
     * the key's whole set is taken out of its table, then each of its slots,
     * in ascending order, leaves the store and every table.
     */
    method TakeGroup(f: NonUniqueField, key: nat) returns (r: seq<Elem>)
      requires key in NTable(f) && forall x :: x in NTable(f)[key] ==> x in store
      modifies this
      ensures store == old(store) - old(NTable(f)[key])
      ensures Tabs() == UnregisteredAll(DropKey(old(Tabs()), f, key), old(store), Sorted(old(NTable(f)[key])))
      ensures r == Records(old(store), Sorted(old(NTable(f)[key])))
      ensures capacity == old(capacity)
    {
      var idxs := NTable(f)[key];
      var t1 := DropKey(Tabs(), f, key);
      index2, index4 := t1.index2, t1.index4;
      r := VacateAll(idxs);
    }

    /**
     * `remove_by_field2` / `remove_by_field4`: the records of the key's slot
     * set leave the store and every table. The result is what the getter
     * would have returned; afterwards no record holds the key.
     */
    method RemoveByGroup(f: NonUniqueField, key: nat) returns (r: seq<Elem>)
      requires Valid()
      modifies this
      ensures Valid() && capacity == old(capacity)
      ensures r == old(GetByGroup(f, key))
      ensures store == old(store) - old(MatchingSlots(store, f, key))
      ensures |store| == |old(store)| - |r|
      ensures key !in NTable(f)
    {
      if key !in NTable(f) {
        AbsentGroup(store, Tabs(), f, key);
        return [];
      }
      r := RemoveGroup(f, key);
    }

    /** A non-unique remover whose key is present. */
    method RemoveGroup(f: NonUniqueField, key: nat) returns (r: seq<Elem>)
      requires Valid() && key in NTable(f)
      modifies this
      ensures Valid() && capacity == old(capacity)
      ensures r == Records(old(store), Sorted(old(MatchingSlots(store, f, key))))
      ensures store == old(store) - old(MatchingSlots(store, f, key))
      ensures |store| == |old(store)| - |r|
      ensures key !in NTable(f)
    {
      RemovedGroupOutcome(store, Tabs(), f, key);
      r := TakeGroup(f, key);
    }

    /**
     * The post-modify steps for slot `s` after its record changed from `o`
     * to `n`, field by field in declaration order: a unique table moves the
     * slot from the old value to the new one, a non-unique table moves it
     * between the two values' sets; unchanged fields are left alone. A new
     * unique value already present stops the steps (the emitted code
     * panics) after its own table has been written.
     */
    method PostModify(s: nat, o: Elem, n: Elem) returns (err: Option<UniquenessError>)
      modifies this
      ensures store == old(store) && capacity == old(capacity)
      ensures (Tabs(), err) == Rekeyed(old(Tabs()), o, n, s)
    {
      if o.field1 != n.field1 {
        var clash := n.field1 in index1;
        index1 := (index1 - {o.field1})[n.field1 := s];
        if clash {
          return Some(UniquenessError(Field1));
        }
      }
      if o.field2 != n.field2 {
        index2 := GroupAdd(GroupRemove(index2, o.field2, s), n.field2, s);
      }
      if o.field3 != n.field3 {
        var clash := n.field3 in index3;
        index3 := (index3 - {o.field3})[n.field3 := s];
        if clash {
          return Some(UniquenessError(Field3));
        }
      }
      if o.field4 != n.field4 {
        index4 := GroupAdd(GroupRemove(index4, o.field4, s), n.field4, s);
      }
      return None;
    }

    /** The closure `g` applied to the record in slot `s` in place, then the post-modify steps. */
    method ModifySlot(s: nat, g: Elem -> Elem) returns (n: Elem, err: Option<UniquenessError>)
      requires s in store
      modifies this
      ensures n == g(old(store)[s])
      ensures (store, Tabs(), err) == ModifiedOne((old(store), old(Tabs()), None), s, g)
      ensures capacity == old(capacity)
    {
      var o := store[s];
      n := g(o);
      SetRecord(s, n);
      err := PostModify(s, o, n);
    }

    /**
     * `modify_by_field1` / `modify_by_field3`: the record holding `key` is
     * changed by the closure `g` in place and re-keyed. Without a record
     * holding `key` nothing happens. A changed unique value that another
     * record already holds is a uniqueness violation (the emitted code
     * panics; here `Err`), after which no tables can agree with the store.
     */
    method ModifyByUnique(f: UniqueField, key: nat, g: Elem -> Elem) returns (r: Result<Option<Elem>, UniquenessError>)
      requires Valid()
      modifies this
      ensures capacity == old(capacity)
      ensures r.Ok? <==> Valid()
      ensures r.Err? ==> !Indexable(store)
      ensures key !in old(UTable(f)) ==> r == Ok(None) && store == old(store) && Tabs() == old(Tabs())
      ensures key in old(UTable(f)) ==>
        var s := old(UTable(f))[key];
        var n := g(old(store)[s]);
        && old(GetByUnique(f, key)) == Some(old(store)[s])
        && (store, Tabs(), if r.Ok? then None else Some(r.error)) == ModifiedOne((old(store), old(Tabs()), None), s, g)
        && (r.Ok? ==> r.value == Some(n) && store == old(store)[s := n])
        && (r == Err(UniquenessError(Field1)) <==> HeldElsewhere(old(store), Field1, n.field1, s))
        && (r == Err(UniquenessError(Field3)) <==>
              !HeldElsewhere(old(store), Field1, n.field1, s) && HeldElsewhere(old(store), Field3, n.field3, s))
    {
      if key !in UTable(f) {
        return Ok(None);
      }
      ghost var s0, t0 := store, Tabs();
      var idx := UTable(f)[key];
      assert idx in store && GetByUnique(f, key) == Some(store[idx]) by {
        AgreesUnique(s0, t0, f);
      }
      var n, err := ModifySlot(idx, g);
      r := if err.None? then Ok(Some(n)) else Err(err.value);
      RekeyedKeeps(s0, t0, idx, n);
    }

    /**
     * The loop of `modify_by_field2` / `modify_by_field4`: each slot of
     * `slots` in turn is modified and re-keyed, and its new record collected;
     * a uniqueness violation ends the loop.
     */
    method ModifyAll(slots: seq<nat>, g: Elem -> Elem) returns (r: Result<seq<Elem>, UniquenessError>)
      requires Distinct(slots) && forall x :: x in slots ==> x in store
      modifies this
      ensures (store, Tabs(), if r.Ok? then None else Some(r.error)) == ModifiedAll(old(store), old(Tabs()), slots, g)
      ensures r.Ok? ==> r.value == Records(store, slots)
      ensures capacity == old(capacity)
    {
      ghost var s0, t0 := store, Tabs();
      var refs := [];
      var i := 0;
      while i < |slots|
        invariant i <= |slots|
        invariant (store, Tabs(), None) == ModifiedAll(s0, t0, slots[..i], g)
        invariant refs == Records(store, slots[..i])
        invariant capacity == old(capacity)
      {
        var s := slots[i];
        ModifyAllStep(s0, t0, slots, i, g);
        RecordsReplaced(store, slots[..i], s, g(store[s]));
        var n, err := ModifySlot(s, g);
        if err.Some? {
          ModifiedAllStops(s0, t0, slots, i + 1, g);
          return Err(err.value);
        }
        refs := refs + [n];
        i := i + 1;
      }
      assert slots[..i] == slots;
      r := Ok(refs);
    }

    /**
     * The traversal the non-unique modifiers and updaters make: the key's
     * slot set, in ascending order, reached one by one through the slab's
     * iterator. The slots reached are exactly those holding `key`.
     */
    method ReachGroup(f: NonUniqueField, key: nat) returns (visited: seq<nat>)
      requires Valid()
      ensures visited == Sorted(MatchingSlots(store, f, key))
      ensures Distinct(visited) && forall x :: x in visited ==> x in store
    {
      var idxs := if key in NTable(f) then NTable(f)[key] else {};
      assert idxs == MatchingSlots(store, f, key) && forall x :: x in idxs ==> x in store by {
        AgreesGroup(store, Tabs(), f);
        GroupIsMatching(store, NTable(f), f, key);
      }
      var order := Sorted(idxs);
      SortedEnumerates(idxs);
      SortedIncreasing(idxs);
      visited := KeyedTraversal(Occupied(store), order);
    }

    /**
     * `modify_by_field2` / `modify_by_field4`: the records holding `key` are
     * changed by the closure `g` in place, in ascending slot order, and
     * re-keyed; the result is the changed records in that order. A
     * uniqueness violation ends the loop (the emitted code panics; here
     * `Err`), after which no tables can agree with the store.
     */
    method ModifyByGroup(f: NonUniqueField, key: nat, g: Elem -> Elem) returns (r: Result<seq<Elem>, UniquenessError>)
      requires Valid()
      modifies this
      ensures capacity == old(capacity)
      ensures (store, Tabs(), if r.Ok? then None else Some(r.error))
        == ModifiedAll(old(store), old(Tabs()), Sorted(old(MatchingSlots(store, f, key))), g)
      ensures r.Ok? <==> Valid()
      ensures r.Err? ==> !Indexable(store)
      ensures r.Ok? ==> r.value == Records(store, Sorted(old(MatchingSlots(store, f, key))))
      ensures r.Ok? ==> forall x :: x in old(store) ==>
        x in store && store[x] == if x in old(MatchingSlots(store, f, key)) then g(old(store)[x]) else old(store)[x]
    {
      ghost var s0, t0 := store, Tabs();
      var visited := ReachGroup(f, key);
      r := ModifyAll(visited, g);
      ModifiedGroupOutcome(s0, t0, f, key, g, store, Tabs(), if r.Ok? then None else Some(r.error));
      if r.Ok? {
        ModifiedGroupContents(s0, t0, f, key, g, store, Tabs());
      }
    }

    /**
     * `update_by_field1` / `update_by_field3`: the closure `u` changes the
     * unindexed payload of the record holding `key`, which the getter then
     * returns; no table changes. Without a record holding `key` nothing
     * happens.
     */
    method UpdateByUnique(f: UniqueField, key: nat, u: int -> int) returns (r: Option<Elem>)
      requires Valid()
      modifies this
      ensures Valid() && Tabs() == old(Tabs()) && capacity == old(capacity)
      ensures r.None? <==> old(GetByUnique(f, key)).None?
      ensures r.None? ==> store == old(store)
      ensures r.Some? ==>
        key in old(UTable(f)) &&
        var s := old(UTable(f))[key];
        s in old(store) && store == old(store)[s := WithPayload(old(store)[s], u(old(store)[s].payload))]
      ensures r == GetByUnique(f, key)
    {
      if key !in UTable(f) {
        assert GetByUnique(f, key).None?;
        return None;
      }
      ghost var s0, t0 := store, Tabs();
      var idx := UTable(f)[key];
      PayloadFound(s0, t0, f, key, idx, u);
      var e := store[idx];
      var n := WithPayload(e, u(e.payload));
      SetRecord(idx, n);
      r := Some(n);
    }

    /** The record in slot `s` overwritten in place; the tables are not touched. */
    method SetRecord(s: nat, n: Elem)
      modifies this
      ensures store == old(store)[s := n]
      ensures Tabs() == old(Tabs()) && capacity == old(capacity)
    {
      store := store[s := n];
    }

    /**
     * The loop of `update_by_field2` / `update_by_field4`: the closure `u`
     * changes the payload of each record in `slots` in turn, and the changed
     * records are collected.
     */
    method UpdateAll(slots: seq<nat>, ghost idxs: set<nat>, u: int -> int) returns (refs: seq<Elem>)
      requires Distinct(slots) && (forall x :: x in slots <==> x in idxs) && forall x :: x in slots ==> x in store
      modifies this
      ensures store == PayloadsUpdated(old(store), idxs, u)
      ensures refs == Records(store, slots)
      ensures Tabs() == old(Tabs()) && capacity == old(capacity)
    {
      ghost var s0 := store;
      refs := [];
      var i := 0;
      while i < |slots|
        invariant i <= |slots| && store.Keys == s0.Keys
        invariant forall x :: x in store ==>
          store[x] == if x in slots[..i] then WithPayload(s0[x], u(s0[x].payload)) else s0[x]
        invariant refs == Records(store, slots[..i])
        invariant Tabs() == old(Tabs()) && capacity == old(capacity)
      {
        var s := slots[i];
        DistinctStep(slots, i);
        var e := store[s];
        var n := WithPayload(e, u(e.payload));
        RecordsReplaced(store, slots[..i], s, n);
        SetRecord(s, n);
        refs := refs + [n];
        i := i + 1;
      }
      assert slots[..i] == slots;
    }

    /**
     * `update_by_field2` / `update_by_field4`: the closure `u` changes the
     * unindexed payload of every record holding `key`, in ascending slot
     * order; no table changes, and the result is what the getter then
     * returns.
     */
    method UpdateByGroup(f: NonUniqueField, key: nat, u: int -> int) returns (r: seq<Elem>)
      requires Valid()
      modifies this
      ensures Valid() && Tabs() == old(Tabs()) && capacity == old(capacity)
      ensures store == PayloadsUpdated(old(store), old(MatchingSlots(store, f, key)), u)
      ensures r == GetByGroup(f, key)
    {
      ghost var s0, t0 := store, Tabs();
      ghost var m := MatchingSlots(s0, f, key);
      var visited := ReachGroup(f, key);
      r := UpdateAll(visited, m, u);
      PayloadsUpdatedKeeps(s0, t0, m, u);
      assert MatchingSlots(store, f, key) == m;
    }

    /**
     * `iter_by_field1` / `iter_by_field3`: an iterator over the field's
     * table, borrowing the store. The ordered table yields its keys in
     * ascending order; the hashed one in the hash map's own order, which is
     * outside this model and given as `hashOrder`. Either way each record
     * is yielded exactly once.
     */
    method IterByUnique(f: UniqueField, hashOrder: seq<nat>) returns (it: UniqueIter)
      requires Valid()
      requires UniqueOrdering(f) == Hashed ==> Enumerates(hashOrder, UTable(f).Keys)
      ensures fresh(it) && it.Valid() && it.front == 0 && it.back == 0
      ensures it.store == store && it.table == UTable(f) && it.ordering == UniqueOrdering(f)
      ensures |it.Forward()| == |store|
      ensures forall s :: s in store ==> store[s] in it.Forward()
      ensures UniqueOrdering(f) == Ordered ==>
        forall i, j :: 0 <= i < j < |it.Forward()| ==> UKey(it.Forward()[i], f) < UKey(it.Forward()[j], f)
    {
      var table := UTable(f);
      var keys := if UniqueOrdering(f) == Ordered then Sorted(table.Keys) else hashOrder;
      SortedEnumerates(table.Keys);
      if UniqueOrdering(f) == Ordered {
        SortedIncreasing(table.Keys);
      }
      AgreesUnique(store, Tabs(), f);
      it := NewUniqueIter(store, table, f, keys, UniqueOrdering(f));
    }

    /**
     * `iter_by_field2` / `iter_by_field4`: an iterator over the field's
     * table, each key's slot set yielded in ascending slot order. The
     * ordered table yields its keys in ascending order, so the records come
     * out in ascending order of the field; the hashed one in the hash map's
     * own order, given as `hashOrder`. The walk lists every occupied slot
     * exactly once, so every stored record is yielded once.
     */
    method IterByGroup(f: NonUniqueField, hashOrder: seq<nat>) returns (it: GroupIter)
      requires Valid()
      requires NonUniqueOrdering(f) == Hashed ==> Enumerates(hashOrder, NTable(f).Keys)
      ensures fresh(it) && it.Valid() && it.front == 0 && it.back == 0 && it.inner == []
      ensures it.store == store && it.ordering == NonUniqueOrdering(f)
      ensures it.groups == SlotLists(NTable(f))
      ensures it.keys == if NonUniqueOrdering(f) == Ordered then Sorted(NTable(f).Keys) else hashOrder
      ensures it.ForwardSlots() == Flatten(SlotLists(NTable(f)), it.keys)
      ensures Enumerates(it.ForwardSlots(), store.Keys) && |it.Forward()| == |store|
      ensures forall s :: s in store ==> store[s] in it.Forward()
      ensures forall e :: e in it.Forward() ==> e in store.Values
      ensures NonUniqueOrdering(f) == Ordered ==>
        forall i, j :: 0 <= i < j < |it.Forward()| ==> NKey(it.Forward()[i], f) <= NKey(it.Forward()[j], f)
    {
      var table := NTable(f);
      var keys := if NonUniqueOrdering(f) == Ordered then Sorted(table.Keys) else hashOrder;
      SortedEnumerates(table.Keys);
      if NonUniqueOrdering(f) == Ordered {
        SortedIncreasing(table.Keys);
      }
      AgreesGroup(store, Tabs(), f);
      it := NewGroupIter(store, table, f, keys, NonUniqueOrdering(f));
    }
  }

  /** A fresh iterator over a unique table that agrees with the store, walking the given keys. */
  method NewUniqueIter(store: map<nat, Elem>, table: map<nat, nat>, f: UniqueField, keys: seq<nat>, ordering: Ordering)
    returns (it: UniqueIter)
    requires UniqueIndexed(store, table, f) && Enumerates(keys, table.Keys)
    requires ordering == Ordered ==> keys == Sorted(table.Keys)
    ensures fresh(it) && it.Valid() && it.front == 0 && it.back == 0
    ensures it.store == store && it.table == table && it.ordering == ordering
    ensures |it.Forward()| == |store|
    ensures forall s :: s in store ==> store[s] in it.Forward()
    ensures Increasing(keys) ==>
      forall i, j :: 0 <= i < j < |it.Forward()| ==> UKey(it.Forward()[i], f) < UKey(it.Forward()[j], f)
  {
    UniqueWalk(store, table, f, keys);
    it := new UniqueIter(store, table, keys, ordering);
    assert keys[0..] == keys;
  }

  /** A fresh iterator over a non-unique table that agrees with the store, walking the given keys. */
  method NewGroupIter(store: map<nat, Elem>, t: map<nat, set<nat>>, f: NonUniqueField, keys: seq<nat>, ordering: Ordering)
    returns (it: GroupIter)
    requires GroupIndexed(store, t, f) && Enumerates(keys, t.Keys)
    ensures fresh(it) && it.Valid() && it.front == 0 && it.back == 0 && it.inner == []
    ensures it.store == store && it.groups == SlotLists(t) && it.keys == keys && it.ordering == ordering
    ensures it.ForwardSlots() == Flatten(SlotLists(t), keys)
    ensures Enumerates(it.ForwardSlots(), store.Keys) && |it.Forward()| == |store|
    ensures forall s :: s in store ==> store[s] in it.Forward()
    ensures forall e :: e in it.Forward() ==> e in store.Values
    ensures Increasing(keys) ==>
      forall i, j :: 0 <= i < j < |it.Forward()| ==> NKey(it.Forward()[i], f) <= NKey(it.Forward()[j], f)
  {
    GroupTableWalk(store, t, f, keys);
    GroupTableOnce(store, t, f, keys);
    it := new GroupIter(store, SlotLists(t), keys, ordering);
    FreshGroupIterWalks(it);
  }

  /**
   * What a unique remover leaves: the key's slot out of the store and out of
   * every table, the tables still agreeing and no longer holding the key.
   */
  lemma RemovedUniqueOutcome(store: map<nat, Elem>, t: Indexes, f: UniqueField, k: nat)
    requires Agrees(store, t) && k in UTab(t, f)
    ensures UTab(t, f)[k] in store && UKey(store[UTab(t, f)[k]], f) == k
    ensures Unregistered(DropUnique(t, f, k), store[UTab(t, f)[k]], UTab(t, f)[k]) == Unregistered(t, store[UTab(t, f)[k]], UTab(t, f)[k])
    ensures Agrees(store - {UTab(t, f)[k]}, Unregistered(t, store[UTab(t, f)[k]], UTab(t, f)[k]))
    ensures k !in UTab(Unregistered(t, store[UTab(t, f)[k]], UTab(t, f)[k]), f)
  {
    var s := UTab(t, f)[k];
    AgreesUnique(store, t, f);
    DropUniqueUnregistered(t, f, store[s], s);
    UnregisteredKeeps(store, t, s);
  }

  /** A key absent from an agreeing non-unique table matches no record, so removing its records changes nothing. */
  lemma AbsentGroup(store: map<nat, Elem>, t: Indexes, f: NonUniqueField, k: nat)
    requires Agrees(store, t) && k !in NTab(t, f)
    ensures MatchingSlots(store, f, k) == {}
    ensures store - MatchingSlots(store, f, k) == store
    ensures Records(store, Sorted(MatchingSlots(store, f, k))) == []
  {
    AgreesGroup(store, t, f);
    GroupIsMatching(store, NTab(t, f), f, k);
  }

  /** What a non-unique remover leaves: agreeing tables without the key, and the store without the key's records. */
  lemma RemovedGroupOutcome(store: map<nat, Elem>, t: Indexes, f: NonUniqueField, k: nat)
    requires Agrees(store, t) && k in NTab(t, f)
    ensures forall x :: x in NTab(t, f)[k] ==> x in store
    ensures Agrees(store - NTab(t, f)[k], UnregisteredAll(DropKey(t, f, k), store, Sorted(NTab(t, f)[k])))
    ensures k !in NTab(UnregisteredAll(DropKey(t, f, k), store, Sorted(NTab(t, f)[k])), f)
    ensures NTab(t, f)[k] == MatchingSlots(store, f, k)
    ensures |store - NTab(t, f)[k]| == |store| - |Records(store, Sorted(NTab(t, f)[k]))|
  {
    RemovedGroupSlots(store, t, f, k);
    RemovedGroupKeeps(store, t, f, k, store - NTab(t, f)[k], UnregisteredAll(DropKey(t, f, k), store, Sorted(NTab(t, f)[k])));
  }

  /** One more round of a non-unique remover's loop, on the store, the tables and the collected records. */
  lemma VacateAllStep(store: map<nat, Elem>, t: Indexes, order: seq<nat>, i: nat)
    requires Increasing(order) && (forall x :: x in order ==> x in store) && i < |order|
    ensures order[i] in Vacated(store, order[..i]) && Vacated(store, order[..i])[order[i]] == store[order[i]]
    ensures Vacated(store, order[..i + 1]) == Vacated(store, order[..i]) - {order[i]}
    ensures UnregisteredAll(t, store, order[..i + 1]) == Unregistered(UnregisteredAll(t, store, order[..i]), store[order[i]], order[i])
    ensures Records(store, order[..i + 1]) == Records(store, order[..i]) + [store[order[i]]]
  {
    assert order[..i + 1][..i] == order[..i];
    assert order[i] !in order[..i] by {
      assert forall j :: 0 <= j < i ==> order[j] < order[i];
    }
    assert order[..i + 1] == order[..i] + [order[i]];
    RecordsSnoc(store, order[..i], order[i]);
  }

  /** One more round of a modifier's loop, on the slots it has reached. */
  lemma ModifyAllStep(store: map<nat, Elem>, t: Indexes, slots: seq<nat>, i: nat, g: Elem -> Elem)
    requires Distinct(slots) && (forall x :: x in slots ==> x in store) && i < |slots|
    ensures slots[i] !in slots[..i] && slots[..i + 1] == slots[..i] + [slots[i]]
    ensures ModifiedAll(store, t, slots[..i + 1], g) == ModifiedOne(ModifiedAll(store, t, slots[..i], g), slots[i], g)
  {
    DistinctStep(slots, i);
    assert slots[..i + 1][..i] == slots[..i];
  }

  /** What a non-unique modifier leaves behind, read off its loop: agreement or a store no tables fit. */
  lemma ModifiedGroupOutcome(store: map<nat, Elem>, t: Indexes, f: NonUniqueField, key: nat, g: Elem -> Elem,
                             store': map<nat, Elem>, t': Indexes, err: Option<UniquenessError>)
    requires Agrees(store, t)
    requires var r := ModifiedAll(store, t, Sorted(MatchingSlots(store, f, key)), g);
      store' == r.0 && t' == r.1 && err == r.2
    ensures |store'| == |store|
    ensures err.None? ==> Agrees(store', t')
    ensures err.Some? ==> !Indexable(store')
  {
    var slots := Sorted(MatchingSlots(store, f, key));
    var r := ModifiedAll(store, t, slots, g);
    assert store' == r.0 && t' == r.1 && err == r.2;
    ModifiedAllKeeps(store, t, slots, g);
    assert store'.Keys == store.Keys;
  }

  /** The records a non-unique modifier leaves behind when no violation ends its loop. */
  lemma ModifiedGroupContents(store: map<nat, Elem>, t: Indexes, f: NonUniqueField, key: nat, g: Elem -> Elem,
                              store': map<nat, Elem>, t': Indexes)
    requires var r := ModifiedAll(store, t, Sorted(MatchingSlots(store, f, key)), g);
      store' == r.0 && t' == r.1 && r.2.None?
    ensures forall x :: x in store ==>
      x in store' && store'[x] == if x in MatchingSlots(store, f, key) then g(store[x]) else store[x]
  {
    var m := MatchingSlots(store, f, key);
    var order := Sorted(m);
    SortedEnumerates(m);
    ModifiedAllContents(store, t, order, g);
    forall x | x in store
      ensures x in store' && store'[x] == if x in m then g(store[x]) else store[x]
    {
      assert x in m <==> x in order;
    }
  }

  /** The record a unique key leads to, with its payload changed, is still found through every table. */
  lemma PayloadFound(store: map<nat, Elem>, t: Indexes, f: UniqueField, key: nat, s: nat, u: int -> int)
    requires Agrees(store, t) && key in UTab(t, f) && s == UTab(t, f)[key]
    ensures s in store && UKey(store[s], f) == key
    ensures var store' := store[s := WithPayload(store[s], u(store[s].payload))];
      Agrees(store', t) && |store'| == |store|
  {
    AgreesUnique(store, t, f);
    PayloadKeepsAll(store, t, s, u(store[s].payload));
  }

  /** Each key's slot set as its `BTreeSet` yields it: ascending. */
  function SlotLists(t: map<nat, set<nat>>): (r: map<nat, seq<nat>>)
    ensures r.Keys == t.Keys
  {
    map k | k in t :: Sorted(t[k])
  }

  /**
   * Walking a unique table that agrees with the store, key by key, meets
   * each record exactly once, the i-th under the i-th key.
   */
  lemma UniqueWalk(store: map<nat, Elem>, table: map<nat, nat>, f: UniqueField, keys: seq<nat>)
    requires UniqueIndexed(store, table, f) && Enumerates(keys, table.Keys)
    ensures forall k :: k in keys ==> k in table && table[k] in store
    ensures |KeyedRecords(store, table, keys)| == |store|
    ensures forall i :: 0 <= i < |keys| ==> UKey(KeyedRecords(store, table, keys)[i], f) == keys[i]
    ensures forall s :: s in store ==> store[s] in KeyedRecords(store, table, keys)
  {
    EnumeratesSize(keys, table.Keys);
    UniqueSize(store, table, f);
    var r := KeyedRecords(store, table, keys);
    forall s | s in store
      ensures store[s] in r
    {
      var k := UKey(store[s], f);
      assert k in table.Keys;
      var i :| 0 <= i < |keys| && keys[i] == k;
      assert r[i] == store[s];
    }
  }

  /**
   * Under agreement, each key's slot list is non-empty and holds exactly the
   * slots whose record has that key.
   */
  lemma SlotListsIndexed(store: map<nat, Elem>, t: map<nat, set<nat>>, f: NonUniqueField)
    requires GroupIndexed(store, t, f)
    ensures forall k :: k in SlotLists(t) ==> SlotLists(t)[k] != []
    ensures forall k :: k in SlotLists(t) ==> forall x :: x in SlotLists(t)[k] ==> x in store && NKey(store[x], f) == k
    ensures forall s :: s in store ==> NKey(store[s], f) in SlotLists(t) && s in SlotLists(t)[NKey(store[s], f)]
    ensures GroupsIn(SlotLists(t), store)
  {
    SlotListsHold(t);
    ListsIndexed(store, t, SlotLists(t), f);
  }

  /** Lists holding exactly the slots of an agreeing table's sets are non-empty and hold only their key's records. */
  lemma ListsIndexed(store: map<nat, Elem>, t: map<nat, set<nat>>, groups: map<nat, seq<nat>>, f: NonUniqueField)
    requires GroupIndexed(store, t, f)
    requires groups.Keys == t.Keys && forall k, x :: k in groups ==> (x in groups[k] <==> x in t[k])
    ensures forall k :: k in groups ==> groups[k] != []
    ensures forall k :: k in groups ==> forall x :: x in groups[k] ==> x in store && NKey(store[x], f) == k
    ensures forall s :: s in store ==> NKey(store[s], f) in groups && s in groups[NKey(store[s], f)]
    ensures GroupsIn(groups, store)
  {
    forall k | k in groups
      ensures groups[k] != []
    {
      var x :| x in t[k];
      assert x in groups[k];
    }
  }

  /** Each key's slot list holds exactly the slots of its set. */
  lemma SlotListsHold(t: map<nat, set<nat>>)
    ensures forall k, x :: k in SlotLists(t) ==> (x in SlotLists(t)[k] <==> x in t[k])
  {
  }

  /**
   * Walking every key of a non-unique table that agrees with the store
   * lists every occupied slot exactly once, so it yields as many records as
   * the store holds.
   */
  lemma GroupTableOnce(store: map<nat, Elem>, t: map<nat, set<nat>>, f: NonUniqueField, keys: seq<nat>)
    requires GroupIndexed(store, t, f) && Enumerates(keys, t.Keys)
    ensures forall k :: k in keys ==> k in SlotLists(t)
    ensures Enumerates(Flatten(SlotLists(t), keys), store.Keys)
    ensures |Records(store, Flatten(SlotLists(t), keys))| == |store|
  {
    var groups := SlotLists(t);
    SlotListsIndexed(store, t, f);
    forall k | k in groups
      ensures Distinct(groups[k])
    {
      SortedEnumerates(t[k]);
    }
    FlattenDistinct(groups, keys);
    FlattenIn(groups, keys, store);
    FlattenCovers(groups, keys);
    var w := Flatten(groups, keys);
    assert forall s :: s in store.Keys ==> s in w by {
      forall s | s in store.Keys
        ensures s in w
      {
        assert NKey(store[s], f) in keys && s in groups[NKey(store[s], f)];
      }
    }
    EnumeratesSize(w, store.Keys);
  }

  /**
   * Walking a non-unique table that agrees with the store, key by key and
   * each key's slots in ascending order, meets every stored record and only
   * stored records; over ascending keys, in ascending order of the field.
   */
  lemma GroupTableWalk(store: map<nat, Elem>, t: map<nat, set<nat>>, f: NonUniqueField, keys: seq<nat>)
    requires GroupIndexed(store, t, f) && Enumerates(keys, t.Keys)
    ensures Enumerates(keys, SlotLists(t).Keys) && GroupsIn(SlotLists(t), store)
    ensures forall k :: k in SlotLists(t) ==> SlotLists(t)[k] != []
    ensures forall x :: x in Flatten(SlotLists(t), keys) ==> x in store
    ensures forall s :: s in store ==> store[s] in Records(store, Flatten(SlotLists(t), keys))
    ensures forall e :: e in Records(store, Flatten(SlotLists(t), keys)) ==> e in store.Values
    ensures Increasing(keys) ==> forall i, j :: 0 <= i < j < |Records(store, Flatten(SlotLists(t), keys))| ==>
      NKey(Records(store, Flatten(SlotLists(t), keys))[i], f) <= NKey(Records(store, Flatten(SlotLists(t), keys))[j], f)
  {
    SlotListsIndexed(store, t, f);
    GroupWalk(store, SlotLists(t), keys, f);
  }
}
