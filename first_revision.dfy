/**
 * The container emitted by the first revision of the derive macro
 * (src/lib.rs), for a record whose field1 is hashed unique, field2 hashed
 * non-unique and field3 ordered unique.
 *
 * Each method is proved to perform exactly the state change of the matching
 * function of `FirstTables`, panics included (as `Err`); what those changes
 * keep and break is proved there.
 */
module FirstRevision {
  import opened Wrappers
  import opened Element
  import opened Order
  import opened Slab
  import opened Iterators
  import opened FirstTables

  class FirstRevisionMap {
    /** `_store`: the occupied slots of the slab and their records. */
    var store: map<nat, Elem>
    /** `_field1_index` (hashed unique). */
    var index1: map<nat, nat>
    /** `_field2_index` (hashed non-unique): each value's slots in insertion order. */
    var index2: map<nat, seq<nat>>
    /** `_field3_index` (ordered unique). */
    var index3: map<nat, nat>

    function Snapshot(): Snap
      reads this
    {
      Snap(store, index1, index2, index3)
    }

    function UTable(f: UniqueField): map<nat, nat>
      reads this
    {
      Snapshot().UTable(f)
    }

    /** What every method keeps, sound or not: no `Vec` is empty. */
    ghost predicate Valid()
      reads this
    {
      VecsFilled(index2)
    }

    /** `Default`: an empty slab and empty tables. */
    constructor ()
      ensures Valid() && Snapshot() == Empty
    {
      store := map[];
      index1, index2, index3 := map[], map[], map[];
    }

    /** `len`: the number of occupied slots; zero exactly when the container is empty. */
    function Len(): (n: nat)
      reads this
      ensures n == 0 <==> IsEmpty()
    {
      |store|
    }

    /** `is_empty`: the slab's. */
    function IsEmpty(): bool
      reads this
    {
      Slab.IsEmpty(store)
    }

    /** `iter`: the slab's, over the records. */
    function Iter(): seq<(nat, Elem)>
      reads this
    {
      Slab.Iter(store)
    }

    /**
     * `insert`: the record takes a vacant slot; each unique table maps its
     * value to that slot, whatever it mapped before, and the non-unique
     * table appends the slot to the value's `Vec`.
     */
    method Insert(e: Elem) returns (slot: nat)
      requires Valid()
      modifies this
      ensures Valid()
      ensures slot !in old(store)
      ensures Snapshot() == Inserted(old(Snapshot()), e, slot)
    {
      VacantSlotExists(store);
      slot :| slot !in store;
      store := store[slot := e];
      index1 := index1[e.field1 := slot];
      index2 := Pushed(index2, e.field2, slot);
      index3 := index3[e.field3 := slot];
    }

    /**
     * `get_by_field1` / `get_by_field3`: the record at the slot the table
     * maps `key` to; indexing a vacant slot panics, which a sound map never
     * does. A sound map finds only a record holding `key`; a sound and
     * complete one finds one exactly when some record holds `key`.
     */
    function GetByUnique(f: UniqueField, key: nat): (r: Result<Option<Elem>, Panic>)
      reads this
      ensures r.Err? <==> key in UTable(f) && UTable(f)[key] !in store
      ensures r.Ok? && r.value.Some? ==> r.value.value in store.Values
      ensures Sound(Snapshot()) ==> r.Ok? && (r.value.Some? ==> UKey(r.value.value, f) == key)
      ensures Sound(Snapshot()) && Complete(Snapshot()) ==>
        (r.Ok? && r.value.Some? <==> exists s :: s in store && UKey(store[s], f) == key)
    {
      var t := UTable(f);
      assert Sound(Snapshot()) ==> UniqueSound(store, t, f);
      assert Complete(Snapshot()) ==> UniqueComplete(store, t, f);
      if key !in t then Ok(None)
      else if t[key] in store then Ok(Some(store[t[key]]))
      else Err(VacantSlot)
    }

    /** `get_by_field2`: the loop collecting the records of the key's `Vec`. */
    method GetByGroup(key: nat) returns (r: Result<seq<Elem>, Panic>)
      ensures r == GroupLookup(Snapshot(), key)
    {
      if key !in index2 {
        return Ok([]);
      }
      var idxs := index2[key];
      var refs := [];
      var i := 0;
      while i < |idxs|
        invariant i <= |idxs|
        invariant Collected(store, idxs[..i]) == Ok(refs)
      {
        assert idxs[..i + 1][..i] == idxs[..i];
        if idxs[i] !in store {
          CollectedRecords(store, idxs);
          return Err(VacantSlot);
        }
        refs := refs + [store[idxs[i]]];
        i := i + 1;
      }
      assert idxs[..i] == idxs;
      r := Ok(refs);
    }

    /** The `removes` template: every table drops the record's value as a whole key. */
    method Unlist(o: Elem)
      modifies this
      ensures Snapshot() == Unlisted(old(Snapshot()), o)
    {
      index1 := index1 - {o.field1};
      index2 := index2 - {o.field2};
      index3 := index3 - {o.field3};
    }

    /**
     * `remove_by_field1` / `remove_by_field3`: the key leaves its table, the
     * slot it named leaves the slab (a vacant one panics), and the record's
     * values leave every table.
     */
    method RemoveByUnique(f: UniqueField, key: nat) returns (r: Result<Option<Elem>, Panic>)
      requires Valid()
      modifies this
      ensures Valid()
      ensures Snapshot() == RemovedUnique(old(Snapshot()), f, key).0
      ensures r == RemovedUnique(old(Snapshot()), f, key).1
    {
      if key !in UTable(f) {
        return Ok(None);
      }
      var idx := UTable(f)[key];
      match f {
        case Field1 => index1 := index1 - {key};
        case Field3 => index3 := index3 - {key};
      }
      if idx !in store {
        return Err(VacantSlot);
      }
      var o := store[idx];
      store := store - {idx};
      Unlist(o);
      r := Ok(Some(o));
    }

    /**
     * `remove_by_field2`: the key's `Vec` leaves the table, then each of its
     * slots in turn leaves the slab (a vacant one panics) and its record's
     * values leave every table.
     */
    method RemoveByGroup(key: nat) returns (r: Result<seq<Elem>, Panic>)
      requires Valid()
      modifies this
      ensures Valid()
      ensures Snapshot() == RemovedGroup(old(Snapshot()), key).0
      ensures r == if RemovedGroup(old(Snapshot()), key).2.Some? then Err(VacantSlot)
                   else Ok(RemovedGroup(old(Snapshot()), key).1)
    {
      if key !in index2 {
        return Ok([]);
      }
      var idxs := index2[key];
      index2 := index2 - {key};
      ghost var p0 := Snapshot();
      var elems := [];
      var i := 0;
      while i < |idxs|
        invariant i <= |idxs| && Valid()
        invariant RemoveSlots(p0, idxs[..i]) == (Snapshot(), elems, None)
      {
        assert idxs[..i + 1][..i] == idxs[..i];
        var idx := idxs[i];
        if idx !in store {
          RemoveSlotsStops(p0, idxs, i + 1);
          return Err(VacantSlot);
        }
        var o := store[idx];
        store := store - {idx};
        Unlist(o);
        elems := elems + [o];
        i := i + 1;
      }
      assert idxs[..i] == idxs;
      r := Ok(elems);
    }

    /**
     * The `modifies` templates, in field order: each table's entry under the
     * old value is taken out (a missing one panics) and put under the new
     * value; for the non-unique table the whole `Vec` moves.
     */
    method Rekey(o: Elem, n: Elem) returns (err: Option<Panic>)
      requires Valid()
      modifies this
      ensures Valid()
      ensures Snapshot() == Rekeyed(old(Snapshot()), o, n).0
      ensures err == Rekeyed(old(Snapshot()), o, n).1
    {
      if o.field1 !in index1 {
        return Some(MissingEntry);
      }
      var idx := index1[o.field1];
      index1 := (index1 - {o.field1})[n.field1 := idx];
      if o.field2 !in index2 {
        return Some(MissingEntry);
      }
      var idxs := index2[o.field2];
      index2 := index2 - {o.field2};
      index2 := index2[n.field2 := (if n.field2 in index2 then index2[n.field2] else []) + idxs];
      if o.field3 !in index3 {
        return Some(MissingEntry);
      }
      idx := index3[o.field3];
      index3 := (index3 - {o.field3})[n.field3 := idx];
      err := None;
    }

    /**
     * `modify_by_field1` / `modify_by_field3`: the closure `g` rewrites the
     * record found through the table (a vacant slot panics), every table is
     * re-keyed, and the rewritten record is returned.
     */
    method ModifyByUnique(f: UniqueField, key: nat, g: Elem -> Elem) returns (r: Result<Option<Elem>, Panic>)
      requires Valid()
      modifies this
      ensures Valid()
      ensures Snapshot() == ModifiedUnique(old(Snapshot()), f, key, g).0
      ensures r == ModifiedUnique(old(Snapshot()), f, key, g).1
    {
      if key !in UTable(f) {
        return Ok(None);
      }
      var s := UTable(f)[key];
      if s !in store {
        return Err(VacantSlot);
      }
      var o := store[s];
      var n := g(o);
      store := store[s := n];
      var err := Rekey(o, n);
      r := if err.Some? then Err(err.value) else Ok(Some(n));
    }

    /**
     * `iter_by_field1` / `iter_by_field3`: an iterator over the table's
     * entries. The ordered table yields its keys in ascending order; the
     * hashed one in the hash map's own order, outside this model and given
     * as `hashOrder`. Over a sound map every slot it will look up is
     * occupied and, for the ordered table, the records come in ascending
     * order of field3; over a complete one every record is reached.
     */
    method IterByUnique(f: UniqueField, hashOrder: seq<nat>) returns (it: FirstUniqueIter)
      requires f == Field1 ==> Enumerates(hashOrder, index1.Keys)
      ensures fresh(it) && it.Valid() && it.front == 0
      ensures it.store == store && it.table == UTable(f)
      ensures it.keys == if f == Field3 then Sorted(index3.Keys) else hashOrder
      ensures |it.Pending()| == |UTable(f)|
      ensures Sound(Snapshot()) ==> forall x :: x in it.Pending() ==> x in store
      ensures Sound(Snapshot()) && f == Field3 ==>
        forall i, j :: 0 <= i < j < |it.Pending()| ==> UKey(store[it.Pending()[i]], f) < UKey(store[it.Pending()[j]], f)
      ensures Complete(Snapshot()) ==> forall s :: s in store ==> s in it.Pending()
    {
      var t := UTable(f);
      var keys := if f == Field3 then Sorted(t.Keys) else hashOrder;
      SortedEnumerates(t.Keys);
      EnumeratesSize(keys, t.Keys);
      if f == Field3 {
        SortedIncreasing(t.Keys);
      }
      if Sound(Snapshot()) {
        assert UniqueSound(store, t, f);
        LookupsSound(store, t, f, keys);
      }
      if Complete(Snapshot()) {
        assert UniqueComplete(store, t, f);
        LookupsComplete(store, t, f, keys);
      }
      it := NewLookupIter(store, t, keys);
    }

    /**
     * `iter_by_field2`: an iterator over the table's `Vec`s, in the hash
     * map's own order (given as `hashOrder`), each front to back. Over a
     * sound map every slot it will reach is occupied; over a complete one
     * every record is reached.
     */
    method IterByGroup(hashOrder: seq<nat>) returns (it: FirstGroupIter)
      requires Valid() && Enumerates(hashOrder, index2.Keys)
      ensures fresh(it) && it.Valid() && it.front == 0 && it.inner == []
      ensures it.store == store && it.groups == index2 && it.keys == hashOrder
      ensures it.Pending() == Flatten(index2, hashOrder)
      ensures Sound(Snapshot()) ==> forall x :: x in it.Pending() ==> x in store
      ensures Complete(Snapshot()) ==> forall s :: s in store ==> s in it.Pending()
    {
      it := new FirstGroupIter(store, index2, hashOrder);
      assert hashOrder[0..] == hashOrder;
      if Sound(Snapshot()) {
        assert GroupsIn(index2, store);
        FlattenIn(index2, hashOrder, store);
      }
      FlattenCovers(index2, hashOrder);
    }
  }

  /** The slots a unique table maps the keys to, in the keys' order. */
  function Lookups(table: map<nat, nat>, keys: seq<nat>): (r: seq<nat>)
    requires forall k :: k in keys ==> k in table
    ensures |r| == |keys|
    ensures forall i :: 0 <= i < |keys| ==> r[i] == table[keys[i]]
  {
    if keys == [] then [] else [table[keys[0]]] + Lookups(table, keys[1..])
  }

  /**
   * Through a sound unique table the looked-up slots are occupied, and
   * ascending keys lead to ascending field values.
   */
  lemma LookupsSound(store: map<nat, Elem>, t: map<nat, nat>, f: UniqueField, keys: seq<nat>)
    requires UniqueSound(store, t, f) && forall k :: k in keys ==> k in t
    ensures forall x :: x in Lookups(t, keys) ==> x in store
    ensures Increasing(keys) ==> forall i, j :: 0 <= i < j < |keys| ==>
      UKey(store[Lookups(t, keys)[i]], f) < UKey(store[Lookups(t, keys)[j]], f)
  {
    var r := Lookups(t, keys);
    forall x | x in r
      ensures x in store
    {
      var i :| 0 <= i < |r| && r[i] == x;
      assert keys[i] in keys;
    }
    forall i, j | 0 <= i < j < |keys|
      ensures UKey(store[r[i]], f) == keys[i] && UKey(store[r[j]], f) == keys[j]
    {
      assert keys[i] in keys && keys[j] in keys;
    }
  }

  /** Through a complete unique table every stored slot is looked up when every key is. */
  lemma LookupsComplete(store: map<nat, Elem>, t: map<nat, nat>, f: UniqueField, keys: seq<nat>)
    requires UniqueComplete(store, t, f) && Enumerates(keys, t.Keys)
    ensures forall s :: s in store ==> s in Lookups(t, keys)
  {
    var r := Lookups(t, keys);
    forall s | s in store
      ensures s in r
    {
      var i :| 0 <= i < |keys| && keys[i] == UKey(store[s], f);
      assert r[i] == s;
    }
  }

  /** A fresh iterator over a unique table, walking the given keys. */
  method NewLookupIter(store: map<nat, Elem>, t: map<nat, nat>, keys: seq<nat>) returns (it: FirstUniqueIter)
    requires Enumerates(keys, t.Keys)
    ensures fresh(it) && it.Valid() && it.front == 0
    ensures it.store == store && it.table == t && it.keys == keys
    ensures it.Pending() == Lookups(t, keys)
  {
    it := new FirstUniqueIter(store, t, keys);
    assert keys[0..] == keys;
  }

  /** The iterator over a unique table: `_iter` over its entries. */
  class FirstUniqueIter {
    const store: map<nat, Elem>
    const table: map<nat, nat>
    /** The order in which the table yields its keys. */
    const keys: seq<nat>
    /** Keys `_iter` has consumed. */
    var front: nat

    ghost predicate Valid()
      reads this
    {
      Enumerates(keys, table.Keys) && front <= |keys|
    }

    /** The slots `next` has still to look up, in order. */
    ghost function Pending(): seq<nat>
      requires Valid()
      reads this
    {
      Lookups(table, keys[front..])
    }

    constructor (store: map<nat, Elem>, table: map<nat, nat>, keys: seq<nat>)
      requires Enumerates(keys, table.Keys)
      ensures Valid() && front == 0
      ensures this.store == store && this.table == table && this.keys == keys
    {
      this.store := store;
      this.table := table;
      this.keys := keys;
      front := 0;
    }

    /**
     * `next`: the record at the next entry's slot (a vacant one panics), or
     * None once the entries are exhausted.
     */
    method Next() returns (r: Result<Option<Elem>, Panic>)
      requires Valid()
      modifies this
      ensures Valid()
      ensures old(Pending()) == [] ==> r == Ok(None) && Pending() == []
      ensures old(Pending()) != [] ==> Pending() == old(Pending())[1..]
      ensures old(Pending()) != [] && old(Pending())[0] in store ==> r == Ok(Some(store[old(Pending())[0]]))
      ensures old(Pending()) != [] && old(Pending())[0] !in store ==> r == Err(VacantSlot)
    {
      if front == |keys| {
        return Ok(None);
      }
      var x := table[keys[front]];
      assert keys[front..][1..] == keys[front + 1..];
      front := front + 1;
      r := if x in store then Ok(Some(store[x])) else Err(VacantSlot);
    }
  }

  /**
   * The iterator over the non-unique table: `_iter` over its entries and
   * `_inner_iter` over the current `Vec`.
   */
  class FirstGroupIter {
    const store: map<nat, Elem>
    const groups: map<nat, seq<nat>>
    /** The order in which the table yields its keys. */
    const keys: seq<nat>
    /** Keys `_iter` has consumed. */
    var front: nat
    /** What `_inner_iter` has not yet yielded; empty when there is none. */
    var inner: seq<nat>

    ghost predicate Valid()
      reads this
    {
      Enumerates(keys, groups.Keys) && VecsFilled(groups) && front <= |keys|
    }

    /** The slots `next` has still to reach, in order. */
    ghost function Pending(): seq<nat>
      requires Valid()
      reads this
    {
      WalkForward(groups, keys, front, inner)
    }

    constructor (store: map<nat, Elem>, groups: map<nat, seq<nat>>, keys: seq<nat>)
      requires Enumerates(keys, groups.Keys) && VecsFilled(groups)
      ensures Valid() && front == 0 && inner == []
      ensures this.store == store && this.groups == groups && this.keys == keys
    {
      this.store := store;
      this.groups := groups;
      this.keys := keys;
      front := 0;
      inner := [];
    }

    /**
     * `next`: the record at the next slot of the current `Vec`, or else at
     * the first slot of the next key's `Vec` (never empty, so its `expect`
     * holds), or None once the keys are exhausted; a vacant slot panics.
     */
    method Next() returns (r: Result<Option<Elem>, Panic>)
      requires Valid()
      modifies this
      ensures Valid()
      ensures old(Pending()) == [] ==> r == Ok(None) && Pending() == []
      ensures old(Pending()) != [] ==> Pending() == old(Pending())[1..]
      ensures old(Pending()) != [] && old(Pending())[0] in store ==> r == Ok(Some(store[old(Pending())[0]]))
      ensures old(Pending()) != [] && old(Pending())[0] !in store ==> r == Err(VacantSlot)
    {
      WalkForwardStep(groups, keys, front, inner);
      var x;
      if inner != [] {
        x := inner[0];
        inner := inner[1..];
      } else if front == |keys| {
        return Ok(None);
      } else {
        var g := groups[keys[front]];
        x := g[0];
        front, inner := front + 1, g[1..];
      }
      r := if x in store then Ok(Some(store[x])) else Err(VacantSlot);
    }
  }
}
