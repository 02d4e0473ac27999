/**
 * The first revision of the container (src/lib.rs), as values.
 *
 * That revision knows three index kinds: a hashed unique table and an
 * ordered unique table, each mapping a value to one slot, and a hashed
 * non-unique table mapping a value to a `Vec` of slots in insertion order.
 * In the record of this model field1 is hashed unique, field2 hashed
 * non-unique and field3 ordered unique; field4 and the payload are not
 * indexed. Its tables are written without checks: a unique insert silently
 * re-points a value already present, a removal deletes the removed record's
 * values from every table as whole keys, and a modification moves whole
 * entries from the old value to the new one.
 *
 * `Sound` (every entry names an occupied slot whose record holds the entry's
 * key) survives inserts and removals; `Complete` (every record reachable
 * through every table) does not, and neither survives every modification.
 * The lemmas below say exactly when.
 */
module FirstTables {
  import opened Wrappers
  import opened Element
  import opened Order
  import opened Slab
  import opened Iterators

  /** Why an emitted method of this revision panics. */
  datatype Panic =
    | VacantSlot    // the slab indexed, or removed from, at a vacant slot
    | MissingEntry  // an `expect` on a table entry that is not there

  /** The slab's occupied slots and the three tables. */
  datatype Snap = Snap(store: map<nat, Elem>, index1: map<nat, nat>, index2: map<nat, seq<nat>>, index3: map<nat, nat>)
  {
    /** The table of a unique field. */
    function UTable(f: UniqueField): map<nat, nat>
    {
      match f
      case Field1 => index1
      case Field3 => index3
    }

    /** The same state with the key dropped from a unique field's table. */
    function WithoutKey(f: UniqueField, key: nat): (r: Snap)
      ensures r.store == store && r.index2 == index2
      ensures r.UTable(f) == UTable(f) - {key}
      ensures forall g :: g != f ==> r.UTable(g) == UTable(g)
    {
      match f
      case Field1 => this.(index1 := index1 - {key})
      case Field3 => this.(index3 := index3 - {key})
    }
  }

  /** The state of a new, empty map (`Default`). */
  const Empty := Snap(map[], map[], map[], map[])

  // ----- The invariant this revision keeps, and the one it loses -----

  /** Every entry of a unique table names an occupied slot whose record holds the entry's key. */
  ghost predicate UniqueSound(store: map<nat, Elem>, t: map<nat, nat>, f: UniqueField)
  {
    forall k :: k in t ==> t[k] in store && UKey(store[t[k]], f) == k
  }

  /** Every `Vec` of the non-unique table is non-empty, repeats no slot, and names only occupied slots whose record holds its key. */
  ghost predicate GroupSound(store: map<nat, Elem>, t: map<nat, seq<nat>>)
  {
    && (forall k :: k in t ==> t[k] != [] && Distinct(t[k]))
    && (forall k, x :: k in t && x in t[k] ==> x in store && store[x].field2 == k)
  }

  /** No table entry is stale. */
  ghost predicate Sound(p: Snap)
  {
    UniqueSound(p.store, p.index1, Field1) && GroupSound(p.store, p.index2) && UniqueSound(p.store, p.index3, Field3)
  }

  /** Every stored record is what a unique table maps its value to. */
  ghost predicate UniqueComplete(store: map<nat, Elem>, t: map<nat, nat>, f: UniqueField)
  {
    forall s :: s in store ==> UKey(store[s], f) in t && t[UKey(store[s], f)] == s
  }

  /** Every stored record is listed in the non-unique table under its value. */
  ghost predicate GroupComplete(store: map<nat, Elem>, t: map<nat, seq<nat>>)
  {
    forall s :: s in store ==> store[s].field2 in t && s in t[store[s].field2]
  }

  /** Every stored record is reachable through every table. */
  ghost predicate Complete(p: Snap)
  {
    UniqueComplete(p.store, p.index1, Field1) && GroupComplete(p.store, p.index2) && UniqueComplete(p.store, p.index3, Field3)
  }

  /** No `Vec` of the non-unique table is empty. */
  ghost predicate VecsFilled(t: map<nat, seq<nat>>)
  {
    forall k :: k in t ==> t[k] != []
  }

  // ----- insert -----

  /** `entry(k).or_insert(Vec::with_capacity(1)).push(s)`. */
  function Pushed(t: map<nat, seq<nat>>, k: nat, s: nat): (r: map<nat, seq<nat>>)
    ensures r.Keys == t.Keys + {k}
    ensures forall j :: j in t && j != k ==> r[j] == t[j]
  {
    t[k := (if k in t then t[k] else []) + [s]]
  }

  /** `insert`: the record takes slot `s`; each unique table maps the record's value to `s`, replacing any entry already there, and the non-unique table appends `s` to the value's `Vec`. */
  function Inserted(p: Snap, e: Elem, s: nat): (r: Snap)
    ensures r.store.Keys == p.store.Keys + {s} && r.store[s] == e
    ensures e.field1 in r.index1 && r.index1[e.field1] == s && e.field3 in r.index3 && r.index3[e.field3] == s
    ensures e.field2 in r.index2 && r.index2[e.field2] != [] && r.index2[e.field2][|r.index2[e.field2]| - 1] == s
    ensures forall k :: k in p.index1 && k != e.field1 ==> k in r.index1 && r.index1[k] == p.index1[k]
    ensures forall k :: k in p.index3 && k != e.field3 ==> k in r.index3 && r.index3[k] == p.index3[k]
  {
    Snap(p.store[s := e], p.index1[e.field1 := s], Pushed(p.index2, e.field2, s), p.index3[e.field3 := s])
  }

  lemma UniqueSoundInsert(store: map<nat, Elem>, t: map<nat, nat>, f: UniqueField, e: Elem, s: nat)
    requires UniqueSound(store, t, f) && s !in store
    ensures UniqueSound(store[s := e], t[UKey(e, f) := s], f)
  {
  }

  lemma GroupSoundInsert(store: map<nat, Elem>, t: map<nat, seq<nat>>, e: Elem, s: nat)
    requires GroupSound(store, t) && s !in store
    ensures GroupSound(store[s := e], Pushed(t, e.field2, s))
  {
    var t' := Pushed(t, e.field2, s);
    var old' := if e.field2 in t then t[e.field2] else [];
    assert t'[e.field2] == old' + [s];
    assert Distinct(old' + [s]) by {
      assert s !in old';
    }
  }

  /** An insert never leaves a stale entry, whatever the record. */
  lemma InsertedSound(p: Snap, e: Elem, s: nat)
    requires Sound(p) && s !in p.store
    ensures Sound(Inserted(p, e, s))
  {
    UniqueSoundInsert(p.store, p.index1, Field1, e, s);
    GroupSoundInsert(p.store, p.index2, e, s);
    UniqueSoundInsert(p.store, p.index3, Field3, e, s);
  }

  lemma UniqueCompleteInsert(store: map<nat, Elem>, t: map<nat, nat>, f: UniqueField, e: Elem, s: nat)
    requires UniqueSound(store, t, f) && UniqueComplete(store, t, f) && s !in store
    ensures UniqueComplete(store[s := e], t[UKey(e, f) := s], f) <==> UKey(e, f) !in t
  {
    var k := UKey(e, f);
    if k in t {
      var y := t[k];
      assert y in store && y != s && UKey(store[s := e][y], f) == k;
    }
  }

  lemma GroupCompleteInsert(store: map<nat, Elem>, t: map<nat, seq<nat>>, e: Elem, s: nat)
    requires GroupComplete(store, t) && s !in store
    ensures GroupComplete(store[s := e], Pushed(t, e.field2, s))
  {
    var t' := Pushed(t, e.field2, s);
    forall x | x in store && x != s
      ensures store[x].field2 in t' && x in t'[store[x].field2]
    {
      if store[x].field2 == e.field2 {
        assert x in t[e.field2];
      }
    }
  }

  /**
   * An insert keeps every record reachable exactly when the record's unique
   * values are new: a value already present is silently re-pointed at the
   * new slot, and the record that held it can no longer be found through
   * that table.
   */
  lemma InsertedComplete(p: Snap, e: Elem, s: nat)
    requires Sound(p) && Complete(p) && s !in p.store
    ensures Complete(Inserted(p, e, s)) <==> e.field1 !in p.index1 && e.field3 !in p.index3
  {
    UniqueCompleteInsert(p.store, p.index1, Field1, e, s);
    GroupCompleteInsert(p.store, p.index2, e, s);
    UniqueCompleteInsert(p.store, p.index3, Field3, e, s);
  }

  // ----- get -----

  /**
   * The loop of `get_by_field2`: the record at each listed slot, in order;
   * indexing a vacant slot panics.
   */
  function Collected(store: map<nat, Elem>, slots: seq<nat>): (r: Result<seq<Elem>, Panic>)
    ensures r.Ok? ==> |r.value| == |slots| && forall e :: e in r.value ==> e in store.Values
    ensures r.Err? ==> r.error == VacantSlot
    decreases |slots|
  {
    if slots == [] then Ok([])
    else
      match Collected(store, slots[..|slots| - 1])
      case Err(e) => Err(e)
      case Ok(rs) =>
        if slots[|slots| - 1] in store then Ok(rs + [store[slots[|slots| - 1]]]) else Err(VacantSlot)
  }

  /** Collecting succeeds exactly when every listed slot is occupied, and then yields the records at them in order. */
  lemma {:induction false} CollectedRecords(store: map<nat, Elem>, slots: seq<nat>)
    ensures Collected(store, slots).Ok? <==> forall x :: x in slots ==> x in store
    ensures (forall x :: x in slots ==> x in store) ==> Collected(store, slots) == Ok(Records(store, slots))
    ensures Collected(store, slots).Err? ==> Collected(store, slots).error == VacantSlot
    decreases |slots|
  {
    if slots != [] {
      var init := slots[..|slots| - 1];
      var last := slots[|slots| - 1];
      assert slots == init + [last];
      CollectedRecords(store, init);
      assert forall x :: x in slots <==> x in init || x == last;
      if forall x :: x in slots ==> x in store {
        var r := Records(store, slots);
        assert r == Records(store, init) + [store[last]] by {
          assert forall i :: 0 <= i < |init| ==> r[i] == store[init[i]];
        }
      }
    }
  }

  /** `get_by_field2`: the records of the key's `Vec`, in its order; none for an absent key. */
  function GroupLookup(p: Snap, key: nat): (r: Result<seq<Elem>, Panic>)
    ensures r.Ok? ==> |r.value| == if key in p.index2 then |p.index2[key]| else 0
    ensures r.Err? ==> key in p.index2 && r.error == VacantSlot
  {
    if key in p.index2 then Collected(p.store, p.index2[key]) else Ok([])
  }

  /**
   * Looking up a non-unique value never panics on a sound map and yields
   * records holding that value, each once; on a sound and complete map it
   * yields every record holding it.
   */
  lemma GroupLookupSound(p: Snap, key: nat)
    requires Sound(p)
    ensures GroupLookup(p, key).Ok?
    ensures forall e :: e in GroupLookup(p, key).value ==> e in p.store.Values && e.field2 == key
    ensures key in p.index2 ==> |GroupLookup(p, key).value| == |p.index2[key]|
    ensures Complete(p) ==> forall s :: s in p.store && p.store[s].field2 == key ==> p.store[s] in GroupLookup(p, key).value
  {
    if key in p.index2 {
      var v := p.index2[key];
      CollectedRecords(p.store, v);
      var r := Records(p.store, v);
      forall e | e in r
        ensures e in p.store.Values && e.field2 == key
      {
        var i :| 0 <= i < |r| && r[i] == e;
        assert v[i] in v;
      }
      if Complete(p) {
        forall s | s in p.store && p.store[s].field2 == key
          ensures p.store[s] in r
        {
          var i :| 0 <= i < |v| && v[i] == s;
          assert r[i] == p.store[s];
        }
      }
    } else if Complete(p) {
      assert forall s :: s in p.store ==> p.store[s].field2 != key;
    }
  }

  /**
   * Records sharing a non-unique value come back in insertion order: a
   * newly inserted record is listed after those already there.
   */
  lemma InsertedLast(p: Snap, e: Elem, s: nat)
    requires Sound(p) && s !in p.store
    ensures GroupLookup(p, e.field2).Ok?
    ensures GroupLookup(Inserted(p, e, s), e.field2) == Ok(GroupLookup(p, e.field2).value + [e])
  {
    var v := if e.field2 in p.index2 then p.index2[e.field2] else [];
    assert forall x :: x in v ==> x in p.store;
    assert Inserted(p, e, s).index2[e.field2] == v + [s];
    CollectedRecords(p.store, v);
    RecordsAppended(p.store, v, s, e);
    CollectedRecords(p.store[s := e], v + [s]);
  }

  /** Filling a vacant slot and listing it last appends its record. */
  lemma RecordsAppended(store: map<nat, Elem>, v: seq<nat>, s: nat, e: Elem)
    requires s !in store && forall x :: x in v ==> x in store
    ensures Records(store[s := e], v + [s]) == Records(store, v) + [e]
  {
    var a := Records(store[s := e], v + [s]);
    assert forall i :: 0 <= i < |v| ==> (v + [s])[i] == v[i] && v[i] != s;
    assert a[|v|] == e;
  }

  // ----- remove -----

  /** The `removes` template: every table drops the removed record's value as a whole key. */
  function Unlisted(p: Snap, o: Elem): (r: Snap)
    ensures r.store == p.store
    ensures o.field1 !in r.index1 && o.field2 !in r.index2 && o.field3 !in r.index3
    ensures forall k :: k in p.index1 && k != o.field1 ==> k in r.index1 && r.index1[k] == p.index1[k]
    ensures forall k :: k in p.index2 && k != o.field2 ==> k in r.index2 && r.index2[k] == p.index2[k]
    ensures forall k :: k in p.index3 && k != o.field3 ==> k in r.index3 && r.index3[k] == p.index3[k]
  {
    Snap(p.store, p.index1 - {o.field1}, p.index2 - {o.field2}, p.index3 - {o.field3})
  }

  /**
   * `remove_by_field1` / `remove_by_field3`: the key leaves its table; its
   * slot leaves the slab (a vacant slot panics); then the record's values
   * leave every table.
   */
  function RemovedUnique(p: Snap, f: UniqueField, key: nat): (r: (Snap, Result<Option<Elem>, Panic>))
    ensures r.1 == Ok(None) <==> key !in p.UTable(f)
    ensures r.1.Err? <==> key in p.UTable(f) && p.UTable(f)[key] !in p.store
    ensures r.1.Err? ==> r.1.error == VacantSlot && r.0.store == p.store
    ensures r.1.Ok? && r.1.value.Some? ==>
      key in p.UTable(f) && p.UTable(f)[key] in p.store && r.1.value.value == p.store[p.UTable(f)[key]]
      && r.0.store == p.store - {p.UTable(f)[key]}
    ensures key !in r.0.UTable(f)
  {
    if key !in p.UTable(f) then (p, Ok(None))
    else
      var s := p.UTable(f)[key];
      var q := p.WithoutKey(f, key);
      if s !in q.store then (q, Err(VacantSlot))
      else (Unlisted(q.(store := q.store - {s}), q.store[s]), Ok(Some(q.store[s])))
  }

  lemma UniqueSoundDrop(store: map<nat, Elem>, t: map<nat, nat>, f: UniqueField, s: nat, k: nat)
    requires UniqueSound(store, t, f) && s in store
    ensures UniqueSound(store - {s}, t - {k} - {UKey(store[s], f)}, f)
  {
  }

  lemma GroupSoundDrop(store: map<nat, Elem>, t: map<nat, seq<nat>>, s: nat)
    requires GroupSound(store, t) && s in store
    ensures GroupSound(store - {s}, t - {store[s].field2})
  {
  }

  /** A removal of one record leaves no stale entry. */
  lemma UnlistedSound(p: Snap, s: nat)
    requires Sound(p) && s in p.store
    ensures Sound(Unlisted(p.(store := p.store - {s}), p.store[s]))
  {
    var o := p.store[s];
    UniqueSoundDrop(p.store, p.index1, Field1, s, o.field1);
    GroupSoundDrop(p.store, p.index2, s);
    UniqueSoundDrop(p.store, p.index3, Field3, s, o.field3);
    assert p.index1 - {o.field1} - {o.field1} == p.index1 - {o.field1};
    assert p.index3 - {o.field3} - {o.field3} == p.index3 - {o.field3};
  }

  /**
   * On a sound map a unique remover never panics; it returns the record
   * holding the key, vacates its slot and leaves no stale entry. An absent
   * key changes nothing.
   */
  lemma RemovedUniqueSound(p: Snap, f: UniqueField, key: nat)
    requires Sound(p)
    ensures RemovedUnique(p, f, key).1.Ok?
    ensures RemovedUnique(p, f, key).1.value.Some? <==> key in p.UTable(f)
    ensures key in p.UTable(f) ==>
      RemovedUnique(p, f, key).1.value == Some(p.store[p.UTable(f)[key]])
      && UKey(p.store[p.UTable(f)[key]], f) == key
      && RemovedUnique(p, f, key).0.store == p.store - {p.UTable(f)[key]}
    ensures key !in p.UTable(f) ==> RemovedUnique(p, f, key).0 == p
    ensures Sound(RemovedUnique(p, f, key).0)
  {
    if key in p.UTable(f) {
      var s := p.UTable(f)[key];
      assert UniqueSound(p.store, p.UTable(f), f);
      var q := p.WithoutKey(f, key);
      assert Sound(q);
      UnlistedSound(q, s);
    }
  }

  lemma GroupCompleteDrop(store: map<nat, Elem>, t: map<nat, seq<nat>>, s: nat)
    requires GroupComplete(store, t) && s in store
    ensures GroupComplete(store - {s}, t - {store[s].field2}) <==>
      forall x :: x in store && x != s ==> store[x].field2 != store[s].field2
  {
    var k := store[s].field2;
    if !(forall x :: x in store && x != s ==> store[x].field2 != k) {
      var x :| x in store && x != s && store[x].field2 == k;
      assert x in store - {s};
    }
  }

  lemma UniqueCompleteDrop(store: map<nat, Elem>, t: map<nat, nat>, f: UniqueField, s: nat)
    requires UniqueComplete(store, t, f) && s in store
    ensures UniqueComplete(store - {s}, t - {UKey(store[s], f)} - {UKey(store[s], f)}, f)
  {
    forall x | x in store - {s}
      ensures UKey(store[x], f) != UKey(store[s], f)
    {
      assert t[UKey(store[x], f)] == x;
    }
  }

  /**
   * Removing by a unique value keeps every other record reachable exactly
   * when no other record shares the removed record's non-unique value: the
   * whole `Vec` under that value is deleted, taking the others with it.
   */
  lemma RemovedUniqueComplete(p: Snap, f: UniqueField, key: nat)
    requires Sound(p) && Complete(p) && key in p.UTable(f)
    ensures Complete(RemovedUnique(p, f, key).0) <==>
      forall x :: x in p.store && x != p.UTable(f)[key] ==> p.store[x].field2 != p.store[p.UTable(f)[key]].field2
  {
    var s := p.UTable(f)[key];
    assert UniqueSound(p.store, p.UTable(f), f);
    var o := p.store[s];
    assert UKey(o, f) == key;
    var q := p.WithoutKey(f, key);
    var r := Unlisted(q.(store := q.store - {s}), o);
    assert q.UTable(f) - {UKey(o, f)} == p.UTable(f) - {key} - {key};
    UniqueCompleteDrop(p.store, p.index1, Field1, s);
    UniqueCompleteDrop(p.store, p.index3, Field3, s);
    match f {
      case Field1 =>
        assert r.index1 == p.index1 - {o.field1} - {o.field1};
        assert r.index3 == p.index3 - {o.field3};
        assert p.index3 - {o.field3} == p.index3 - {o.field3} - {o.field3};
      case Field3 =>
        assert r.index3 == p.index3 - {o.field3} - {o.field3};
        assert r.index1 == p.index1 - {o.field1};
        assert p.index1 - {o.field1} == p.index1 - {o.field1} - {o.field1};
    }
    GroupCompleteDrop(p.store, p.index2, s);
  }

  /**
   * One round of `remove_by_field2`'s loop: the slot leaves the slab (a
   * vacant slot panics), the record's values leave every table, and the
   * record is collected. After a panic nothing more happens.
   */
  function RemoveSlot(q: (Snap, seq<Elem>, Option<Panic>), s: nat): (r: (Snap, seq<Elem>, Option<Panic>))
    ensures r.2.Some? ==> r.0 == q.0 && r.1 == q.1 && (q.2.None? ==> r.2 == Some(VacantSlot))
    ensures r.2.None? ==> s in q.0.store && r.0.store == q.0.store - {s} && r.1 == q.1 + [q.0.store[s]]
    ensures r.0.index2.Keys <= q.0.index2.Keys
  {
    if q.2.Some? then q
    else if s !in q.0.store then (q.0, q.1, Some(VacantSlot))
    else (Unlisted(q.0.(store := q.0.store - {s}), q.0.store[s]), q.1 + [q.0.store[s]], None)
  }

  /** The rounds of `remove_by_field2`'s loop over `slots`, in order. */
  function RemoveSlots(p: Snap, slots: seq<nat>): (r: (Snap, seq<Elem>, Option<Panic>))
    ensures r.2.None? ==> |r.1| == |slots|
    ensures r.2.Some? ==> r.2.value == VacantSlot
    ensures r.0.store.Keys <= p.store.Keys && r.0.index2.Keys <= p.index2.Keys
    decreases |slots|
  {
    if slots == [] then (p, [], None) else RemoveSlot(RemoveSlots(p, slots[..|slots| - 1]), slots[|slots| - 1])
  }

  /** `remove_by_field2`: the key's `Vec` leaves the table, then each of its slots in `Vec` order. */
  function RemovedGroup(p: Snap, key: nat): (r: (Snap, seq<Elem>, Option<Panic>))
    ensures key !in r.0.index2
    ensures r.2.None? ==> |r.1| == if key in p.index2 then |p.index2[key]| else 0
    ensures r.2.Some? ==> r.2.value == VacantSlot
    ensures r.0.store.Keys <= p.store.Keys
  {
    if key in p.index2 then RemoveSlots(p.(index2 := p.index2 - {key}), p.index2[key]) else (p, [], None)
  }

  /** Once a round has panicked, the later rounds change nothing. */
  lemma {:induction false} RemoveSlotsStops(p: Snap, slots: seq<nat>, i: nat)
    requires i <= |slots| && RemoveSlots(p, slots[..i]).2.Some?
    ensures RemoveSlots(p, slots) == RemoveSlots(p, slots[..i])
    decreases |slots| - i
  {
    if i < |slots| {
      assert slots[..i + 1][..i] == slots[..i];
      RemoveSlotsStops(p, slots, i + 1);
    } else {
      assert slots[..i] == slots;
    }
  }

  /**
   * Over distinct occupied slots of a sound map the loop never panics: it
   * vacates exactly those slots, returns their records in order and leaves
   * no stale entry.
   */
  lemma {:induction false} RemoveSlotsSound(p: Snap, slots: seq<nat>)
    requires Sound(p) && Distinct(slots) && forall x :: x in slots ==> x in p.store
    ensures RemoveSlots(p, slots).2.None?
    ensures Sound(RemoveSlots(p, slots).0)
    ensures RemoveSlots(p, slots).0.store == Vacated(p.store, slots)
    ensures RemoveSlots(p, slots).1 == Records(p.store, slots)
    decreases |slots|
  {
    if slots != [] {
      var n := |slots| - 1;
      DistinctStep(slots, n);
      assert slots[..n + 1] == slots;
      assert Distinct(slots[..n]);
      RemoveSlotsSound(p, slots[..n]);
      RemoveSlotSound(p, RemoveSlots(p, slots[..n]), slots[..n], slots[n]);
    }
  }

  /** One round of the removal loop, on top of rounds that kept the map sound. */
  lemma RemoveSlotSound(p: Snap, q: (Snap, seq<Elem>, Option<Panic>), done: seq<nat>, s: nat)
    requires forall x :: x in done ==> x in p.store
    requires s in p.store && s !in done
    requires q.2.None? && Sound(q.0) && q.0.store == Vacated(p.store, done) && q.1 == Records(p.store, done)
    ensures RemoveSlot(q, s).2.None?
    ensures Sound(RemoveSlot(q, s).0)
    ensures RemoveSlot(q, s).0.store == Vacated(p.store, done + [s])
    ensures RemoveSlot(q, s).1 == Records(p.store, done + [s])
  {
    assert (done + [s])[..|done|] == done;
    UnlistedSound(q.0, s);
    RecordsSnoc(p.store, done, s);
  }

  /**
   * On a sound map the non-unique remover never panics; it returns the
   * records of the key's `Vec` in its order, all holding the key, vacates
   * exactly their slots and leaves no stale entry.
   */
  lemma RemovedGroupSound(p: Snap, key: nat)
    requires Sound(p)
    ensures var (q, rs, panic) := RemovedGroup(p, key);
      && panic.None? && Sound(q)
      && (forall e :: e in rs ==> e.field2 == key)
      && (key in p.index2 ==>
            && rs == Records(p.store, p.index2[key])
            && q.store == Vacated(p.store, p.index2[key])
            && |q.store| == |p.store| - |rs|)
      && (key !in p.index2 ==> q == p && rs == [])
  {
    if key in p.index2 {
      RemovedGroupPresent(p, key, p.index2[key]);
    }
  }

  /** The key-present half of `RemovedGroupSound`, over the loop itself. */
  lemma RemovedGroupPresent(p: Snap, key: nat, v: seq<nat>)
    requires Sound(p) && key in p.index2 && v == p.index2[key]
    ensures var (q, rs, panic) := RemoveSlots(p.(index2 := p.index2 - {key}), v);
      && panic.None? && Sound(q)
      && (forall e :: e in rs ==> e.field2 == key)
      && rs == Records(p.store, v)
      && q.store == Vacated(p.store, v)
      && |q.store| == |p.store| - |rs|
  {
    var q := p.(index2 := p.index2 - {key});
    assert Sound(q);
    RemoveSlotsSound(q, v);
    VacatedCount(p.store, v);
    RecordsHoldKey(p.store, v, key);
  }

  /** Vacating distinct occupied slots shrinks the slab by their number. */
  lemma {:induction false} VacatedCount(store: map<nat, Elem>, v: seq<nat>)
    requires Distinct(v) && forall x :: x in v ==> x in store
    ensures |Vacated(store, v)| == |store| - |v|
    decreases |v|
  {
    if v != [] {
      var init := v[..|v| - 1];
      var last := v[|v| - 1];
      assert Distinct(init);
      assert last !in init by {
        assert forall j :: 0 <= j < |init| ==> init[j] == v[j];
      }
      VacatedCount(store, init);
      var m := Vacated(store, init);
      assert last in m;
      assert (m - {last}).Keys == m.Keys - {last};
    }
  }

  /** The records at slots whose records all hold a non-unique value all hold it. */
  lemma RecordsHoldKey(store: map<nat, Elem>, v: seq<nat>, key: nat)
    requires forall x :: x in v ==> x in store && store[x].field2 == key
    ensures forall e :: e in Records(store, v) ==> e.field2 == key
  {
    var r := Records(store, v);
    forall e | e in r
      ensures e.field2 == key
    {
      var i :| 0 <= i < |r| && r[i] == e;
      assert v[i] in v;
    }
  }

  // ----- modify -----

  /** The `modifies` template for a unique table: take the slot from under the old value (a missing entry panics), put it under the new one, replacing any entry there. */
  function UniqueRekeyed(t: map<nat, nat>, o: nat, n: nat): (r: Result<map<nat, nat>, Panic>)
    ensures r.Err? <==> o !in t
    ensures r.Err? ==> r.error == MissingEntry
    ensures r.Ok? ==> n in r.value && r.value[n] == t[o] && (o != n ==> o !in r.value)
  {
    if o in t then Ok((t - {o})[n := t[o]]) else Err(MissingEntry)
  }

  /** The `modifies` template for the non-unique table: the whole `Vec` under the old value (a missing one panics) is appended to the `Vec` under the new value. */
  function GroupRekeyed(t: map<nat, seq<nat>>, o: nat, n: nat): (r: Result<map<nat, seq<nat>>, Panic>)
    ensures r.Err? <==> o !in t
    ensures r.Err? ==> r.error == MissingEntry
    ensures r.Ok? ==> n in r.value && exists front :: r.value[n] == front + t[o]
    ensures r.Ok? && o != n ==> o !in r.value
  {
    if o in t then
      var rest := t - {o};
      Ok(rest[n := (if n in rest then rest[n] else []) + t[o]])
    else Err(MissingEntry)
  }

  /** Every table re-keyed from `o`'s values to `n`'s, in field order, unconditionally; the first panic stops the rest. */
  function Rekeyed(p: Snap, o: Elem, n: Elem): (r: (Snap, Option<Panic>))
    ensures r.0.store == p.store
    ensures r.1.None? <==> o.field1 in p.index1 && o.field2 in p.index2 && o.field3 in p.index3
    ensures r.1.Some? ==> r.1.value == MissingEntry
    ensures r.1.None? ==> n.field1 in r.0.index1 && n.field2 in r.0.index2 && n.field3 in r.0.index3
  {
    match UniqueRekeyed(p.index1, o.field1, n.field1)
    case Err(e) => (p, Some(e))
    case Ok(i1) =>
      match GroupRekeyed(p.index2, o.field2, n.field2)
      case Err(e) => (p.(index1 := i1), Some(e))
      case Ok(i2) =>
        match UniqueRekeyed(p.index3, o.field3, n.field3)
        case Err(e) => (p.(index1 := i1, index2 := i2), Some(e))
        case Ok(i3) => (p.(index1 := i1, index2 := i2, index3 := i3), None)
  }

  /**
   * `modify_by_field1` / `modify_by_field3`: the closure `g` rewrites the
   * record found through the table (a vacant slot panics), then every table
   * is re-keyed. The modified record is returned.
   */
  function ModifiedUnique(p: Snap, f: UniqueField, key: nat, g: Elem -> Elem): (r: (Snap, Result<Option<Elem>, Panic>))
    ensures r.1 == Ok(None) <==> key !in p.UTable(f)
    ensures r.1 == Err(VacantSlot) <==> key in p.UTable(f) && p.UTable(f)[key] !in p.store
    ensures r.1.Ok? && r.1.value.Some? ==>
      key in p.UTable(f) && p.UTable(f)[key] in p.store && r.1.value.value == g(p.store[p.UTable(f)[key]])
      && r.0.store == p.store[p.UTable(f)[key] := r.1.value.value]
  {
    if key !in p.UTable(f) then (p, Ok(None))
    else
      var s := p.UTable(f)[key];
      if s !in p.store then (p, Err(VacantSlot))
      else
        var n := g(p.store[s]);
        var q := Rekeyed(p.(store := p.store[s := n]), p.store[s], n);
        (q.0, if q.1.Some? then Err(q.1.value) else Ok(Some(n)))
  }

  /** The conditions under which a modification keeps a sound, complete map so. */
  ghost predicate RekeyKeeps(p: Snap, s: nat, o: Elem, n: Elem)
    requires o.field2 in p.index2
  {
    && (n.field1 == o.field1 || n.field1 !in p.index1)
    && (n.field3 == o.field3 || n.field3 !in p.index3)
    && (n.field2 == o.field2 || p.index2[o.field2] == [s])
  }

  lemma UniqueRekeyedKeeps(store: map<nat, Elem>, t: map<nat, nat>, f: UniqueField, s: nat, n: Elem)
    requires UniqueSound(store, t, f) && UniqueComplete(store, t, f) && s in store
    ensures UniqueRekeyed(t, UKey(store[s], f), UKey(n, f)).Ok?
    ensures var t' := UniqueRekeyed(t, UKey(store[s], f), UKey(n, f)).value;
      UniqueSound(store[s := n], t', f) && UniqueComplete(store[s := n], t', f)
      <==> UKey(n, f) == UKey(store[s], f) || UKey(n, f) !in t
  {
    var o := UKey(store[s], f);
    var k := UKey(n, f);
    var t' := UniqueRekeyed(t, o, k).value;
    assert t[o] == s;
    if k != o && k in t {
      var y := t[k];
      assert y != s && y in store[s := n] && UKey(store[s := n][y], f) == k && t'[k] == s;
    } else {
      forall x | x in store && x != s
        ensures UKey(store[x], f) != o && UKey(store[x], f) != k && t'[UKey(store[x], f)] == x
      {
        assert t[UKey(store[x], f)] == x;
      }
    }
  }

  lemma GroupRekeyedKeeps(store: map<nat, Elem>, t: map<nat, seq<nat>>, s: nat, n: Elem)
    requires GroupSound(store, t) && GroupComplete(store, t) && s in store
    ensures GroupRekeyed(t, store[s].field2, n.field2).Ok?
    ensures var t' := GroupRekeyed(t, store[s].field2, n.field2).value;
      GroupSound(store[s := n], t') && GroupComplete(store[s := n], t')
      <==> n.field2 == store[s].field2 || t[store[s].field2] == [s]
  {
    var o := store[s].field2;
    var k := n.field2;
    var t' := GroupRekeyed(t, o, k).value;
    var st := store[s := n];
    assert s in t[o];
    if k == o {
      assert [] + t[o] == t[o];
      assert t' == t;
    } else if t[o] == [s] {
      var prior := if k in t then t[k] else [];
      assert t'[k] == prior + [s];
      assert s !in prior;
      assert Distinct(prior + [s]);
      forall x | x in st
        ensures st[x].field2 in t' && x in t'[st[x].field2]
      {
        if x != s {
          assert x in t[store[x].field2];
          if store[x].field2 == k {
            assert x in prior;
          }
        }
      }
    } else {
      var w := t[o];
      if |w| == 1 {
        assert false;
      }
      var x := if w[0] != s then w[0] else w[1];
      assert x in w && x != s;
      assert x in t'[k] && st[x].field2 == o;
    }
  }

  /**
   * On a sound, complete map a modification through a present key never
   * panics, and it keeps the map sound and complete exactly when every
   * changed unique value is new and a changed non-unique value was held by
   * the modified record alone: otherwise a unique entry is silently taken
   * over, or the records sharing the old value move to the new one with it.
   */
  lemma ModifiedKeeps(p: Snap, f: UniqueField, key: nat, g: Elem -> Elem)
    requires Sound(p) && Complete(p) && key in p.UTable(f)
    ensures p.UTable(f)[key] in p.store && p.store[p.UTable(f)[key]].field2 in p.index2
    ensures ModifiedUnique(p, f, key, g).1 == Ok(Some(g(p.store[p.UTable(f)[key]])))
    ensures Sound(ModifiedUnique(p, f, key, g).0) && Complete(ModifiedUnique(p, f, key, g).0) <==>
      RekeyKeeps(p, p.UTable(f)[key], p.store[p.UTable(f)[key]], g(p.store[p.UTable(f)[key]]))
  {
    var s := p.UTable(f)[key];
    assert UniqueSound(p.store, p.UTable(f), f);
    var o := p.store[s];
    var n := g(o);
    UniqueRekeyedKeeps(p.store, p.index1, Field1, s, n);
    GroupRekeyedKeeps(p.store, p.index2, s, n);
    UniqueRekeyedKeeps(p.store, p.index3, Field3, s, n);
  }

  // ----- The non-unique table never holds an empty `Vec` -----

  /** The removal loop keeps every `Vec` non-empty. */
  lemma {:induction false} RemoveSlotsFilled(p: Snap, slots: seq<nat>)
    requires VecsFilled(p.index2)
    ensures VecsFilled(RemoveSlots(p, slots).0.index2)
    decreases |slots|
  {
    if slots != [] {
      RemoveSlotsFilled(p, slots[..|slots| - 1]);
    }
  }

  /**
   * Inserts and removals keep every `Vec` non-empty, whether or not the map
   * is sound: inserts push, removals delete whole keys.
   */
  lemma VecsStayFilled(p: Snap, e: Elem, s: nat, f: UniqueField, key: nat)
    requires VecsFilled(p.index2)
    ensures VecsFilled(Inserted(p, e, s).index2)
    ensures VecsFilled(RemovedUnique(p, f, key).0.index2)
    ensures VecsFilled(RemovedGroup(p, key).0.index2)
  {
    if key in p.index2 {
      RemoveSlotsFilled(p.(index2 := p.index2 - {key}), p.index2[key]);
    }
  }

  /**
   * So does a modification, which appends a non-empty `Vec` to another. So
   * the iterator's `expect` on an empty slice never fires.
   */
  lemma ModifiedFilled(p: Snap, f: UniqueField, key: nat, g: Elem -> Elem)
    requires VecsFilled(p.index2)
    ensures VecsFilled(ModifiedUnique(p, f, key, g).0.index2)
  {
    if key in p.UTable(f) && p.UTable(f)[key] in p.store {
      var o := p.store[p.UTable(f)[key]];
      GroupRekeyedFilled(p.index2, o.field2, g(o).field2);
    }
  }

  lemma GroupRekeyedFilled(t: map<nat, seq<nat>>, o: nat, n: nat)
    requires VecsFilled(t)
    ensures GroupRekeyed(t, o, n).Ok? ==> VecsFilled(GroupRekeyed(t, o, n).value)
  {
  }

  // ----- Scenarios -----

  /** The two records of tests/hashed_non_unique.rs, sharing the non-unique value 42 (field2 here). */
  const Earlier := Elem(0, 42, 1, 0, 0)
  const Later := Elem(1, 42, 0, 0, 0)

  /** The closure of that test: field2 becomes 43. */
  function Retag(e: Elem): (r: Elem)
    ensures r.field2 == 43 && r.field1 == e.field1 && r.field3 == e.field3
  {
    e.(field2 := 43)
  }

  /** Both records inserted, into slots 0 and 1. */
  const Shared := Snap(map[0 := Earlier, 1 := Later], map[0 := 0, 1 := 1], map[42 := [0, 1]], map[1 := 0, 0 := 1])

  /** After `Later` is modified through field3 by `Retag`. */
  const Moved := Snap(map[0 := Earlier, 1 := Retag(Later)], map[0 := 0, 1 := 1], map[43 := [0, 1]], map[1 := 0, 0 := 1])

  /** After `Earlier` is then removed through field1. */
  const Stale := Snap(map[1 := Retag(Later)], map[1 := 1], map[43 := [0, 1]], map[0 := 1])

  lemma SharedInserted()
    ensures Inserted(Inserted(Empty, Earlier, 0), Later, 1) == Shared
  {
    assert [] + [0] == [0] && [0] + [1] == [0, 1];
    assert Pushed(map[], 42, 0) == map[42 := [0]];
  }

  /**
   * tests/hashed_non_unique.rs:55-75: modifying one of two records sharing a
   * non-unique value moves the whole `Vec`, so both are listed under the new
   * value although `Earlier` still holds the old one.
   */
  lemma ModifyCarriesSharers()
    ensures ModifiedUnique(Shared, Field3, 0, Retag) == (Moved, Ok(Some(Retag(Later))))
    ensures GroupLookup(Moved, 43) == Ok([Earlier, Retag(Later)])
    ensures Moved.store[0].field2 == 42 && !Sound(Moved)
  {
    var n := Retag(Later);
    assert Shared.store[1 := n] == Moved.store;
    assert UniqueRekeyed(Shared.index1, 1, 1) == Ok(Moved.index1) by {
      assert (Shared.index1 - {1})[1 := 1] == Moved.index1;
    }
    assert GroupRekeyed(Shared.index2, 42, 43) == Ok(Moved.index2) by {
      assert Shared.index2 - {42} == map[];
      assert [] + [0, 1] == [0, 1];
    }
    assert UniqueRekeyed(Shared.index3, 0, 0) == Ok(Moved.index3) by {
      assert (Shared.index3 - {0})[0 := 1] == Moved.index3;
    }
    assert Moved.index2[43][0] == 0;
    assert [0, 1][..1] == [0] && [0][..0] == [];
    assert [] + [Earlier] == [Earlier] && [Earlier] + [Retag(Later)] == [Earlier, Retag(Later)];
  }

  /** tests/hashed_non_unique.rs:77-97: removing the new value then takes both records and empties the map. */
  lemma ModifiedGroupRemoved()
    ensures RemovedGroup(Moved, 43) == (Empty, [Earlier, Retag(Later)], None)
  {
    assert [0, 1][..1] == [0] && [0][..0] == [];
    var q := Moved.(index2 := map[]);
    var q1 := Snap(map[1 := Retag(Later)], map[1 := 1], map[], map[0 := 1]);
    assert RemoveSlots(q, [0]) == (q1, [Earlier], None) by {
      assert RemoveSlots(q, []) == (q, [], None);
      assert [] + [Earlier] == [Earlier];
      assert q.index2 - {42} == map[];
      assert q.store - {0} == q1.store;
      assert q.index1 - {0} == q1.index1;
      assert q.index3 - {1} == q1.index3;
    }
    assert RemoveSlot((q1, [Earlier], None), 1) == (Empty, [Earlier, Retag(Later)], None) by {
      assert q1.store - {1} == map[];
      assert q1.index2 - {43} == map[];
      assert [Earlier] + [Retag(Later)] == [Earlier, Retag(Later)];
      assert q1.index1 - {1} == map[];
      assert q1.index3 - {0} == map[];
    }
  }

  /**
   * Removing `Earlier` through field1 deletes only its own value's entry, so
   * its vacated slot stays listed under 43, and looking 43 up then indexes
   * a vacant slot and panics.
   */
  lemma StaleSlotPanics()
    ensures RemovedUnique(Moved, Field1, 0) == (Stale, Ok(Some(Earlier)))
    ensures GroupLookup(Stale, 43) == Err(VacantSlot)
  {
    assert Moved.store - {0} == Stale.store;
    assert Moved.index1 - {0} - {0} == Stale.index1;
    assert Moved.index2 - {42} == Stale.index2;
    assert Moved.index3 - {1} == Stale.index3;
    assert [0, 1][..1] == [0] && [0][..0] == [];
  }

  /** Two records with field1 7 but different field3, inserted into slots 0 and 1. */
  const Holder := Elem(7, 1, 10, 0, 0)
  const Usurper := Elem(7, 2, 20, 0, 0)

  /** After `Usurper` is removed through field3: `Holder` is stored but missing from the field1 table. */
  const Shadowed := Snap(map[0 := Holder], map[], map[1 := [0]], map[10 := 0])

  /**
   * Inserting `Usurper` silently takes over field1's entry for 7, and
   * removing it through field3 deletes that entry. `Holder` is still found
   * through field3, but modifying it through field3 panics on the `expect`
   * that finds every stored record's value in every table.
   */
  lemma ShadowedModifyPanics(g: Elem -> Elem)
    ensures RemovedUnique(Inserted(Inserted(Empty, Holder, 0), Usurper, 1), Field3, 20) == (Shadowed, Ok(Some(Usurper)))
    ensures ModifiedUnique(Shadowed, Field3, 10, g).1 == Err(MissingEntry)
  {
    var p := Inserted(Inserted(Empty, Holder, 0), Usurper, 1);
    assert [] + [0] == [0] && [] + [1] == [1];
    assert p.index3[20] == 1 && p.store[1] == Usurper;
    assert p.store - {1} == Shadowed.store;
    assert p.index1 - {7} == map[];
    assert p.index2 - {2} == Shadowed.index2;
    assert p.index3 - {20} - {20} == Shadowed.index3;
  }

  /** An empty map is sound and complete. */
  lemma EmptySoundComplete()
    ensures Sound(Empty) && Complete(Empty)
  {
  }
}
