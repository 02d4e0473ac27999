/**
 * The lookup tables of the container and the agreement between them and
 * the store.
 *
 * A unique field's table maps a value to the one slot holding it; a
 * non-unique field's table maps a value to the set of slots holding it.
 * `UniqueIndexed` and `GroupIndexed` are the agreement every emitted method
 * keeps: every occupied slot is registered under its current value, every
 * registration names an occupied slot holding that value, and (for
 * non-unique tables) no set is empty. The functions below are the table
 * edits the emitted code performs; the lemmas say which edits keep the
 * agreement.
 */
module Tables {
  import opened Wrappers
  import opened Element
  import opened Order
  import opened Slab

  /** The slots whose record has value `k` in the non-unique field `f`. */
  ghost function MatchingSlots(store: map<nat, Elem>, f: NonUniqueField, k: nat): set<nat>
  {
    set s | s in store && NKey(store[s], f) == k
  }

  /** A unique table agrees with the store. */
  ghost predicate UniqueIndexed(store: map<nat, Elem>, t: map<nat, nat>, f: UniqueField)
  {
    && (forall s :: s in store ==> UKey(store[s], f) in t && t[UKey(store[s], f)] == s)
    && (forall k :: k in t ==> t[k] in store && UKey(store[t[k]], f) == k)
  }

  /** A non-unique table agrees with the store and holds no empty set. */
  ghost predicate GroupIndexed(store: map<nat, Elem>, t: map<nat, set<nat>>, f: NonUniqueField)
  {
    && (forall s :: s in store ==> NKey(store[s], f) in t && s in t[NKey(store[s], f)])
    && (forall k :: k in t ==> t[k] != {})
    && (forall k, s :: k in t && s in t[k] ==> s in store && NKey(store[s], f) == k)
  }

  /**
   * `entry(k).or_insert(BTreeSet::new()).insert(s)`: add slot `s` to the set
   * under `k`, creating the set when `k` is absent.
   */
  function GroupAdd(t: map<nat, set<nat>>, k: nat, s: nat): (r: map<nat, set<nat>>)
    ensures r.Keys == t.Keys + {k}
    ensures r[k] == (if k in t then t[k] else {}) + {s}
    ensures forall j :: j in t && j != k ==> r[j] == t[j]
  {
    t[k := (if k in t then t[k] else {}) + {s}]
  }

  /**
   * The non-unique part of a removal: under `k`, a set of more than one slot
   * loses `s`; a set of one slot is dropped with its key; an absent key is
   * left alone.
   */
  function GroupRemove(t: map<nat, set<nat>>, k: nat, s: nat): (r: map<nat, set<nat>>)
    ensures k in r ==> k in t && s !in r[k] && r[k] <= t[k] && r[k] != {}
    ensures forall j :: j != k ==> (j in r <==> j in t) && (j in r ==> r[j] == t[j])
  {
    if k in t then
      if |t[k]| > 1 then
        assert t[k] - {s} != {} by {
          if s in t[k] {
            assert t[k] == (t[k] - {s}) + {s};
          } else {
            assert t[k] - {s} == t[k];
          }
        }
        t[k := t[k] - {s}]
      else t - {k}
    else t
  }

  /** The unique part of a re-key: only a changed value moves the slot. */
  function UniqueMove(t: map<nat, nat>, o: nat, n: nat, s: nat): (r: map<nat, nat>)
    ensures o != n ==> n in r && r[n] == s && o !in r
    ensures forall j :: j != o && j != n ==> (j in r <==> j in t) && (j in r ==> r[j] == t[j])
  {
    if o == n then t else (t - {o})[n := s]
  }

  /** The non-unique part of a re-key: only a changed value moves the slot. */
  function GroupMove(t: map<nat, set<nat>>, o: nat, n: nat, s: nat): (r: map<nat, set<nat>>)
    ensures o != n ==> n in r && s in r[n] && (o in r ==> s !in r[o])
    ensures forall j :: j != o && j != n ==> (j in r <==> j in t) && (j in r ==> r[j] == t[j])
  {
    if o == n then t else GroupAdd(GroupRemove(t, o, s), n, s)
  }

  /** Whether writing `n` for slot `s`, previously under `o`, hits another record's entry. */
  predicate Collides(t: map<nat, nat>, o: nat, n: nat)
  {
    o != n && n in t
  }

  // ---------------------------------------------------------------------
  // Reading the agreement

  /** Under agreement a unique value is registered exactly when some record holds it. */
  lemma UniqueLookup(store: map<nat, Elem>, t: map<nat, nat>, f: UniqueField, k: nat)
    requires UniqueIndexed(store, t, f)
    ensures k in t <==> exists s :: s in store && UKey(store[s], f) == k
  {
    if exists s :: s in store && UKey(store[s], f) == k {
      var s :| s in store && UKey(store[s], f) == k;
      assert UKey(store[s], f) in t;
    }
  }

  /** Two records never share a unique value under agreement. */
  lemma UniqueValuesDistinct(store: map<nat, Elem>, t: map<nat, nat>, f: UniqueField, s1: nat, s2: nat)
    requires UniqueIndexed(store, t, f)
    requires s1 in store && s2 in store && UKey(store[s1], f) == UKey(store[s2], f)
    ensures s1 == s2
  {
    assert t[UKey(store[s1], f)] == s1;
  }

  /** Two records that share a unique value leave no table that agrees with the store. */
  lemma SharedUniqueValueBreaks(store: map<nat, Elem>, t: map<nat, nat>, f: UniqueField, s1: nat, s2: nat)
    requires s1 in store && s2 in store && s1 != s2 && UKey(store[s1], f) == UKey(store[s2], f)
    ensures !UniqueIndexed(store, t, f)
  {
    if UniqueIndexed(store, t, f) {
      UniqueValuesDistinct(store, t, f, s1, s2);
    }
  }

  /** Under agreement the set under a value is exactly the slots holding it. */
  lemma GroupIsMatching(store: map<nat, Elem>, t: map<nat, set<nat>>, f: NonUniqueField, k: nat)
    requires GroupIndexed(store, t, f)
    ensures k in t ==> t[k] == MatchingSlots(store, f, k)
    ensures k !in t <==> MatchingSlots(store, f, k) == {}
  {
    forall s | s in MatchingSlots(store, f, k)
      ensures k in t
    {
      assert NKey(store[s], f) in t;
    }
    if k in t {
      var s :| s in t[k];
      assert s in MatchingSlots(store, f, k);
    }
  }

  /** The store determines an agreeing unique table. */
  lemma UniqueDetermined(store: map<nat, Elem>, t1: map<nat, nat>, t2: map<nat, nat>, f: UniqueField)
    requires UniqueIndexed(store, t1, f) && UniqueIndexed(store, t2, f)
    ensures t1 == t2
  {
    forall k | k in t1
      ensures k in t2 && t2[k] == t1[k]
    {
      assert UKey(store[t1[k]], f) == k;
    }
    forall k | k in t2
      ensures k in t1
    {
      assert UKey(store[t2[k]], f) == k;
    }
  }

  /** The store determines an agreeing non-unique table. */
  lemma GroupDetermined(store: map<nat, Elem>, t1: map<nat, set<nat>>, t2: map<nat, set<nat>>, f: NonUniqueField)
    requires GroupIndexed(store, t1, f) && GroupIndexed(store, t2, f)
    ensures t1 == t2
  {
    forall k
      ensures k in t1 <==> k in t2
      ensures k in t1 ==> t1[k] == t2[k]
    {
      GroupIsMatching(store, t1, f, k);
      GroupIsMatching(store, t2, f, k);
    }
  }

  /** A unique table that agrees with the store has one entry per record. */
  lemma {:induction false} UniqueSize(store: map<nat, Elem>, t: map<nat, nat>, f: UniqueField)
    requires UniqueIndexed(store, t, f)
    ensures |t| == |store|
    decreases |store|
  {
    if store == map[] {
      assert t.Keys == {};
    } else {
      var s :| s in store;
      var k := UKey(store[s], f);
      UniqueDrop(store, t, f, s);
      UniqueSize(store - {s}, t - {k}, f);
      assert (t - {k}).Keys == t.Keys - {k};
      assert (store - {s}).Keys == store.Keys - {s};
    }
  }

  // ---------------------------------------------------------------------
  // Edits that keep the agreement

  /** Registering a record stored in a vacant slot under a fresh unique value. */
  lemma UniqueAdd(store: map<nat, Elem>, t: map<nat, nat>, f: UniqueField, s: nat, e: Elem)
    requires UniqueIndexed(store, t, f) && s !in store && UKey(e, f) !in t
    ensures UniqueIndexed(store[s := e], t[UKey(e, f) := s], f)
  {
  }

  /** Registering a record stored in a vacant slot in a non-unique table. */
  lemma GroupAddSlot(store: map<nat, Elem>, t: map<nat, set<nat>>, f: NonUniqueField, s: nat, e: Elem)
    requires GroupIndexed(store, t, f) && s !in store
    ensures GroupIndexed(store[s := e], GroupAdd(t, NKey(e, f), s), f)
  {
    var store' := store[s := e];
    var t' := GroupAdd(t, NKey(e, f), s);
    forall k, x | k in t' && x in t'[k]
      ensures x in store' && NKey(store'[x], f) == k
    {
      if x != s {
        assert k in t && x in t[k];
      }
    }
  }

  /** Unregistering a record whose slot is vacated, from a unique table. */
  lemma UniqueDrop(store: map<nat, Elem>, t: map<nat, nat>, f: UniqueField, s: nat)
    requires UniqueIndexed(store, t, f) && s in store
    ensures UniqueIndexed(store - {s}, t - {UKey(store[s], f)}, f)
  {
    var k := UKey(store[s], f);
    forall j | j in t - {k}
      ensures t[j] in store - {s}
    {
      assert t[j] != s;
    }
  }

  /** Unregistering a record whose slot is vacated, from a non-unique table. */
  lemma GroupDrop(store: map<nat, Elem>, t: map<nat, set<nat>>, f: NonUniqueField, s: nat)
    requires GroupIndexed(store, t, f) && s in store
    ensures GroupIndexed(store - {s}, GroupRemove(t, NKey(store[s], f), s), f)
  {
    var k := NKey(store[s], f);
    var store' := store - {s};
    var t' := GroupRemove(t, k, s);
    assert s in t[k];
    assert |t[k] - {s}| == |t[k]| - 1;
    if |t[k]| <= 1 {
      assert t[k] - {s} == {};
      assert t[k] == {s};
    }
    forall x | x in store'
      ensures NKey(store'[x], f) in t' && x in t'[NKey(store'[x], f)]
    {
      assert x in store && x != s;
    }
    forall j | j in t'
      ensures t'[j] != {}
    {
      if j == k {
        assert |t'[k]| > 0;
      }
    }
  }

  /**
   * Dropping a whole value from a non-unique table together with every slot
   * registered under it.
   */
  lemma GroupDropKey(store: map<nat, Elem>, t: map<nat, set<nat>>, f: NonUniqueField, k: nat)
    requires GroupIndexed(store, t, f) && k in t
    ensures GroupIndexed(store - t[k], t - {k}, f)
  {
    var store' := store - t[k];
    forall x | x in store'
      ensures NKey(store'[x], f) in t - {k} && x in (t - {k})[NKey(store'[x], f)]
    {
      assert x in store && x !in t[k];
    }
    forall j, x | j in t - {k} && x in (t - {k})[j]
      ensures x in store' && NKey(store'[x], f) == j
    {
      assert x in store && NKey(store[x], f) == j;
      assert x !in t[k];
    }
  }

  /** Re-keying a record in place in a unique table, when no other record holds the new value. */
  lemma UniqueRekey(store: map<nat, Elem>, t: map<nat, nat>, f: UniqueField, s: nat, e: Elem)
    requires UniqueIndexed(store, t, f) && s in store
    requires !Collides(t, UKey(store[s], f), UKey(e, f))
    ensures UniqueIndexed(store[s := e], UniqueMove(t, UKey(store[s], f), UKey(e, f), s), f)
  {
    var o := UKey(store[s], f);
    if o != UKey(e, f) {
      UniqueDrop(store, t, f, s);
      UniqueAdd(store - {s}, t - {o}, f, s, e);
      assert (store - {s})[s := e] == store[s := e];
    }
  }

  /** Re-keying a record in place in a non-unique table. */
  lemma GroupRekey(store: map<nat, Elem>, t: map<nat, set<nat>>, f: NonUniqueField, s: nat, e: Elem)
    requires GroupIndexed(store, t, f) && s in store
    ensures GroupIndexed(store[s := e], GroupMove(t, NKey(store[s], f), NKey(e, f), s), f)
  {
    var o := NKey(store[s], f);
    if o != NKey(e, f) {
      GroupDrop(store, t, f, s);
      GroupAddSlot(store - {s}, GroupRemove(t, o, s), f, s, e);
      assert (store - {s})[s := e] == store[s := e];
    } else {
      var store' := store[s := e];
      forall k, x | k in t && x in t[k]
        ensures x in store' && NKey(store'[x], f) == k
      {
      }
    }
  }

  /** A record whose unindexed payload changes keeps every table in agreement. */
  lemma PayloadKeepsUnique(store: map<nat, Elem>, t: map<nat, nat>, f: UniqueField, s: nat, p: int)
    requires UniqueIndexed(store, t, f) && s in store
    ensures UniqueIndexed(store[s := WithPayload(store[s], p)], t, f)
  {
  }

  lemma PayloadKeepsGroup(store: map<nat, Elem>, t: map<nat, set<nat>>, f: NonUniqueField, s: nat, p: int)
    requires GroupIndexed(store, t, f) && s in store
    ensures GroupIndexed(store[s := WithPayload(store[s], p)], t, f)
  {
    var store' := store[s := WithPayload(store[s], p)];
    forall k, x | k in t && x in t[k]
      ensures x in store' && NKey(store'[x], f) == k
    {
    }
  }

  // ---------------------------------------------------------------------
  // All four tables together

  /** The four lookup tables, one per indexed field, in declaration order. */
  datatype Indexes = Indexes(
    index1: map<nat, nat>,        // field1, hashed unique
    index2: map<nat, set<nat>>,   // field2, hashed non-unique
    index3: map<nat, nat>,        // field3, ordered unique
    index4: map<nat, set<nat>>    // field4, ordered non-unique
  )

  function UTab(t: Indexes, f: UniqueField): map<nat, nat>
  {
    match f
    case Field1 => t.index1
    case Field3 => t.index3
  }

  function NTab(t: Indexes, f: NonUniqueField): map<nat, set<nat>>
  {
    match f
    case Field2 => t.index2
    case Field4 => t.index4
  }

  /** Every table agrees with the store. */
  ghost predicate Agrees(store: map<nat, Elem>, t: Indexes)
  {
    && UniqueIndexed(store, t.index1, Field1)
    && GroupIndexed(store, t.index2, Field2)
    && UniqueIndexed(store, t.index3, Field3)
    && GroupIndexed(store, t.index4, Field4)
  }

  /** Some tables agree with the store: no two records share a unique value. */
  ghost predicate Indexable(store: map<nat, Elem>)
  {
    exists t :: Agrees(store, t)
  }

  /** Some record other than the one in slot `s` holds `k` in the unique field `f`. */
  ghost predicate HeldElsewhere(store: map<nat, Elem>, f: UniqueField, k: nat, s: nat)
  {
    exists x :: x in store && x != s && UKey(store[x], f) == k
  }

  /**
   * The inserts of `insert`, field by field in declaration order: a unique
   * table maps the value to the new slot (overwriting any entry), a
   * non-unique table adds the slot to the value's set. A unique value that
   * was already present stops the sequence with a uniqueness violation, after
   * its own table has been written.
   */
  function Registered(t: Indexes, e: Elem, s: nat): (r: (Indexes, Option<UniquenessError>))
    ensures e.field1 in r.0.index1 && r.0.index1[e.field1] == s
    ensures r.1.None? ==> e.field3 in r.0.index3 && r.0.index3[e.field3] == s
    ensures r.1.None? ==> e.field2 in r.0.index2 && s in r.0.index2[e.field2]
    ensures r.1.None? ==> e.field4 in r.0.index4 && s in r.0.index4[e.field4]
  {
    var t1 := t.index1[e.field1 := s];
    if e.field1 in t.index1 then (t.(index1 := t1), Some(UniquenessError(Field1)))
    else
      var t2 := GroupAdd(t.index2, e.field2, s);
      var t3 := t.index3[e.field3 := s];
      if e.field3 in t.index3 then (Indexes(t1, t2, t3, t.index4), Some(UniquenessError(Field3)))
      else (Indexes(t1, t2, t3, GroupAdd(t.index4, e.field4, s)), None)
  }

  /** The removes of a remover, for the record `e` that was in slot `s`. */
  function Unregistered(t: Indexes, e: Elem, s: nat): (r: Indexes)
    ensures e.field1 !in r.index1 && e.field3 !in r.index3
    ensures e.field2 in r.index2 ==> s !in r.index2[e.field2]
    ensures e.field4 in r.index4 ==> s !in r.index4[e.field4]
    ensures forall k :: k in r.index1 ==> k in t.index1 && r.index1[k] == t.index1[k]
    ensures forall k :: k in r.index3 ==> k in t.index3 && r.index3[k] == t.index3[k]
  {
    Indexes(
      t.index1 - {e.field1},
      GroupRemove(t.index2, e.field2, s),
      t.index3 - {e.field3},
      GroupRemove(t.index4, e.field4, s))
  }

  /**
   * The post-modify steps, field by field in declaration order, for the
   * record in slot `s` changed from `o` to `n`: only changed fields move the
   * slot; a unique value already held stops the sequence with a uniqueness
   * violation, after its own table has been written.
   */
  function Rekeyed(t: Indexes, o: Elem, n: Elem, s: nat): (r: (Indexes, Option<UniquenessError>))
    ensures r.1.None? <==> !Collides(t.index1, o.field1, n.field1) && !Collides(t.index3, o.field3, n.field3)
    ensures r.1 == Some(UniquenessError(Field1)) <==> Collides(t.index1, o.field1, n.field1)
    ensures o == n ==> r == (t, None)
    ensures r.1.None? && n.field1 != o.field1 ==> n.field1 in r.0.index1 && r.0.index1[n.field1] == s
    ensures r.1.None? && n.field3 != o.field3 ==> n.field3 in r.0.index3 && r.0.index3[n.field3] == s
    ensures r.1.None? && n.field2 != o.field2 ==> n.field2 in r.0.index2 && s in r.0.index2[n.field2]
    ensures r.1.None? && n.field4 != o.field4 ==> n.field4 in r.0.index4 && s in r.0.index4[n.field4]
  {
    var t1 := UniqueMove(t.index1, o.field1, n.field1, s);
    if Collides(t.index1, o.field1, n.field1) then (t.(index1 := t1), Some(UniquenessError(Field1)))
    else
      var t2 := GroupMove(t.index2, o.field2, n.field2, s);
      var t3 := UniqueMove(t.index3, o.field3, n.field3, s);
      if Collides(t.index3, o.field3, n.field3) then (Indexes(t1, t2, t3, t.index4), Some(UniquenessError(Field3)))
      else (Indexes(t1, t2, t3, GroupMove(t.index4, o.field4, n.field4, s)), None)
  }

  /**
   * Inserting into a vacant slot keeps the tables in agreement exactly when
   * no record already holds one of the new record's unique values; otherwise
   * the violation names the first such field and no tables agree with the
   * resulting store.
   */
  lemma RegisteredKeeps(store: map<nat, Elem>, t: Indexes, e: Elem, s: nat)
    requires Agrees(store, t) && s !in store
    ensures Registered(t, e, s).1 == Some(UniquenessError(Field1)) <==> HeldElsewhere(store, Field1, e.field1, s)
    ensures Registered(t, e, s).1 == Some(UniquenessError(Field3))
        <==> !HeldElsewhere(store, Field1, e.field1, s) && HeldElsewhere(store, Field3, e.field3, s)
    ensures Registered(t, e, s).1 == None ==> Agrees(store[s := e], Registered(t, e, s).0)
    ensures Registered(t, e, s).1 != None ==> !Indexable(store[s := e])
  {
    UniqueLookup(store, t.index1, Field1, e.field1);
    UniqueLookup(store, t.index3, Field3, e.field3);
    var store' := store[s := e];
    if e.field1 in t.index1 {
      var x := t.index1[e.field1];
      if t' :| Agrees(store', t') {
        SharedUniqueValueBreaks(store', t'.index1, Field1, x, s);
      }
    } else if e.field3 in t.index3 {
      var x := t.index3[e.field3];
      if t' :| Agrees(store', t') {
        SharedUniqueValueBreaks(store', t'.index3, Field3, x, s);
      }
    } else {
      UniqueAdd(store, t.index1, Field1, s, e);
      GroupAddSlot(store, t.index2, Field2, s, e);
      UniqueAdd(store, t.index3, Field3, s, e);
      GroupAddSlot(store, t.index4, Field4, s, e);
    }
  }

  /** Vacating an occupied slot and unregistering its record keeps the tables in agreement. */
  lemma UnregisteredKeeps(store: map<nat, Elem>, t: Indexes, s: nat)
    requires Agrees(store, t) && s in store
    ensures Agrees(store - {s}, Unregistered(t, store[s], s))
  {
    UniqueDrop(store, t.index1, Field1, s);
    GroupDrop(store, t.index2, Field2, s);
    UniqueDrop(store, t.index3, Field3, s);
    GroupDrop(store, t.index4, Field4, s);
  }

  /**
   * Changing the record in an occupied slot and re-keying keeps the tables in
   * agreement exactly when no other record holds one of the new unique
   * values; otherwise the violation names the first such field and no tables
   * agree with the resulting store.
   */
  lemma RekeyedKeeps(store: map<nat, Elem>, t: Indexes, s: nat, n: Elem)
    requires Agrees(store, t) && s in store
    ensures Rekeyed(t, store[s], n, s).1 == Some(UniquenessError(Field1)) <==> HeldElsewhere(store, Field1, n.field1, s)
    ensures Rekeyed(t, store[s], n, s).1 == Some(UniquenessError(Field3))
        <==> !HeldElsewhere(store, Field1, n.field1, s) && HeldElsewhere(store, Field3, n.field3, s)
    ensures Rekeyed(t, store[s], n, s).1 == None ==> Agrees(store[s := n], Rekeyed(t, store[s], n, s).0)
    ensures Rekeyed(t, store[s], n, s).1 != None ==> !Indexable(store[s := n])
  {
    var o := store[s];
    var store' := store[s := n];
    CollidesIffHeldElsewhere(store, t.index1, Field1, s, n);
    CollidesIffHeldElsewhere(store, t.index3, Field3, s, n);
    if Collides(t.index1, o.field1, n.field1) {
      var x :| x in store && x != s && UKey(store[x], Field1) == n.field1;
      if t' :| Agrees(store', t') {
        SharedUniqueValueBreaks(store', t'.index1, Field1, x, s);
      }
    } else if Collides(t.index3, o.field3, n.field3) {
      var x :| x in store && x != s && UKey(store[x], Field3) == n.field3;
      if t' :| Agrees(store', t') {
        SharedUniqueValueBreaks(store', t'.index3, Field3, x, s);
      }
    } else {
      UniqueRekey(store, t.index1, Field1, s, n);
      GroupRekey(store, t.index2, Field2, s, n);
      UniqueRekey(store, t.index3, Field3, s, n);
      GroupRekey(store, t.index4, Field4, s, n);
    }
  }

  /** Under agreement, a re-key collides exactly when another record holds the new value. */
  lemma CollidesIffHeldElsewhere(store: map<nat, Elem>, t: map<nat, nat>, f: UniqueField, s: nat, n: Elem)
    requires UniqueIndexed(store, t, f) && s in store
    ensures Collides(t, UKey(store[s], f), UKey(n, f)) <==> HeldElsewhere(store, f, UKey(n, f), s)
  {
    var k := UKey(n, f);
    UniqueLookup(store, t, f, k);
    if HeldElsewhere(store, f, k, s) {
      var x :| x in store && x != s && UKey(store[x], f) == k;
      if UKey(store[s], f) == k {
        UniqueValuesDistinct(store, t, f, x, s);
      }
    }
    if Collides(t, UKey(store[s], f), k) {
      assert t[k] in store && t[k] != s;
    }
  }

  /** The store determines the tables that agree with it. */
  lemma AgreementDetermines(store: map<nat, Elem>, t1: Indexes, t2: Indexes)
    requires Agrees(store, t1) && Agrees(store, t2)
    ensures t1 == t2
  {
    UniqueDetermined(store, t1.index1, t2.index1, Field1);
    GroupDetermined(store, t1.index2, t2.index2, Field2);
    UniqueDetermined(store, t1.index3, t2.index3, Field3);
    GroupDetermined(store, t1.index4, t2.index4, Field4);
  }

  /** Agreement, read for one unique table through its field selector. */
  lemma AgreesUnique(store: map<nat, Elem>, t: Indexes, f: UniqueField)
    requires Agrees(store, t)
    ensures UniqueIndexed(store, UTab(t, f), f)
  {
    match f {
      case Field1 =>
      case Field3 =>
    }
  }

  /** Agreement, read for one non-unique table through its field selector. */
  lemma AgreesGroup(store: map<nat, Elem>, t: Indexes, f: NonUniqueField)
    requires Agrees(store, t)
    ensures GroupIndexed(store, NTab(t, f), f)
  {
    match f {
      case Field2 =>
      case Field4 =>
    }
  }

  /** Changing only the unindexed payload of a record keeps every table in agreement. */
  lemma PayloadKeepsAll(store: map<nat, Elem>, t: Indexes, s: nat, p: int)
    requires Agrees(store, t) && s in store
    ensures Agrees(store[s := WithPayload(store[s], p)], t)
  {
    PayloadKeepsUnique(store, t.index1, Field1, s, p);
    PayloadKeepsGroup(store, t.index2, Field2, s, p);
    PayloadKeepsUnique(store, t.index3, Field3, s, p);
    PayloadKeepsGroup(store, t.index4, Field4, s, p);
  }

  /**
   * The tables with the key `k` of the non-unique field `f` registered for
   * exactly the slots `rest` (and absent when `rest` is empty). A remover
   * that has already dropped `k` agrees with the store in this form while it
   * still holds the slots `rest`.
   */
  function WithGroup(t: Indexes, f: NonUniqueField, k: nat, rest: set<nat>): (r: Indexes)
    ensures NTab(r, f) == if rest == {} then NTab(t, f) - {k} else NTab(t, f)[k := rest]
  {
    var g := if rest == {} then NTab(t, f) - {k} else NTab(t, f)[k := rest];
    match f
    case Field2 => t.(index2 := g)
    case Field4 => t.(index4 := g)
  }

  /** Dropping a key's whole set and then restoring it gives back the tables. */
  lemma WithGroupRestores(t: Indexes, f: NonUniqueField, k: nat)
    requires k in NTab(t, f) && NTab(t, f)[k] != {}
    ensures WithGroup(DropKey(t, f, k), f, k, NTab(t, f)[k]) == t
  {
    assert (NTab(t, f) - {k})[k := NTab(t, f)[k]] == NTab(t, f);
  }

  /** The tables with the key `k` of the non-unique field `f` dropped. */
  function DropKey(t: Indexes, f: NonUniqueField, k: nat): (r: Indexes)
    ensures NTab(r, f) == NTab(t, f) - {k}
    ensures r.index1 == t.index1 && r.index3 == t.index3
  {
    match f
    case Field2 => t.(index2 := t.index2 - {k})
    case Field4 => t.(index4 := t.index4 - {k})
  }

  /**
   * One round of a non-unique remover: unregistering one of the slots still
   * held under the dropped key `k` is the same as unregistering it from the
   * real tables and holding one slot fewer under `k`.
   */
  lemma WithGroupUnregister(t: Indexes, f: NonUniqueField, k: nat, rest: set<nat>, e: Elem, s: nat)
    requires k !in NTab(t, f) && s in rest && NKey(e, f) == k
    ensures k !in NTab(Unregistered(t, e, s), f)
    ensures Unregistered(WithGroup(t, f, k, rest), e, s) == WithGroup(Unregistered(t, e, s), f, k, rest - {s})
  {
    assert |rest - {s}| == |rest| - 1;
    assert NTab(t, f)[k := rest] - {k} == NTab(t, f) - {k};
    match f {
      case Field2 =>
        assert GroupRemove(t.index2, k, s) == t.index2;
      case Field4 =>
        assert GroupRemove(t.index4, k, s) == t.index4;
    }
  }

  /** The tables with the key `k` of the unique field `f` dropped. */
  function DropUnique(t: Indexes, f: UniqueField, k: nat): (r: Indexes)
    ensures UTab(r, f) == UTab(t, f) - {k}
    ensures r.index2 == t.index2 && r.index4 == t.index4
  {
    match f
    case Field1 => t.(index1 := t.index1 - {k})
    case Field3 => t.(index3 := t.index3 - {k})
  }

  /** A unique remover's first step, dropping the record's own key, is absorbed by unregistering the record. */
  lemma DropUniqueUnregistered(t: Indexes, f: UniqueField, e: Elem, s: nat)
    ensures Unregistered(DropUnique(t, f, UKey(e, f)), e, s) == Unregistered(t, e, s)
  {
    match f {
      case Field1 =>
        assert t.index1 - {e.field1} - {e.field1} == t.index1 - {e.field1};
      case Field3 =>
        assert t.index3 - {e.field3} - {e.field3} == t.index3 - {e.field3};
    }
  }

  /**
   * One round of a non-unique remover keeps the agreement: a slot still held
   * under the dropped key is occupied by a record with that key, and
   * vacating and unregistering it leaves the remaining slots held.
   */
  lemma VacateHeld(store: map<nat, Elem>, t: Indexes, f: NonUniqueField, k: nat, rest: set<nat>, s: nat)
    requires k !in NTab(t, f) && Agrees(store, WithGroup(t, f, k, rest)) && s in rest
    ensures s in store && NKey(store[s], f) == k
    ensures k !in NTab(Unregistered(t, store[s], s), f)
    ensures Agrees(store - {s}, WithGroup(Unregistered(t, store[s], s), f, k, rest - {s}))
  {
    var w := WithGroup(t, f, k, rest);
    AgreesGroup(store, w, f);
    assert rest != {};
    assert k in NTab(w, f) && s in NTab(w, f)[k];
    UnregisteredKeeps(store, w, s);
    WithGroupUnregister(t, f, k, rest, store[s], s);
  }

  /** The removes of a non-unique remover's loop, for the records of `slots` in turn. */
  function UnregisteredAll(t: Indexes, store: map<nat, Elem>, slots: seq<nat>): Indexes
    requires forall x :: x in slots ==> x in store
  {
    if slots == [] then t
    else
      var last := slots[|slots| - 1];
      Unregistered(UnregisteredAll(t, store, slots[..|slots| - 1]), store[last], last)
  }

  /** The last round of a non-unique remover's loop, on the store and on the tables. */
  lemma UnregisteredAllSnoc(store: map<nat, Elem>, t: Indexes, done: seq<nat>)
    requires done != [] && (forall x :: x in done ==> x in store)
    requires done[|done| - 1] !in done[..|done| - 1]
    ensures var s, init := done[|done| - 1], done[..|done| - 1];
      && s in Vacated(store, init) && Vacated(store, init)[s] == store[s]
      && Vacated(store, done) == Vacated(store, init) - {s}
      && UnregisteredAll(t, store, done) == Unregistered(UnregisteredAll(t, store, init), store[s], s)
  {
  }

  /**
   * A non-unique remover part-way through: once the key's whole set is
   * dropped and the slots `done` (each once) are vacated and unregistered,
   * the tables agree with the remaining store when the key is taken to hold
   * exactly the slots `rest` not yet reached; at the end nothing is left to
   * hold and the tables themselves agree.
   */
  lemma {:induction false} UnregisteredAllKeeps(store: map<nat, Elem>, t: Indexes, f: NonUniqueField, k: nat, done: seq<nat>, rest: set<nat>)
    requires Agrees(store, t) && k in NTab(t, f)
    requires Distinct(done) && (forall x :: x in done ==> x !in rest)
    requires forall x :: x in NTab(t, f)[k] <==> x in done || x in rest
    ensures forall x :: x in done ==> x in store
    ensures k !in NTab(UnregisteredAll(DropKey(t, f, k), store, done), f)
    ensures Agrees(Vacated(store, done), WithGroup(UnregisteredAll(DropKey(t, f, k), store, done), f, k, rest))
    decreases |done|
  {
    assert forall x :: x in done ==> x in store by {
      AgreesGroup(store, t, f);
    }
    var d := DropKey(t, f, k);
    if done == [] {
      assert rest == NTab(t, f)[k];
      WithGroupRestores(t, f, k);
    } else {
      var init, s := done[..|done| - 1], done[|done| - 1];
      SplitLast(done, rest);
      UnregisteredAllKeeps(store, t, f, k, init, rest + {s});
      UnregisteredAllKeepsStep(store, d, f, k, done, rest);
    }
  }

  /** Moving the last of the slots reached back to the slots still to reach. */
  lemma SplitLast(done: seq<nat>, rest: set<nat>)
    requires done != [] && Distinct(done) && (forall x :: x in done ==> x !in rest)
    ensures var init, s := done[..|done| - 1], done[|done| - 1];
      && Distinct(init) && s !in init && s !in rest
      && (forall x :: x in init ==> x !in rest + {s})
      && (forall x :: x in done || x in rest <==> x in init || x in rest + {s})
  {
    var init, s := done[..|done| - 1], done[|done| - 1];
    assert done == init + [s];
    assert forall j :: 0 <= j < |done| - 1 ==> done[j] != done[|done| - 1];
  }

  /** The last round of `UnregisteredAllKeeps`: vacating one more slot held under the dropped key. */
  lemma UnregisteredAllKeepsStep(store: map<nat, Elem>, d: Indexes, f: NonUniqueField, k: nat, done: seq<nat>, rest: set<nat>)
    requires done != [] && (forall x :: x in done ==> x in store)
    requires done[|done| - 1] !in done[..|done| - 1] && done[|done| - 1] !in rest
    requires var init := done[..|done| - 1];
      && k !in NTab(UnregisteredAll(d, store, init), f)
      && Agrees(Vacated(store, init), WithGroup(UnregisteredAll(d, store, init), f, k, rest + {done[|done| - 1]}))
    ensures k !in NTab(UnregisteredAll(d, store, done), f)
    ensures Agrees(Vacated(store, done), WithGroup(UnregisteredAll(d, store, done), f, k, rest))
  {
    var init, s := done[..|done| - 1], done[|done| - 1];
    UnregisteredAllSnoc(store, d, done);
    assert (rest + {s}) - {s} == rest;
    VacateHeld(Vacated(store, init), UnregisteredAll(d, store, init), f, k, rest + {s}, s);
  }

  /**
   * A whole non-unique remover: dropping the key's set and then vacating and
   * unregistering its slots in ascending order leaves tables that agree with
   * the store and no longer hold the key.
   */
  lemma RemovedGroupKeeps(store: map<nat, Elem>, t: Indexes, f: NonUniqueField, k: nat, store': map<nat, Elem>, t': Indexes)
    requires Agrees(store, t) && k in NTab(t, f)
    requires store' == store - NTab(t, f)[k]
    requires (forall x :: x in Sorted(NTab(t, f)[k]) ==> x in store) && t' == UnregisteredAll(DropKey(t, f, k), store, Sorted(NTab(t, f)[k]))
    ensures Agrees(store', t') && k !in NTab(t', f)
  {
    var idxs := NTab(t, f)[k];
    var order := Sorted(idxs);
    SortedEnumerates(idxs);
    UnregisteredAllKeeps(store, t, f, k, order, {});
    WithGroupEmpty(UnregisteredAll(DropKey(t, f, k), store, order), f, k);
    VacatedAll(store, order, idxs);
  }

  /**
   * The slots a non-unique remover vacates are exactly those of the records
   * holding the key, and the store loses that many records.
   */
  lemma RemovedGroupSlots(store: map<nat, Elem>, t: Indexes, f: NonUniqueField, k: nat)
    requires Agrees(store, t) && k in NTab(t, f)
    ensures NTab(t, f)[k] == MatchingSlots(store, f, k)
    ensures forall x :: x in NTab(t, f)[k] ==> x in store
    ensures |store - NTab(t, f)[k]| == |store| - |NTab(t, f)[k]|
  {
    var idxs := NTab(t, f)[k];
    assert idxs == MatchingSlots(store, f, k) && forall x :: x in idxs ==> x in store by {
      AgreesGroup(store, t, f);
      GroupIsMatching(store, NTab(t, f), f, k);
    }
    VacateCount(store, idxs);
  }

  /** No slots left under a key the table does not hold: the tables themselves. */
  lemma WithGroupEmpty(t: Indexes, f: NonUniqueField, k: nat)
    requires k !in NTab(t, f)
    ensures WithGroup(t, f, k, {}) == t
  {
    assert NTab(t, f) - {k} == NTab(t, f);
    match f {
      case Field2 =>
      case Field4 =>
    }
  }

  /** Under agreement a non-unique table is empty exactly when the store is. */
  lemma GroupEmptyIffStoreEmpty(store: map<nat, Elem>, t: map<nat, set<nat>>, f: NonUniqueField)
    requires GroupIndexed(store, t, f)
    ensures t == map[] <==> store == map[]
  {
    if store != map[] {
      var s :| s in store;
      assert NKey(store[s], f) in t;
    }
    if t != map[] {
      var k :| k in t;
      var s :| s in t[k];
      assert s in store;
    }
  }

  // ---------------------------------------------------------------------
  // Modifiers and updaters

  /**
   * The loop of `modify_by_field2` / `modify_by_field4` over `slots` in
   * order: each record is replaced by its image under the closure `g` and
   * the post-modify steps re-key it; a uniqueness violation ends the loop
   * (the emitted code panics there). The store, the tables and the
   * violation, if any, after the loop.
   */
  function ModifiedAll(store: map<nat, Elem>, t: Indexes, slots: seq<nat>, g: Elem -> Elem)
    : (r: (map<nat, Elem>, Indexes, Option<UniquenessError>))
    requires forall x :: x in slots ==> x in store
    ensures r.0.Keys == store.Keys
    decreases |slots|
  {
    if slots == [] then (store, t, None)
    else ModifiedOne(ModifiedAll(store, t, slots[..|slots| - 1], g), slots[|slots| - 1], g)
  }

  /** One round of a modifier's loop, on slot `s`; nothing happens once a violation has occurred. */
  function ModifiedOne(p: (map<nat, Elem>, Indexes, Option<UniquenessError>), s: nat, g: Elem -> Elem)
    : (r: (map<nat, Elem>, Indexes, Option<UniquenessError>))
    requires s in p.0
    ensures r.0.Keys == p.0.Keys
  {
    if p.2.Some? then p
    else
      var n := g(p.0[s]);
      var q := Rekeyed(p.1, p.0[s], n, s);
      (p.0[s := n], q.0, q.1)
  }

  /** Once a violation has ended the loop, the slots after it change nothing. */
  lemma {:induction false} ModifiedAllStops(store: map<nat, Elem>, t: Indexes, slots: seq<nat>, i: nat, g: Elem -> Elem)
    requires forall x :: x in slots ==> x in store
    requires i <= |slots| && ModifiedAll(store, t, slots[..i], g).2.Some?
    ensures ModifiedAll(store, t, slots, g) == ModifiedAll(store, t, slots[..i], g)
    decreases |slots| - i
  {
    if i < |slots| {
      var j := |slots| - 1;
      assert slots[..j][..i] == slots[..i];
      ModifiedAllStops(store, t, slots[..j], i, g);
    } else {
      assert slots[..i] == slots;
    }
  }

  /**
   * A modifier's loop started from tables that agree with the store: without
   * a violation the tables still agree with the store it leaves; with one,
   * that store has two records sharing a unique value, so no tables can agree
   * with it.
   */
  lemma {:induction false} ModifiedAllKeeps(store: map<nat, Elem>, t: Indexes, slots: seq<nat>, g: Elem -> Elem)
    requires Agrees(store, t) && forall x :: x in slots ==> x in store
    ensures ModifiedAll(store, t, slots, g).2.None? ==> Agrees(ModifiedAll(store, t, slots, g).0, ModifiedAll(store, t, slots, g).1)
    ensures ModifiedAll(store, t, slots, g).2.Some? ==> !Indexable(ModifiedAll(store, t, slots, g).0)
    decreases |slots|
  {
    if slots != [] {
      var init := slots[..|slots| - 1];
      ModifiedAllKeeps(store, t, init, g);
      ModifiedOneKeeps(ModifiedAll(store, t, init, g), slots[|slots| - 1], g);
    }
  }

  /** One round of a modifier's loop keeps agreement, or leaves a store no tables agree with. */
  lemma ModifiedOneKeeps(p: (map<nat, Elem>, Indexes, Option<UniquenessError>), s: nat, g: Elem -> Elem)
    requires s in p.0
    requires p.2.None? ==> Agrees(p.0, p.1)
    requires p.2.Some? ==> !Indexable(p.0)
    ensures ModifiedOne(p, s, g).2.None? ==> Agrees(ModifiedOne(p, s, g).0, ModifiedOne(p, s, g).1)
    ensures ModifiedOne(p, s, g).2.Some? ==> !Indexable(ModifiedOne(p, s, g).0)
  {
    if p.2.None? {
      RekeyedKeeps(p.0, p.1, s, g(p.0[s]));
    }
  }

  /**
   * A modifier's loop over distinct slots replaces each listed record by its
   * image under `g`, as long as no violation has ended it, and leaves every
   * other record untouched.
   */
  lemma {:induction false} ModifiedAllContents(store: map<nat, Elem>, t: Indexes, slots: seq<nat>, g: Elem -> Elem)
    requires Distinct(slots) && forall x :: x in slots ==> x in store
    ensures var r := ModifiedAll(store, t, slots, g);
      r.2.None? ==> forall x :: x in slots ==> r.0[x] == g(store[x])
    ensures var r := ModifiedAll(store, t, slots, g);
      forall x :: x in store && x !in slots ==> r.0[x] == store[x]
    decreases |slots|
  {
    if slots != [] {
      var j := |slots| - 1;
      var init, s := slots[..j], slots[j];
      assert slots == init + [s];
      DistinctSplit(slots);
      ModifiedAllContents(store, t, init, g);
      assert forall x :: x in slots <==> x in init || x == s;
    }
  }

  /** The last element of a sequence without duplicates is not among the others. */
  lemma DistinctSplit(slots: seq<nat>)
    requires Distinct(slots) && slots != []
    ensures Distinct(slots[..|slots| - 1]) && slots[|slots| - 1] !in slots[..|slots| - 1]
  {
    var j := |slots| - 1;
    forall i | 0 <= i < j
      ensures slots[..j][i] != slots[j]
    {
      assert slots[i] != slots[j];
    }
  }

  /**
   * The store after `update_by_field2` / `update_by_field4`: the records in
   * `idxs` have their unindexed payload mapped by the closure `u`, every
   * other record is untouched.
   */
  function PayloadsUpdated(store: map<nat, Elem>, idxs: set<nat>, u: int -> int): (r: map<nat, Elem>)
    ensures r.Keys == store.Keys
    ensures forall x :: x in r ==> r[x].(payload := store[x].payload) == store[x]
    ensures forall x :: x in r ==> r[x].payload == if x in idxs then u(store[x].payload) else store[x].payload
  {
    map x | x in store :: if x in idxs then WithPayload(store[x], u(store[x].payload)) else store[x]
  }

  /** Two stores over the same slots whose records agree on every indexed field. */
  ghost predicate SameIndexedValues(a: map<nat, Elem>, b: map<nat, Elem>)
  {
    && a.Keys == b.Keys
    && (forall x :: x in a ==> (forall f :: UKey(a[x], f) == UKey(b[x], f)) && (forall f :: NKey(a[x], f) == NKey(b[x], f)))
  }

  /** A unique table that agrees with a store agrees with any store differing only in unindexed values. */
  lemma UniqueSameIndexed(a: map<nat, Elem>, b: map<nat, Elem>, t: map<nat, nat>, f: UniqueField)
    requires UniqueIndexed(a, t, f) && SameIndexedValues(a, b)
    ensures UniqueIndexed(b, t, f)
  {
    forall k | k in t
      ensures t[k] in b && UKey(b[t[k]], f) == k
    {
      assert UKey(a[t[k]], f) == k;
    }
  }

  /** A non-unique table that agrees with a store agrees with any store differing only in unindexed values. */
  lemma GroupSameIndexed(a: map<nat, Elem>, b: map<nat, Elem>, t: map<nat, set<nat>>, f: NonUniqueField)
    requires GroupIndexed(a, t, f) && SameIndexedValues(a, b)
    ensures GroupIndexed(b, t, f)
  {
    forall k, x | k in t && x in t[k]
      ensures x in b && NKey(b[x], f) == k
    {
      assert NKey(a[x], f) == k;
    }
  }

  /** Tables that agree with a store agree with any store differing only in unindexed values. */
  lemma AgreesSameIndexed(a: map<nat, Elem>, b: map<nat, Elem>, t: Indexes)
    requires Agrees(a, t) && SameIndexedValues(a, b)
    ensures Agrees(b, t)
  {
    UniqueSameIndexed(a, b, t.index1, Field1);
    GroupSameIndexed(a, b, t.index2, Field2);
    UniqueSameIndexed(a, b, t.index3, Field3);
    GroupSameIndexed(a, b, t.index4, Field4);
  }

  /** Updating payloads keeps the tables in agreement and every record under its values. */
  lemma PayloadsUpdatedKeeps(store: map<nat, Elem>, t: Indexes, idxs: set<nat>, u: int -> int)
    requires Agrees(store, t)
    ensures Agrees(PayloadsUpdated(store, idxs, u), t)
    ensures forall f, k :: MatchingSlots(PayloadsUpdated(store, idxs, u), f, k) == MatchingSlots(store, f, k)
  {
    AgreesSameIndexed(store, PayloadsUpdated(store, idxs, u), t);
  }
}
