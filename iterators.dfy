/**
 * The iterators `iter_by_F` returns.
 *
 * An iterator holds a reference to the store (`_store_ref`), an iterator
 * over the lookup table (`_iter`), for ordered tables a second, reversed
 * iterator over the same table (`_iter_rev`), and for non-unique tables the
 * iterator over the current key's slots (`_inner_iter`), which `next` and
 * `next_back` share. The model keeps the store and the table as they were
 * when the iterator was made (the borrow forbids changing them meanwhile),
 * the order in which the table yields its keys, how many keys each outer
 * iterator has consumed, and what the inner iterator has not yet yielded.
 *
 * What each direction has still to yield is a view, `Forward()` and
 * `Backward()`; `Next` and `NextBack` are proved to pop the head of their
 * own view.
 */
module Iterators {
  import opened Wrappers
  import opened Element
  import opened Order

  /** The records at the given slots, in order. */
  function Records(store: map<nat, Elem>, slots: seq<nat>): (r: seq<Elem>)
    requires forall x :: x in slots ==> x in store
    ensures |r| == |slots|
    ensures forall i :: 0 <= i < |slots| ==> r[i] == store[slots[i]]
  {
    if slots == [] then [] else [store[slots[0]]] + Records(store, slots[1..])
  }

  /** The records a unique table leads to, key by key. */
  function KeyedRecords(store: map<nat, Elem>, table: map<nat, nat>, keys: seq<nat>): (r: seq<Elem>)
    requires forall k :: k in keys ==> k in table && table[k] in store
    ensures |r| == |keys|
    ensures forall i :: 0 <= i < |keys| ==> r[i] == store[table[keys[i]]]
  {
    if keys == [] then [] else [store[table[keys[0]]]] + KeyedRecords(store, table, keys[1..])
  }

  /** Every slot of every key's container is occupied. */
  ghost predicate GroupsIn(groups: map<nat, seq<nat>>, store: map<nat, Elem>)
  {
    forall k, x :: k in groups && x in groups[k] ==> x in store
  }

  /** The slots a non-unique table yields going forward: key by key, each key's slots front to back. */
  function Flatten(groups: map<nat, seq<nat>>, keys: seq<nat>): (r: seq<nat>)
    requires forall k :: k in keys ==> k in groups
    ensures |keys| == 1 ==> r == groups[keys[0]]
  {
    if keys == [] then [] else groups[keys[0]] + Flatten(groups, keys[1..])
  }

  /** The slots a non-unique table yields going backward: key by key, each key's slots back to front. */
  function FlattenBack(groups: map<nat, seq<nat>>, keys: seq<nat>): (r: seq<nat>)
    requires forall k :: k in keys ==> k in groups
    ensures |keys| == 1 ==> r == Reverse(groups[keys[0]])
  {
    if keys == [] then [] else Reverse(groups[keys[0]]) + FlattenBack(groups, keys[1..])
  }

  lemma {:induction false} FlattenIn(groups: map<nat, seq<nat>>, keys: seq<nat>, store: map<nat, Elem>)
    requires forall k :: k in keys ==> k in groups
    requires GroupsIn(groups, store)
    ensures forall x :: x in Flatten(groups, keys) ==> x in store
    ensures forall x :: x in FlattenBack(groups, keys) ==> x in store
  {
    if keys != [] {
      FlattenIn(groups, keys[1..], store);
    }
  }

  /** Every slot of every listed key's container is on the forward walk. */
  lemma {:induction false} FlattenCovers(groups: map<nat, seq<nat>>, keys: seq<nat>)
    requires forall k :: k in keys ==> k in groups
    ensures forall k, x :: k in keys && x in groups[k] ==> x in Flatten(groups, keys)
  {
    if keys != [] {
      FlattenCovers(groups, keys[1..]);
      assert forall k :: k in keys ==> k == keys[0] || k in keys[1..];
    }
  }

  /** Every slot on the forward walk comes from the container of a listed key. */
  lemma {:induction false} FlattenFrom(groups: map<nat, seq<nat>>, keys: seq<nat>, x: nat)
    requires forall k :: k in keys ==> k in groups
    requires x in Flatten(groups, keys)
    ensures exists k :: k in keys && x in groups[k]
  {
    if x !in groups[keys[0]] {
      FlattenFrom(groups, keys[1..], x);
      var k :| k in keys[1..] && x in groups[k];
      assert k in keys;
    }
  }

  /**
   * Walking distinct keys whose containers repeat no slot and share no slot
   * with one another meets no slot twice.
   */
  lemma {:induction false} FlattenDistinct(groups: map<nat, seq<nat>>, keys: seq<nat>)
    requires Distinct(keys) && forall k :: k in keys ==> k in groups
    requires forall k :: k in groups ==> Distinct(groups[k])
    requires forall k1, k2, x :: k1 in groups && k2 in groups && x in groups[k1] && x in groups[k2] ==> k1 == k2
    ensures Distinct(Flatten(groups, keys))
  {
    if keys != [] {
      var g, rest := groups[keys[0]], keys[1..];
      assert Distinct(rest) by {
        forall i, j | 0 <= i < j < |rest|
          ensures rest[i] != rest[j]
        {
          assert rest[i] == keys[i + 1] && rest[j] == keys[j + 1];
        }
      }
      FlattenDistinct(groups, rest);
      var w := Flatten(groups, rest);
      forall i, j | 0 <= i < |g| && 0 <= j < |w|
        ensures g[i] != w[j]
      {
        FlattenFrom(groups, rest, w[j]);
        var k :| k in rest && w[j] in groups[k];
        var m :| 0 <= m < |rest| && rest[m] == k;
        assert keys[m + 1] == k && keys[0] != k;
      }
      var r := g + w;
      forall i, j | 0 <= i < j < |r|
        ensures r[i] != r[j]
      {
        if j < |g| {
          assert r[i] == g[i] && r[j] == g[j];
        } else if i < |g| {
          assert r[i] == g[i] && r[j] == w[j - |g|];
        } else {
          assert r[i] == w[i - |g|] && r[j] == w[j - |g|];
        }
      }
    }
  }

  /**
   * When each key's container holds only slots whose record has that key in
   * field `f`, the forward walk over ascending keys meets the records in
   * ascending order of that field.
   */
  lemma {:induction false} FlattenAscending(store: map<nat, Elem>, groups: map<nat, seq<nat>>, keys: seq<nat>, f: NonUniqueField)
    requires Increasing(keys) && forall k :: k in keys ==> k in groups
    requires forall k :: k in keys ==> forall x :: x in groups[k] ==> x in store && NKey(store[x], f) == k
    ensures forall x :: x in Flatten(groups, keys) ==> x in store && NKey(store[x], f) in keys
    ensures forall i, j :: 0 <= i < j < |Flatten(groups, keys)| ==>
      NKey(store[Flatten(groups, keys)[i]], f) <= NKey(store[Flatten(groups, keys)[j]], f)
  {
    if keys != [] {
      var k0, rest := keys[0], keys[1..];
      assert Increasing(rest);
      FlattenAscending(store, groups, rest, f);
      var g, w := groups[k0], Flatten(groups, rest);
      assert Flatten(groups, keys) == g + w;
      assert forall a, b :: 0 <= a < b < |w| ==> NKey(store[w[a]], f) <= NKey(store[w[b]], f);
      assert k0 in keys;
      assert forall x :: x in g ==> x in store && NKey(store[x], f) == k0;
      forall x | x in w
        ensures k0 < NKey(store[x], f)
      {
        var j :| 0 <= j < |rest| && rest[j] == NKey(store[x], f);
        assert keys[0] < keys[j + 1];
      }
      forall i, j | 0 <= i < j < |g + w|
        ensures NKey(store[(g + w)[i]], f) <= NKey(store[(g + w)[j]], f)
      {
        if j < |g| {
          assert (g + w)[i] == g[i] && (g + w)[j] == g[j];
          assert g[i] in g && g[j] in g;
        } else if i < |g| {
          assert (g + w)[i] == g[i] && g[i] in g;
          assert (g + w)[j] == w[j - |g|] && w[j - |g|] in w;
          assert k0 < NKey(store[w[j - |g|]], f);
        } else {
          assert (g + w)[i] == w[i - |g|] && (g + w)[j] == w[j - |g|];
          assert NKey(store[w[i - |g|]], f) <= NKey(store[w[j - |g|]], f);
        }
      }
      forall x | x in g + w
        ensures x in store && NKey(store[x], f) in keys
      {
        if x in g {
        } else {
          assert x in w;
        }
      }
    }
  }

  /** Peeling the first key off the forward walk. */
  lemma FlattenUnfold(groups: map<nat, seq<nat>>, keys: seq<nat>, i: nat)
    requires forall k :: k in keys ==> k in groups
    requires i < |keys|
    ensures Flatten(groups, keys[i..]) == groups[keys[i]] + Flatten(groups, keys[i + 1..])
  {
    assert keys[i..][1..] == keys[i + 1..];
  }

  /** Peeling the first slot off a walk. */
  lemma RecordsPop(store: map<nat, Elem>, s: seq<nat>, rest: seq<nat>)
    requires s != [] && forall x :: x in s + rest ==> x in store
    ensures Records(store, s + rest) == [store[s[0]]] + Records(store, s[1..] + rest)
  {
    assert (s + rest)[1..] == s[1..] + rest;
  }

  lemma {:induction false} FlattenBackConcat(groups: map<nat, seq<nat>>, a: seq<nat>, b: seq<nat>)
    requires forall k :: k in a + b ==> k in groups
    ensures FlattenBack(groups, a + b) == FlattenBack(groups, a) + FlattenBack(groups, b)
  {
    if a == [] {
      assert a + b == b;
    } else {
      assert (a + b)[1..] == a[1..] + b;
      FlattenBackConcat(groups, a[1..], b);
    }
  }

  /** Walking the keys backward, each key's slots backward, is the exact reverse of the forward walk. */
  lemma {:induction false} FlattenBackReverse(groups: map<nat, seq<nat>>, keys: seq<nat>)
    requires forall k :: k in keys ==> k in groups
    ensures FlattenBack(groups, Reverse(keys)) == Reverse(Flatten(groups, keys))
  {
    if keys != [] {
      FlattenBackReverse(groups, keys[1..]);
      FlattenBackConcat(groups, Reverse(keys[1..]), [keys[0]]);
      assert FlattenBack(groups, [keys[0]]) == Reverse(groups[keys[0]]);
      ReverseConcat(groups[keys[0]], Flatten(groups, keys[1..]));
    }
  }

  lemma {:induction false} RecordsConcat(store: map<nat, Elem>, a: seq<nat>, b: seq<nat>)
    requires forall x :: x in a + b ==> x in store
    ensures Records(store, a + b) == Records(store, a) + Records(store, b)
  {
    var ab := a + b;
    var r := Records(store, ab);
    forall i | 0 <= i < |r|
      ensures r[i] == (Records(store, a) + Records(store, b))[i]
    {
      if i >= |a| {
        assert ab[i] == b[i - |a|];
      }
    }
  }

  /** Collecting one more slot appends its record. */
  lemma RecordsSnoc(store: map<nat, Elem>, done: seq<nat>, s: nat)
    requires s in store && forall x :: x in done ==> x in store
    ensures Records(store, done + [s]) == Records(store, done) + [store[s]]
  {
    var a := Records(store, done + [s]);
    assert forall j :: 0 <= j < |done| ==> a[j] == store[done[j]];
  }

  /** Writing a record into a slot not yet collected, then collecting it, appends that record. */
  lemma RecordsReplaced(store: map<nat, Elem>, done: seq<nat>, s: nat, n: Elem)
    requires s in store && s !in done && forall x :: x in done ==> x in store
    ensures Records(store[s := n], done + [s]) == Records(store, done) + [n]
  {
    var a, b := Records(store[s := n], done + [s]), Records(store, done) + [n];
    forall i | 0 <= i < |a|
      ensures a[i] == b[i]
    {
      if i < |done| {
        assert (done + [s])[i] == done[i] != s;
      }
    }
  }

  lemma RecordsReverse(store: map<nat, Elem>, s: seq<nat>)
    requires forall x :: x in s ==> x in store
    ensures Records(store, Reverse(s)) == Reverse(Records(store, s))
  {
    forall i | 0 <= i < |s|
      ensures Records(store, Reverse(s))[i] == Reverse(Records(store, s))[i]
    {
      ReverseIndex(s, i);
      ReverseIndex(Records(store, s), i);
    }
  }

  lemma KeyedRecordsReverse(store: map<nat, Elem>, table: map<nat, nat>, keys: seq<nat>)
    requires forall k :: k in keys ==> k in table && table[k] in store
    ensures KeyedRecords(store, table, Reverse(keys)) == Reverse(KeyedRecords(store, table, keys))
  {
    forall i | 0 <= i < |keys|
      ensures KeyedRecords(store, table, Reverse(keys))[i] == Reverse(KeyedRecords(store, table, keys))[i]
    {
      ReverseIndex(keys, i);
      ReverseIndex(KeyedRecords(store, table, keys), i);
    }
  }

  /** The iterator over a unique table: `_iter` and, for an ordered table, `_iter_rev`. */
  class UniqueIter {
    const store: map<nat, Elem>
    const table: map<nat, nat>
    /** The order in which the table yields its keys. */
    const keys: seq<nat>
    const ordering: Ordering
    /** Keys `_iter` has consumed. */
    var front: nat
    /** Keys `_iter_rev` has consumed. */
    var back: nat

    ghost predicate Valid()
      reads this
    {
      && Enumerates(keys, table.Keys)
      && (forall k :: k in table ==> table[k] in store)
      && (ordering == Ordered ==> keys == Sorted(table.Keys))
      && front <= |keys| && back <= |keys|
    }

    /** What `next` has still to yield. */
    ghost function Forward(): seq<Elem>
      requires Valid()
      reads this
    {
      KeyedRecords(store, table, keys[front..])
    }

    /** What `next_back` has still to yield. */
    ghost function Backward(): seq<Elem>
      requires Valid()
      reads this
    {
      KeyedRecords(store, table, Reverse(keys[..|keys| - back]))
    }

    constructor (store: map<nat, Elem>, table: map<nat, nat>, keys: seq<nat>, ordering: Ordering)
      requires Enumerates(keys, table.Keys)
      requires forall k :: k in table ==> table[k] in store
      requires ordering == Ordered ==> keys == Sorted(table.Keys)
      ensures Valid()
      ensures this.store == store && this.table == table && this.keys == keys && this.ordering == ordering
      ensures front == 0 && back == 0
    {
      this.store := store;
      this.table := table;
      this.keys := keys;
      this.ordering := ordering;
      front := 0;
      back := 0;
    }

    /** `next`: the record of the next table entry, or None once the table is exhausted. */
    method Next() returns (r: Option<Elem>)
      requires Valid()
      modifies this
      ensures Valid() && back == old(back)
      ensures r.Some? ==> old(Forward()) == [r.value] + Forward()
      ensures r.None? ==> old(Forward()) == [] && Forward() == []
    {
      if front == |keys| {
        return None;
      }
      var k := keys[front];
      assert keys[front..] == [k] + keys[front + 1..];
      front := front + 1;
      r := Some(store[table[k]]);
    }

    /** `next_back` of an ordered table's iterator. */
    method NextBack() returns (r: Option<Elem>)
      requires Valid() && ordering == Ordered
      modifies this
      ensures Valid() && front == old(front)
      ensures r.Some? ==> old(Backward()) == [r.value] + Backward()
      ensures r.None? ==> old(Backward()) == [] && Backward() == []
    {
      if back == |keys| {
        return None;
      }
      var n := |keys| - back;
      var k := keys[n - 1];
      ReverseDropLast(keys[..n]);
      assert keys[..n][..n - 1] == keys[..n - 1];
      back := back + 1;
      r := Some(store[table[k]]);
    }
  }

  /** A fresh iterator over a unique table yields, backward, exactly the reverse of what it yields forward. */
  lemma FreshUniqueIterReverses(it: UniqueIter)
    requires it.Valid() && it.front == 0 && it.back == 0
    ensures it.Backward() == Reverse(it.Forward())
  {
    assert it.keys[0..] == it.keys && it.keys[..|it.keys|] == it.keys;
    KeyedRecordsReverse(it.store, it.table, it.keys);
  }

  /**
   * The slots a non-unique iterator's forward walk has still to reach: what
   * the inner iterator holds, then the containers of the keys from `front` on.
   */
  function WalkForward(groups: map<nat, seq<nat>>, keys: seq<nat>, front: nat, inner: seq<nat>): (r: seq<nat>)
    requires front <= |keys| && forall k :: k in keys ==> k in groups
    ensures inner <= r
    ensures front == |keys| ==> r == inner
    ensures front < |keys| ==> inner + groups[keys[front]] <= r
  {
    inner + Flatten(groups, keys[front..])
  }

  /**
   * The slots the backward walk has still to reach: what the inner iterator
   * holds, back to front, then the containers of the keys before the last
   * `back`, last key first, each back to front.
   */
  function WalkBackward(groups: map<nat, seq<nat>>, keys: seq<nat>, back: nat, inner: seq<nat>): (r: seq<nat>)
    requires back <= |keys| && forall k :: k in keys ==> k in groups
    ensures back == |keys| ==> r == Reverse(inner)
  {
    var before := keys[..|keys| - back];
    assert back < |keys| ==> Reverse(before)[0] == keys[|keys| - 1 - back] by {
      if back < |keys| {
        ReverseIndex(before, 0);
      }
    }
    Reverse(inner) + FlattenBack(groups, Reverse(before))
  }

  /** Both walks stay on occupied slots. */
  lemma WalksIn(groups: map<nat, seq<nat>>, keys: seq<nat>, n: nat, inner: seq<nat>, store: map<nat, Elem>)
    requires n <= |keys| && forall k :: k in keys ==> k in groups
    requires GroupsIn(groups, store) && forall x :: x in inner ==> x in store
    ensures forall x :: x in WalkForward(groups, keys, n, inner) ==> x in store
    ensures forall x :: x in WalkBackward(groups, keys, n, inner) ==> x in store
  {
    FlattenIn(groups, keys[n..], store);
    FlattenIn(groups, Reverse(keys[..|keys| - n]), store);
  }

  /** One forward step: from the inner iterator while it lasts, else from the next key's container. */
  lemma WalkForwardStep(groups: map<nat, seq<nat>>, keys: seq<nat>, front: nat, inner: seq<nat>)
    requires front <= |keys| && forall k :: k in keys ==> k in groups
    ensures inner != [] ==>
      WalkForward(groups, keys, front, inner) == [inner[0]] + WalkForward(groups, keys, front, inner[1..])
    ensures inner == [] && front < |keys| && groups[keys[front]] != [] ==>
      WalkForward(groups, keys, front, inner)
        == [groups[keys[front]][0]] + WalkForward(groups, keys, front + 1, groups[keys[front]][1..])
    ensures inner == [] && front == |keys| ==> WalkForward(groups, keys, front, inner) == []
  {
    if inner == [] && front < |keys| {
      FlattenUnfold(groups, keys, front);
    }
  }

  /** One backward step: from the back of the inner iterator while it lasts, else from the back of the previous key's container. */
  lemma WalkBackwardStep(groups: map<nat, seq<nat>>, keys: seq<nat>, back: nat, inner: seq<nat>)
    requires back <= |keys| && forall k :: k in keys ==> k in groups
    ensures inner != [] ==>
      WalkBackward(groups, keys, back, inner)
        == [inner[|inner| - 1]] + WalkBackward(groups, keys, back, inner[..|inner| - 1])
    ensures inner == [] && back < |keys| && groups[keys[|keys| - back - 1]] != [] ==>
      var g := groups[keys[|keys| - back - 1]];
      WalkBackward(groups, keys, back, inner) == [g[|g| - 1]] + WalkBackward(groups, keys, back + 1, g[..|g| - 1])
    ensures inner == [] && back == |keys| ==> WalkBackward(groups, keys, back, inner) == []
  {
    if inner != [] {
      ReverseDropLast(inner);
    } else if back < |keys| {
      var n := |keys| - back;
      var g := groups[keys[n - 1]];
      BackUnfold(groups, keys, n);
      if g != [] {
        ReverseDropLast(g);
        assert |keys| - (back + 1) == n - 1;
      }
    } else {
      assert keys[..|keys| - back] == [];
    }
  }

  /** The records at a walk whose first slot is taken off. */
  lemma RecordsCons(store: map<nat, Elem>, x: nat, rest: seq<nat>)
    requires x in store && forall y :: y in rest ==> y in store
    ensures Records(store, [x] + rest) == [store[x]] + Records(store, rest)
  {
    assert ([x] + rest)[1..] == rest;
  }

  /**
   * The iterator over a non-unique table: `_iter` (and `_iter_rev`) over the
   * keys, and `_inner_iter` over the current key's slots.
   */
  class GroupIter {
    const store: map<nat, Elem>
    /** Each key's slots, in the order its container yields them. */
    const groups: map<nat, seq<nat>>
    /** The order in which the table yields its keys. */
    const keys: seq<nat>
    const ordering: Ordering
    /** Keys `_iter` has consumed. */
    var front: nat
    /** Keys `_iter_rev` has consumed. */
    var back: nat
    /** What `_inner_iter` has not yet yielded, front to back; empty when there is none. */
    var inner: seq<nat>

    ghost predicate Valid()
      reads this
    {
      && Enumerates(keys, groups.Keys)
      && (forall k :: k in groups ==> groups[k] != [])
      && GroupsIn(groups, store)
      && (forall x :: x in inner ==> x in store)
      && front <= |keys| && back <= |keys|
    }

    /** The slots `next` has still to reach. */
    ghost function ForwardSlots(): (r: seq<nat>)
      requires Valid()
      reads this
      ensures forall x :: x in r ==> x in store
    {
      WalksIn(groups, keys, front, inner, store);
      WalkForward(groups, keys, front, inner)
    }

    /** The slots `next_back` has still to reach. */
    ghost function BackwardSlots(): (r: seq<nat>)
      requires Valid()
      reads this
      ensures forall x :: x in r ==> x in store
    {
      WalksIn(groups, keys, back, inner, store);
      WalkBackward(groups, keys, back, inner)
    }

    /** What `next` has still to yield. */
    ghost function Forward(): seq<Elem>
      requires Valid()
      reads this
    {
      Records(store, ForwardSlots())
    }

    /** What `next_back` has still to yield. */
    ghost function Backward(): seq<Elem>
      requires Valid()
      reads this
    {
      Records(store, BackwardSlots())
    }

    constructor (store: map<nat, Elem>, groups: map<nat, seq<nat>>, keys: seq<nat>, ordering: Ordering)
      requires Enumerates(keys, groups.Keys)
      requires forall k :: k in groups ==> groups[k] != []
      requires GroupsIn(groups, store)
      ensures Valid()
      ensures this.store == store && this.groups == groups && this.keys == keys && this.ordering == ordering
      ensures front == 0 && back == 0 && inner == []
    {
      this.store := store;
      this.groups := groups;
      this.keys := keys;
      this.ordering := ordering;
      front := 0;
      back := 0;
      inner := [];
    }

    /**
     * `next`: the next slot of the current key, or else the first slot of the
     * next key (whose container is never empty), or None once the keys are
     * exhausted.
     */
    method Next() returns (r: Option<Elem>)
      requires Valid()
      modifies this
      ensures Valid() && back == old(back)
      ensures r.Some? ==> old(Forward()) == [r.value] + Forward()
      ensures r.None? ==> old(Forward()) == [] && Forward() == []
    {
      WalkForwardStep(groups, keys, front, inner);
      if inner != [] {
        WalksIn(groups, keys, front, inner[1..], store);
        RecordsCons(store, inner[0], WalkForward(groups, keys, front, inner[1..]));
        r := Some(store[inner[0]]);
        inner := inner[1..];
        return;
      }
      if front == |keys| {
        return None;
      }
      var g := groups[keys[front]];
      WalksIn(groups, keys, front + 1, g[1..], store);
      RecordsCons(store, g[0], WalkForward(groups, keys, front + 1, g[1..]));
      r := Some(store[g[0]]);
      front := front + 1;
      inner := g[1..];
    }

    /**
     * `next_back` of an ordered table's iterator: the last remaining slot of
     * the current key, or else the last slot of the previous key.
     */
    method NextBack() returns (r: Option<Elem>)
      requires Valid() && ordering == Ordered
      modifies this
      ensures Valid() && front == old(front)
      ensures r.Some? ==> old(Backward()) == [r.value] + Backward()
      ensures r.None? ==> old(Backward()) == [] && Backward() == []
    {
      BackStep(store, groups, keys, back, inner);
      if inner != [] {
        r := Some(store[inner[|inner| - 1]]);
        inner := inner[..|inner| - 1];
        return;
      }
      if back == |keys| {
        return None;
      }
      var g := groups[keys[|keys| - back - 1]];
      r := Some(store[g[|g| - 1]]);
      back, inner := back + 1, g[..|g| - 1];
    }
  }

  /** One backward step, on the records: the last slot of what remains is yielded first. */
  lemma BackStep(store: map<nat, Elem>, groups: map<nat, seq<nat>>, keys: seq<nat>, back: nat, inner: seq<nat>)
    requires back <= |keys| && forall k :: k in keys ==> k in groups
    requires (forall k :: k in groups ==> groups[k] != []) && GroupsIn(groups, store)
    requires forall x :: x in inner ==> x in store
    ensures forall x :: x in WalkBackward(groups, keys, back, inner) ==> x in store
    ensures inner != [] ==>
      && inner[|inner| - 1] in store
      && (forall x :: x in WalkBackward(groups, keys, back, inner[..|inner| - 1]) ==> x in store)
      && Records(store, WalkBackward(groups, keys, back, inner))
         == [store[inner[|inner| - 1]]] + Records(store, WalkBackward(groups, keys, back, inner[..|inner| - 1]))
    ensures inner == [] && back < |keys| ==>
      var g := groups[keys[|keys| - back - 1]];
      && g != [] && g[|g| - 1] in store
      && (forall x :: x in g[..|g| - 1] ==> x in store)
      && (forall x :: x in WalkBackward(groups, keys, back + 1, g[..|g| - 1]) ==> x in store)
      && Records(store, WalkBackward(groups, keys, back, inner))
         == [store[g[|g| - 1]]] + Records(store, WalkBackward(groups, keys, back + 1, g[..|g| - 1]))
    ensures inner == [] && back == |keys| ==> WalkBackward(groups, keys, back, inner) == []
  {
    WalkBackwardStep(groups, keys, back, inner);
    WalksIn(groups, keys, back, inner, store);
    if inner != [] {
      var last := inner[|inner| - 1];
      WalksIn(groups, keys, back, inner[..|inner| - 1], store);
      RecordsCons(store, last, WalkBackward(groups, keys, back, inner[..|inner| - 1]));
    } else if back < |keys| {
      var k := keys[|keys| - back - 1];
      var g := groups[k];
      assert k in keys;
      assert forall x :: x in g[..|g| - 1] ==> x in g;
      WalksIn(groups, keys, back + 1, g[..|g| - 1], store);
      RecordsCons(store, g[|g| - 1], WalkBackward(groups, keys, back + 1, g[..|g| - 1]));
    }
  }

  /** Peeling the last remaining key off the backward walk. */
  lemma BackUnfold(groups: map<nat, seq<nat>>, keys: seq<nat>, n: nat)
    requires forall k :: k in keys ==> k in groups
    requires 0 < n <= |keys|
    ensures FlattenBack(groups, Reverse(keys[..n]))
         == Reverse(groups[keys[n - 1]]) + FlattenBack(groups, Reverse(keys[..n - 1]))
  {
    ReverseDropLast(keys[..n]);
    assert keys[..n][..n - 1] == keys[..n - 1];
  }

  /** A fresh non-unique iterator walks every key's slots, key by key. */
  lemma FreshGroupIterWalks(it: GroupIter)
    requires it.Valid() && it.front == 0 && it.inner == []
    ensures it.ForwardSlots() == Flatten(it.groups, it.keys)
  {
    assert it.keys[0..] == it.keys;
  }

  /**
   * When every record sits in the container under its own key, and every
   * key is walked, the walk meets every stored record, and only stored
   * records.
   */
  lemma GroupsCover(store: map<nat, Elem>, groups: map<nat, seq<nat>>, keys: seq<nat>, f: NonUniqueField)
    requires forall k :: k in keys ==> k in groups
    requires GroupsIn(groups, store)
    requires forall s :: s in store ==> NKey(store[s], f) in keys && s in groups[NKey(store[s], f)]
    ensures forall x :: x in Flatten(groups, keys) ==> x in store
    ensures forall s :: s in store ==> store[s] in Records(store, Flatten(groups, keys))
    ensures forall e :: e in Records(store, Flatten(groups, keys)) ==> e in store.Values
  {
    FlattenIn(groups, keys, store);
    FlattenCovers(groups, keys);
    var w := Flatten(groups, keys);
    var r := Records(store, w);
    forall s | s in store
      ensures store[s] in r
    {
      assert s in w by {
        var k := NKey(store[s], f);
        assert k in keys && s in groups[k];
      }
      var i :| 0 <= i < |w| && w[i] == s;
      assert r[i] == store[s];
    }
    forall e | e in r
      ensures e in store.Values
    {
      var i :| 0 <= i < |r| && r[i] == e;
      assert w[i] in store;
    }
  }

  /**
   * A walk over every key of a non-unique table whose containers hold
   * exactly the slots of their key's records meets every stored record and
   * only stored records; over ascending keys it meets them in ascending
   * order of the field.
   */
  lemma GroupWalk(store: map<nat, Elem>, groups: map<nat, seq<nat>>, keys: seq<nat>, f: NonUniqueField)
    requires Enumerates(keys, groups.Keys)
    requires forall k :: k in groups ==> forall x :: x in groups[k] ==> x in store && NKey(store[x], f) == k
    requires forall s :: s in store ==> NKey(store[s], f) in groups && s in groups[NKey(store[s], f)]
    ensures forall x :: x in Flatten(groups, keys) ==> x in store
    ensures forall s :: s in store ==> store[s] in Records(store, Flatten(groups, keys))
    ensures forall e :: e in Records(store, Flatten(groups, keys)) ==> e in store.Values
    ensures Increasing(keys) ==> forall i, j :: 0 <= i < j < |Records(store, Flatten(groups, keys))| ==>
      NKey(Records(store, Flatten(groups, keys))[i], f) <= NKey(Records(store, Flatten(groups, keys))[j], f)
  {
    GroupsCover(store, groups, keys, f);
    if Increasing(keys) {
      FlattenAscending(store, groups, keys, f);
    }
  }

  /** A fresh iterator over a non-unique table yields, backward, exactly the reverse of what it yields forward. */
  lemma FreshGroupIterReverses(it: GroupIter)
    requires it.Valid() && it.front == 0 && it.back == 0 && it.inner == []
    ensures it.BackwardSlots() == Reverse(it.ForwardSlots())
    ensures it.Backward() == Reverse(it.Forward())
  {
    assert it.keys[0..] == it.keys && it.keys[..|it.keys|] == it.keys;
    FlattenBackReverse(it.groups, it.keys);
    assert it.ForwardSlots() == Flatten(it.groups, it.keys);
    assert it.BackwardSlots() == FlattenBack(it.groups, Reverse(it.keys));
    RecordsReverse(it.store, it.ForwardSlots());
  }
}
