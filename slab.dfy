/**
 * The slab behind `_store`, and the two ways of reaching a sorted set of its
 * slots through one mutable iterator.
 *
 * The slab crate itself is not part of this model. It is modelled by what the
 * container relies on: a map from occupied slot to value, `insert` into some
 * vacant slot, `remove` of an occupied slot, and `iter_mut` yielding the
 * occupied slots (with their values) in ascending slot order, skipping
 * vacant ones.
 */
module Slab {
  import opened Wrappers
  import opened Order

  /** The slots `iter` / `iter_mut` yield, in the order they yield them. */
  function Occupied<T>(store: map<nat, T>): (r: seq<nat>)
    ensures Increasing(r)
    ensures forall s :: s in r <==> s in store
    ensures |r| == |store|
  {
    SortedIncreasing(store.Keys);
    Sorted(store.Keys)
  }

  /** The slab always has a slot to insert into. */
  lemma {:induction false} VacantSlotExists<T>(store: map<nat, T>)
    ensures exists s: nat :: s !in store
  {
    if store.Keys != {} {
      var r := Sorted(store.Keys);
      SortedIncreasing(store.Keys);
      var top := r[|r| - 1];
      forall s | s in store
        ensures s <= top
      {
        var i :| 0 <= i < |r| && r[i] == s;
        assert i == |r| - 1 || r[i] < r[|r| - 1];
      }
      assert top + 1 !in store;
    } else {
      assert 0 !in store;
    }
  }

  /** No slot below `t` is vacant. */
  ghost predicate NoHoleBelow(keys: set<nat>, t: nat)
  {
    forall x :: 0 <= x < t ==> x in keys
  }

  /**
   * What the traversal `mut_iter.nth(idx - last_idx)` (with `last_idx = idx + 1`
   * after each step) reaches: since `nth(n)` skips `n` OCCUPIED entries, the
   * j-th step lands on the occupied slot whose RANK is `targets[j]`, and the
   * traversal panics when there is no such rank.
   */
  function NthVisit(occ: seq<nat>, targets: seq<nat>): (r: Option<seq<nat>>)
    ensures r.None? <==> exists j :: 0 <= j < |targets| && |occ| <= targets[j]
    ensures r.Some? ==> |r.value| == |targets| && forall j :: 0 <= j < |targets| ==> r.value[j] in occ
  {
    if forall j :: 0 <= j < |targets| ==> targets[j] < |occ|
    then Some(seq(|targets|, j requires 0 <= j < |targets| && targets[j] < |occ| => occ[targets[j]]))
    else None
  }

  /**
   * The loop of `get_mut_by_F`, `modify_by_F` and `update_by_F` on a non-unique
   * field as written: one `iter_mut` over the slab, and for each target slot
   * in ascending order `nth(idx - last_idx)`, panicking (None) when `nth`
   * finds nothing. `occ` is what the iterator yields.
   */
  method NthTraversal(occ: seq<nat>, targets: seq<nat>) returns (r: Option<seq<nat>>)
    requires Increasing(targets)
    ensures r == NthVisit(occ, targets)
  {
    var pos: nat := 0;       // entries of the iterator consumed so far
    var lastIdx: nat := 0;
    var visited: seq<nat> := [];
    var j := 0;
    while j < |targets|
      invariant 0 <= j <= |targets|
      invariant pos == lastIdx
      invariant j == 0 ==> lastIdx == 0
      invariant j > 0 ==> lastIdx == targets[j - 1] + 1
      invariant |visited| == j
      invariant forall i :: 0 <= i < j ==> targets[i] < |occ| && visited[i] == occ[targets[i]]
    {
      var idx := targets[j];
      assert j > 0 ==> targets[j - 1] < idx;
      var n := idx - lastIdx;
      if pos + n < |occ| {
        visited := visited + [occ[pos + n]];
        pos := pos + n + 1;
      } else {
        assert targets[j] >= |occ|;
        return None;
      }
      lastIdx := idx + 1;
      j := j + 1;
    }
    assert forall i :: 0 <= i < |targets| ==> targets[i] < |occ|;
    assert visited == NthVisit(occ, targets).value;
    r := Some(visited);
  }

  /**
   * The traversal with each step checked against the slot the iterator
   * reports: advance until the yielded slot is the target. Every target
   * slot is reached, in ascending order, whatever holes lie below it.
   */
  method KeyedTraversal(occ: seq<nat>, targets: seq<nat>) returns (visited: seq<nat>)
    requires Increasing(occ) && Increasing(targets)
    requires forall t :: t in targets ==> t in occ
    ensures visited == targets
  {
    var pos := 0;
    visited := [];
    var j := 0;
    while j < |targets|
      invariant 0 <= j <= |targets| && 0 <= pos <= |occ|
      invariant visited == targets[..j]
      invariant forall k :: j <= k < |targets| ==> targets[k] in occ[pos..]
    {
      var idx := targets[j];
      assert idx in occ[pos..];
      while occ[pos] != idx
        invariant pos < |occ| && idx in occ[pos..]
        invariant forall k :: j < k < |targets| ==> targets[k] in occ[pos..]
        decreases |occ| - pos
      {
        var i :| pos <= i < |occ| && occ[i] == idx;
        assert occ[pos] < idx by { assert pos < i; }
        forall k | j < k < |targets|
          ensures targets[k] in occ[pos + 1..]
        {
          assert targets[j] < targets[k];
        }
        pos := pos + 1;
      }
      forall k | j < k < |targets|
        ensures targets[k] in occ[pos + 1..]
      {
        assert targets[j] < targets[k];
        var i :| pos <= i < |occ| && occ[i] == targets[k];
        assert i != pos;
      }
      visited := visited + [occ[pos]];
      pos := pos + 1;
      j := j + 1;
    }
    assert targets[..j] == targets;
  }

  /** The elements of an ascending sequence of naturals are at least their positions. */
  lemma {:induction false} AtLeastPosition(occ: seq<nat>, i: nat)
    requires Increasing(occ) && i < |occ|
    ensures i <= occ[i]
  {
    if i > 0 {
      AtLeastPosition(occ, i - 1);
    }
  }

  /** Two positions of an ascending sequence of naturals are at least as far apart in value. */
  lemma {:induction false} GapAtLeastDistance(occ: seq<nat>, i: nat, j: nat)
    requires Increasing(occ) && i <= j < |occ|
    ensures occ[j] - occ[i] >= j - i
  {
    if i < j {
      GapAtLeastDistance(occ, i, j - 1);
    }
  }

  /** With no vacant slot below an occupied slot `t`, its rank among occupied slots is `t`. */
  lemma {:induction false} DenseRank(keys: set<nat>, t: nat)
    requires t in keys && NoHoleBelow(keys, t)
    ensures t < |Sorted(keys)| && Sorted(keys)[t] == t
  {
    var occ := Sorted(keys);
    SortedIncreasing(keys);
    var j :| 0 <= j < |occ| && occ[j] == t;
    AtLeastPosition(occ, j);
    if t > 0 {
      assert t - 1 in keys;
      assert NoHoleBelow(keys, t - 1);
      DenseRank(keys, t - 1);
      assert occ[t - 1] < occ[j];
    }
  }

  /** If the occupied slot of rank `t` is slot `t`, no slot below `t` is vacant. */
  lemma RankFixedMeansDense(keys: set<nat>, t: nat)
    requires t < |Sorted(keys)| && Sorted(keys)[t] == t
    ensures NoHoleBelow(keys, t)
  {
    var occ := Sorted(keys);
    SortedIncreasing(keys);
    forall x | 0 <= x < t
      ensures x in keys
    {
      AtLeastPosition(occ, x);
      GapAtLeastDistance(occ, x, t);
      assert occ[x] == x;
    }
  }

  /**
   * The as-written traversal reaches exactly the target slots if and only if
   * no vacant slot lies below any target.
   */
  lemma NthTraversalExactIffNoHoles(keys: set<nat>, targets: seq<nat>)
    requires Increasing(targets)
    requires forall t :: t in targets ==> t in keys
    ensures NthVisit(Sorted(keys), targets) == Some(targets)
        <==> forall j :: 0 <= j < |targets| ==> NoHoleBelow(keys, targets[j])
  {
    var occ := Sorted(keys);
    if forall j :: 0 <= j < |targets| ==> NoHoleBelow(keys, targets[j]) {
      forall j | 0 <= j < |targets|
        ensures targets[j] < |occ| && occ[targets[j]] == targets[j]
      {
        DenseRank(keys, targets[j]);
      }
      assert NthVisit(occ, targets).Some?;
      assert NthVisit(occ, targets).value == targets;
    }
    if NthVisit(occ, targets) == Some(targets) {
      forall j | 0 <= j < |targets|
        ensures NoHoleBelow(keys, targets[j])
      {
        assert NthVisit(occ, targets).value[j] == occ[targets[j]];
        RankFixedMeansDense(keys, targets[j]);
      }
    }
  }

  /**
   * The state of multi_index_map/tests/non_unique_holes.rs: six records in
   * slots 0..5 of one group, the records in slots 0 and 1 removed. Reaching
   * the group's slots 2, 3, 4, 5 with `nth` lands on slots 4 and 5 and then
   * panics.
   */
  lemma NthTraversalPanicsAfterHoles(store: map<nat, int>)
    requires store.Keys == {2, 3, 4, 5}
    ensures Occupied(store) == [2, 3, 4, 5]
    ensures NthVisit(Occupied(store), Sorted({2, 3, 4, 5})) == None
  {
    SortedIncreasing(store.Keys);
    IncreasingUnique(Sorted(store.Keys), [2, 3, 4, 5]);
    assert Sorted({2, 3, 4, 5}) == [2, 3, 4, 5];
    assert [2, 3, 4, 5][3] == 5;
  }

  /**
   * With only slot 0 vacant, reaching slot 2 with `nth(2)` silently lands on
   * slot 3: the closure is applied to another record.
   */
  lemma NthTraversalVisitsWrongSlot(store: map<nat, int>)
    requires store.Keys == {1, 2, 3, 4}
    ensures NthVisit(Occupied(store), [2]) == Some([3])
  {
    var occ := Occupied(store);
    IncreasingUnique(occ, [1, 2, 3, 4]);
    assert occ[2] == 3;
    assert NthVisit(occ, [2]).value == [occ[2]];
  }

  /** Vacating a set of occupied slots lowers the occupied count by its size. */
  lemma {:induction false} VacateCount<T>(store: map<nat, T>, slots: set<nat>)
    requires forall s :: s in slots ==> s in store
    ensures |store - slots| == |store| - |slots|
  {
    if slots != {} {
      var s :| s in slots;
      VacateCount(store - {s}, slots - {s});
      assert store - {s} - (slots - {s}) == store - slots;
      assert (store - {s}).Keys == store.Keys - {s};
    } else {
      assert store - slots == store;
    }
  }

  /** The slab after `remove(idx)` for each slot of `slots` in turn. */
  function Vacated<T>(store: map<nat, T>, slots: seq<nat>): (r: map<nat, T>)
    ensures forall x :: x in r <==> x in store && x !in slots
    ensures forall x :: x in r ==> r[x] == store[x]
  {
    if slots == [] then store
    else Vacated(store, slots[..|slots| - 1]) - {slots[|slots| - 1]}
  }

  /** The slab's `is_empty`: no slot is occupied. */
  function IsEmpty<T>(store: map<nat, T>): (r: bool)
    ensures r <==> |store| == 0
  {
    store == map[]
  }

  /** The slab's `iter`: every occupied slot with its value, in ascending slot order. */
  function Iter<T>(store: map<nat, T>): (r: seq<(nat, T)>)
    ensures |r| == |store|
    ensures forall i :: 0 <= i < |r| ==> r[i].0 in store && r[i].1 == store[r[i].0]
    ensures forall s :: s in store ==> (s, store[s]) in r
  {
    var occ := Occupied(store);
    EntriesCover(store, occ);
    var r := Entries(store, occ);
    assert forall i :: 0 <= i < |r| ==> r[i].0 == occ[i] && occ[i] in store && r[i].1 == store[occ[i]];
    r
  }

  /** `iter` yields the slots in ascending order, hence each once. */
  lemma IterAscending<T>(store: map<nat, T>)
    ensures forall i, j :: 0 <= i < j < |Iter(store)| ==> Iter(store)[i].0 < Iter(store)[j].0
  {
  }

  /** Vacating every slot a sequence lists removes exactly the set of them. */
  lemma VacatedAll<T>(store: map<nat, T>, slots: seq<nat>, s: set<nat>)
    requires forall x :: x in slots <==> x in s
    ensures Vacated(store, slots) == store - s
  {
  }

  /** The slots `occ` paired with their values: what the slab's `iter` yields. */
  function Entries<T>(store: map<nat, T>, occ: seq<nat>): (r: seq<(nat, T)>)
    requires forall x :: x in occ ==> x in store
    ensures |r| == |occ|
    ensures forall i :: 0 <= i < |occ| ==> r[i] == (occ[i], store[occ[i]])
  {
    if occ == [] then [] else [(occ[0], store[occ[0]])] + Entries(store, occ[1..])
  }

  /** Every listed slot appears, with its value, among the entries. */
  lemma {:induction false} EntriesCover<T>(store: map<nat, T>, occ: seq<nat>)
    requires forall x :: x in occ ==> x in store
    ensures forall x :: x in occ ==> (x, store[x]) in Entries(store, occ)
  {
    if occ != [] {
      EntriesCover(store, occ[1..]);
      assert forall x :: x in occ ==> x == occ[0] || x in occ[1..];
    }
  }
}
