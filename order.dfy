/**
 * Ascending order over slots and keys.
 *
 * A `BTreeSet<usize>` of slots, the keys of a `BTreeMap` and the occupied
 * slots of the slab are all traversed in ascending order; `Sorted` is that
 * traversal. `Reverse` is the order of a reversed (`rev()` / `next_back`)
 * traversal.
 */
module Order {

  /** Strictly ascending, hence without duplicates. */
  predicate Increasing(s: seq<nat>)
  {
    forall i, j :: 0 <= i < j < |s| ==> s[i] < s[j]
  }

  /** No element occurs twice. */
  predicate Distinct(s: seq<nat>)
  {
    forall i, j :: 0 <= i < j < |s| ==> s[i] != s[j]
  }

  /** `order` lists every element of `s` exactly once, in some order. */
  predicate Enumerates(order: seq<nat>, s: set<nat>)
  {
    && Distinct(order)
    && (forall x :: x in order ==> x in s)
    && (forall x :: x in s ==> x in order)
  }

  /** A least element of a non-empty set, found by taking any element out and comparing it with the least of the rest. */
  ghost function LeastOf(s: set<nat>): (m: nat)
    requires s != {}
    ensures m in s
    ensures forall x :: x in s ==> m <= x
    decreases |s|
  {
    var y :| y in s;
    if s == {y} then y
    else
      var m := LeastOf(s - {y});
      assert forall x :: x in s ==> x == y || x in s - {y};
      if y < m then y else m
  }

  /** The least element of a non-empty set. */
  function Min(s: set<nat>): (m: nat)
    requires s != {}
    ensures m in s
    ensures forall x :: x in s ==> m <= x
  {
    assert LeastOf(s) in s && forall x :: x in s ==> LeastOf(s) <= x;
    var m :| m in s && (forall x :: x in s ==> m <= x); m
  }

  /** The elements of `s`, least first; `SortedIncreasing` shows the order. */
  function Sorted(s: set<nat>): (r: seq<nat>)
    ensures forall x :: x in r <==> x in s
    ensures |r| == |s|
    decreases |s|
  {
    if s == {} then []
    else
      var m := Min(s);
      [m] + Sorted(s - {m})
  }

  /** The traversal of a set is strictly ascending. */
  lemma {:induction false} SortedIncreasing(s: set<nat>)
    ensures Increasing(Sorted(s))
    decreases |s|
  {
    if s != {} {
      var m := Min(s);
      var rest := Sorted(s - {m});
      SortedIncreasing(s - {m});
      assert forall x :: x in rest ==> m < x;
      assert Sorted(s) == [m] + rest;
    }
  }

  /** A sequence listing every element of a set once is as long as the set is large. */
  lemma {:induction false} EnumeratesSize(order: seq<nat>, s: set<nat>)
    requires Enumerates(order, s)
    ensures |order| == |s|
  {
    if order != [] {
      var x := order[0];
      forall y
        ensures y in order[1..] <==> y in s - {x}
      {
        if y in order[1..] {
          var i :| 1 <= i < |order| && order[i] == y;
          assert order[0] != order[i];
        }
        if y in s - {x} {
          var i :| 0 <= i < |order| && order[i] == y;
          assert i != 0;
          assert order[1..][i - 1] == y;
        }
      }
      EnumeratesSize(order[1..], s - {x});
    } else {
      assert forall y :: y !in s;
      assert s == {};
    }
  }

  /** The next element of a sequence without duplicates is not among those before it. */
  lemma DistinctStep(s: seq<nat>, i: nat)
    requires Distinct(s) && i < |s|
    ensures s[i] !in s[..i] && s[..i + 1] == s[..i] + [s[i]]
  {
    assert forall j :: 0 <= j < i ==> s[j] != s[i];
  }

  lemma SortedEnumerates(s: set<nat>)
    ensures Enumerates(Sorted(s), s)
  {
    var r := Sorted(s);
    SortedIncreasing(s);
    forall i, j | 0 <= i < j < |r|
      ensures r[i] != r[j]
    {
      assert r[i] < r[j];
    }
  }

  /** An ascending sequence is determined by its elements. */
  lemma {:induction false} IncreasingUnique(a: seq<nat>, b: seq<nat>)
    requires Increasing(a) && Increasing(b)
    requires forall x :: x in a <==> x in b
    ensures a == b
  {
    if a != [] {
      assert a[0] in b;
    }
    if b != [] {
      assert b[0] in a;
    }
    if a != [] && b != [] {
      assert a[0] == b[0] by {
        assert a[0] in b && b[0] in a;
        var i :| 0 <= i < |b| && b[i] == a[0];
        var j :| 0 <= j < |a| && a[j] == b[0];
        assert b[0] <= b[i];
        assert a[0] <= a[j];
      }
      forall x
        ensures x in a[1..] <==> x in b[1..]
      {
        if x in a[1..] {
          var i :| 1 <= i < |a| && a[i] == x;
          assert x != b[0] by { assert a[0] < a[i]; }
          assert x in b;
        }
        if x in b[1..] {
          var i :| 1 <= i < |b| && b[i] == x;
          assert x != a[0] by { assert b[0] < b[i]; }
          assert x in a;
        }
      }
      IncreasingUnique(a[1..], b[1..]);
      assert a == [a[0]] + a[1..] && b == [b[0]] + b[1..];
    }
  }

  /** The ascending traversal starts at the least element and continues with the rest. */
  lemma SortedUnfold(s: set<nat>)
    requires s != {}
    ensures Sorted(s) == [Min(s)] + Sorted(s - {Min(s)})
  {
  }

  /** The elements of `s` from last to first. */
  function Reverse<T(!new)>(s: seq<T>): (r: seq<T>)
    ensures |r| == |s|
    ensures forall x :: x in r <==> x in s
  {
    if s == [] then [] else Reverse(s[1..]) + [s[0]]
  }

  lemma {:induction false} ReverseIndex<T(!new)>(s: seq<T>, i: nat)
    requires i < |s|
    ensures Reverse(s)[i] == s[|s| - 1 - i]
  {
    if i < |s| - 1 {
      ReverseIndex(s[1..], i);
    }
  }

  lemma {:induction false} ReverseConcat<T(!new)>(a: seq<T>, b: seq<T>)
    ensures Reverse(a + b) == Reverse(b) + Reverse(a)
  {
    if a == [] {
      assert a + b == b;
    } else {
      assert (a + b)[1..] == a[1..] + b;
      ReverseConcat(a[1..], b);
    }
  }

  lemma {:induction false} ReverseReverse<T(!new)>(s: seq<T>)
    ensures Reverse(Reverse(s)) == s
  {
    if s != [] {
      ReverseReverse(s[1..]);
      ReverseConcat(Reverse(s[1..]), [s[0]]);
      assert Reverse([s[0]]) == [s[0]];
      assert s == [s[0]] + s[1..];
    }
  }

  /** Removing the last element of a sequence removes the first of its reverse. */
  lemma {:induction false} ReverseDropLast<T(!new)>(s: seq<T>)
    requires s != []
    ensures Reverse(s) == [s[|s| - 1]] + Reverse(s[..|s| - 1])
  {
    assert s == s[..|s| - 1] + [s[|s| - 1]];
    ReverseConcat(s[..|s| - 1], [s[|s| - 1]]);
    assert Reverse([s[|s| - 1]]) == [s[|s| - 1]];
  }
}
