/**
 * Row order. A SELECT without ORDER BY on an autoincrement table hands rows
 * back in insertion order, which is ascending id order; Python dictionaries
 * keyed by such ids iterate in the same order as long as keys are inserted
 * with growing ids. Both are modelled by enumerating a set of ids in
 * ascending order.
 */
module Rows {

  /** Each element is strictly smaller than every later one. */
  predicate StrictlyAscending(s: seq<int>) {
    forall i, j :: 0 <= i < j < |s| ==> s[i] < s[j]
  }

  /** No element occurs twice. */
  predicate Distinct<T(==)>(s: seq<T>) {
    forall i, j :: 0 <= i < j < |s| ==> s[i] != s[j]
  }

  /** A set is empty or has a member; stated without a requires so that it can be used to pick from a non-empty set. */
  lemma EmptyOrInhabited<T>(keys: set<T>)
    ensures keys == {} || exists y :: y in keys
  {
    if forall y :: y !in keys {
      assert keys == {};
    }
  }

  /** Some member of a non-empty set. */
  lemma PickOne<T>(keys: set<T>) returns (x: T)
    requires keys != {}
    ensures x in keys
  {
    EmptyOrInhabited(keys);
    x :| x in keys;
  }

  lemma {:induction false} MinExists(keys: set<int>)
    requires keys != {}
    ensures exists m :: m in keys && forall k :: k in keys ==> m <= k
    decreases |keys|
  {
    var x := PickOne(keys);
    var rest := keys - {x};
    if rest == {} {
      forall k | k in keys ensures x <= k {
        assert k !in rest;
      }
    } else {
      MinExists(rest);
      var m :| m in rest && forall k :: k in rest ==> m <= k;
      var least := if x < m then x else m;
      assert least in keys;
      forall k | k in keys ensures least <= k {
        if k != x {
          assert k in rest;
        }
      }
      assert least in keys && forall k :: k in keys ==> least <= k;
    }
  }

  /** The smallest id of a non-empty set. */
  function Min(keys: set<int>): (m: int)
    requires keys != {}
    ensures m in keys
    ensures forall k :: k in keys ==> m <= k
  {
    MinExists(keys);
    var m :| m in keys && forall k :: k in keys ==> m <= k;
    m
  }

  /** The ids of `keys`, each once, smallest first. */
  function Ascending(keys: set<int>): (r: seq<int>)
    ensures StrictlyAscending(r)
    ensures forall x :: x in r <==> x in keys
    ensures |r| == |keys|
    decreases |keys|
  {
    if keys == {} then []
    else
      var m := Min(keys);
      var rest := Ascending(keys - {m});
      assert forall i :: 0 <= i < |rest| ==> m < rest[i] by {
        forall i | 0 <= i < |rest| ensures m < rest[i] {
          assert rest[i] in keys - {m};
        }
      }
      [m] + rest
  }

  /** The elements of the enumeration, as a set, are the keys. */
  lemma AscendingElements(keys: set<int>)
    ensures (set i | 0 <= i < |Ascending(keys)| :: Ascending(keys)[i]) == keys
  {
    var r := Ascending(keys);
    var e := set i | 0 <= i < |r| :: r[i];
    forall k | k in keys ensures k in e {
      var i := IndexOf(r, k);
    }
  }

  lemma StrictlyAscendingTail(s: seq<int>)
    requires StrictlyAscending(s) && s != []
    ensures StrictlyAscending(s[1..])
  {
    forall i, j | 0 <= i < j < |s[1..]| ensures s[1..][i] < s[1..][j] {
      assert s[1..][i] == s[i + 1] && s[1..][j] == s[j + 1];
    }
  }

  lemma StrictlyAscendingIsDistinct(s: seq<int>)
    requires StrictlyAscending(s)
    ensures Distinct(s)
  {
  }

  /** Position of `x` in a sequence that holds it. */
  function IndexOf<T(==)>(xs: seq<T>, x: T): (i: int)
    requires x in xs
    ensures 0 <= i < |xs| && xs[i] == x
  {
    if xs[0] == x then 0 else 1 + IndexOf(xs[1..], x)
  }

  /** The values `m` holds under `ids`, in the order of `ids`. */
  function At<V>(m: map<int, V>, ids: seq<int>): (r: seq<V>)
    requires forall i :: 0 <= i < |ids| ==> ids[i] in m
    ensures |r| == |ids|
    ensures forall i :: 0 <= i < |ids| ==> r[i] == m[ids[i]]
  {
    if ids == [] then [] else [m[ids[0]]] + At(m, ids[1..])
  }

  /** The rows of `m` whose keys are in `keys`, in ascending key order: a filtered SELECT. */
  function Select<V(!new)>(m: map<int, V>, keys: set<int>): (r: seq<V>)
    requires keys <= m.Keys
    ensures |r| == |keys|
    ensures forall v :: v in r <==> exists k :: k in keys && m[k] == v
    ensures forall i :: 0 <= i < |r| ==> r[i] == m[Ascending(keys)[i]]
  {
    var ids := Ascending(keys);
    AtMembers(m, ids, keys);
    At(m, ids)
  }

  /** Selecting the same keys from two maps that agree on them gives the same rows. */
  lemma SelectAgrees<V(!new)>(m1: map<int, V>, m2: map<int, V>, keys: set<int>)
    requires keys <= m1.Keys && keys <= m2.Keys
    requires forall k :: k in keys ==> m1[k] == m2[k]
    ensures Select(m1, keys) == Select(m2, keys)
  {
    var r1, r2 := Select(m1, keys), Select(m2, keys);
    forall i | 0 <= i < |r1|
      ensures r1[i] == r2[i]
    {
      assert Ascending(keys)[i] in Ascending(keys);
    }
  }

  /** The values under an enumeration of `keys` are exactly the values `m` holds under `keys`. */
  lemma AtMembers<V(!new)>(m: map<int, V>, ids: seq<int>, keys: set<int>)
    requires forall i :: 0 <= i < |ids| ==> ids[i] in keys
    requires forall k :: k in keys ==> k in ids
    requires keys <= m.Keys
    ensures forall v :: v in At(m, ids) <==> exists k :: k in keys && m[k] == v
  {
    var r := At(m, ids);
    forall v | v in r
      ensures exists k :: k in keys && m[k] == v
    {
      var i := IndexOf(r, v);
      var k := ids[i];
      assert k in keys && m[k] == v;
    }
    forall k | k in keys
      ensures m[k] in r
    {
      var i := IndexOf(ids, k);
      assert r[i] == m[k];
    }
  }

  /** `xs` with its first occurrence of `e` removed, or unchanged when `e` does not occur. */
  function RemoveFirst<T(==)>(xs: seq<T>, e: T): (r: seq<T>)
    ensures e !in xs ==> r == xs
    ensures e in xs ==> |r| == |xs| - 1
    ensures multiset(r) == multiset(xs) - multiset{e}
  {
    if xs == [] then []
    else
      assert xs == [xs[0]] + xs[1..];
      if xs[0] == e then xs[1..] else [xs[0]] + RemoveFirst(xs[1..], e)
  }

  /** Removing from a list without repetitions keeps it so, and takes out exactly `e`. */
  lemma {:induction false} RemoveFirstDistinct<T>(xs: seq<T>, e: T)
    requires Distinct(xs)
    ensures Distinct(RemoveFirst(xs, e))
    ensures forall y :: y in RemoveFirst(xs, e) <==> y in xs && y != e
  {
    if xs != [] {
      assert xs == [xs[0]] + xs[1..];
      DistinctSplit(xs);
      if xs[0] != e {
        RemoveFirstDistinct(xs[1..], e);
        var rest := RemoveFirst(xs[1..], e);
        assert RemoveFirst(xs, e) == [xs[0]] + rest;
        assert xs[0] !in rest;
        PrependDistinct(xs[0], rest);
      } else {
        assert RemoveFirst(xs, e) == xs[1..];
      }
    }
  }

  /** A list without repetitions is its head, which its tail does not hold, then a tail without repetitions. */
  lemma DistinctSplit<T>(xs: seq<T>)
    requires Distinct(xs) && xs != []
    ensures xs[0] !in xs[1..] && Distinct(xs[1..])
  {
    forall i, j | 0 <= i < j < |xs[1..]| ensures xs[1..][i] != xs[1..][j] {
      assert xs[1..][i] == xs[i + 1] && xs[1..][j] == xs[j + 1];
    }
  }

  /** Putting an element the list does not hold in front of a list without repetitions keeps it so. */
  lemma PrependDistinct<T>(e: T, xs: seq<T>)
    requires Distinct(xs) && e !in xs
    ensures Distinct([e] + xs)
  {
    forall i, j | 0 <= i < j < |[e] + xs| ensures ([e] + xs)[i] != ([e] + xs)[j] {
      assert ([e] + xs)[j] == xs[j - 1];
      if i > 0 {
        assert ([e] + xs)[i] == xs[i - 1];
      }
    }
  }

  /** Appending a new element to a list without repetitions keeps it so. */
  lemma AppendDistinct<T>(xs: seq<T>, e: T)
    requires Distinct(xs) && e !in xs
    ensures Distinct(xs + [e])
  {
    forall i, j | 0 <= i < j < |xs + [e]| ensures (xs + [e])[i] != (xs + [e])[j] {
      if j == |xs| {
        assert (xs + [e])[i] == xs[i];
      }
    }
  }
}
