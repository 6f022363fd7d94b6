/** Table queries over rows kept in insertion (primary-key) order: WHERE is a
    filter, First is the first matching row, `ORDER BY k DESC` + First is the
    first row with the greatest key, and Save replaces the row with the same
    primary key. */
module Seqs {
  import opened Wrappers

  /** The rows satisfying `p`, in their original order. */
  function Filter<T(!new)>(xs: seq<T>, p: T -> bool): (r: seq<T>)
    ensures |r| <= |xs|
    ensures forall x :: x in r <==> x in xs && p(x)
    ensures forall i :: 0 <= i < |r| ==> p(r[i])
    ensures multiset(r) <= multiset(xs)
  {
    if |xs| == 0 then []
    else
      var rest := Filter(xs[1..], p);
      assert xs == [xs[0]] + xs[1..];
      if p(xs[0]) then [xs[0]] + rest else rest
  }

  /** Filtering keeps a sequence whole exactly when every element passes. */
  lemma {:induction false} FilterAll<T(!new)>(xs: seq<T>, p: T -> bool)
    requires forall i :: 0 <= i < |xs| ==> p(xs[i])
    ensures Filter(xs, p) == xs
  {
    if |xs| > 0 {
      FilterAll(xs[1..], p);
    }
  }

  /** Filtering distributes over concatenation. */
  lemma {:induction false} FilterAppend<T(!new)>(xs: seq<T>, ys: seq<T>, p: T -> bool)
    ensures Filter(xs + ys, p) == Filter(xs, p) + Filter(ys, p)
  {
    if |xs| == 0 {
      assert xs + ys == ys;
    } else {
      assert (xs + ys)[1..] == xs[1..] + ys;
      FilterAppend(xs[1..], ys, p);
    }
  }

  /** The first element satisfying `p` (gorm's First with a WHERE clause). */
  function First<T>(xs: seq<T>, p: T -> bool): (r: Option<T>)
    ensures r.None? <==> forall i :: 0 <= i < |xs| ==> !p(xs[i])
    ensures r.Some? ==> exists i :: 0 <= i < |xs| && xs[i] == r.value && p(xs[i])
                          && forall j :: 0 <= j < i ==> !p(xs[j])
  {
    if |xs| == 0 then None
    else if p(xs[0]) then Some(xs[0])
    else
      var r := First(xs[1..], p);
      assert forall i :: 1 <= i < |xs| ==> xs[i] == xs[1..][i - 1];
      r
  }

  /** The first element with the greatest `key` ("ORDER BY key DESC" then
      First, which breaks ties by primary key). */
  function FirstMax<T>(xs: seq<T>, key: T -> int): (r: Option<T>)
    ensures r.None? <==> |xs| == 0
    ensures r.Some? ==> forall i :: 0 <= i < |xs| ==> key(xs[i]) <= key(r.value)
    ensures r.Some? ==> exists i :: 0 <= i < |xs| && xs[i] == r.value
                          && forall j :: 0 <= j < i ==> key(xs[j]) < key(r.value)
  {
    if |xs| == 0 then None
    else
      var m := FirstMax(xs[..|xs| - 1], key);
      var last := xs[|xs| - 1];
      assert forall i :: 0 <= i < |xs| - 1 ==> xs[i] == xs[..|xs| - 1][i];
      if m.None? || key(last) > key(m.value) then Some(last) else m
  }

  /** "WHERE p ORDER BY key DESC" then First: among the rows satisfying
      `p`, the first with the greatest key. */
  function FirstMaxWhere<T>(xs: seq<T>, p: T -> bool, key: T -> int): (r: Option<T>)
    ensures r.None? <==> forall i :: 0 <= i < |xs| ==> !p(xs[i])
    ensures r.Some? ==> p(r.value) && forall i :: 0 <= i < |xs| && p(xs[i]) ==> key(xs[i]) <= key(r.value)
    ensures r.Some? ==>
      exists i :: 0 <= i < |xs| && xs[i] == r.value
        && (forall j :: 0 <= j < i && p(xs[j]) ==> key(xs[j]) < key(r.value))
  {
    if |xs| == 0 then None
    else
      var m := FirstMaxWhere(xs[..|xs| - 1], p, key);
      var last := xs[|xs| - 1];
      assert forall i :: 0 <= i < |xs| - 1 ==> xs[i] == xs[..|xs| - 1][i];
      if p(last) && (m.None? || key(last) > key(m.value)) then Some(last) else m
  }

  /** Save: every row whose id is that of `x` becomes `x`. */
  function Replace<T>(xs: seq<T>, id: T -> int, x: T): (r: seq<T>)
    ensures |r| == |xs|
    ensures forall i :: 0 <= i < |xs| ==> r[i] == (if id(xs[i]) == id(x) then x else xs[i])
  {
    seq(|xs|, i requires 0 <= i < |xs| => if id(xs[i]) == id(x) then x else xs[i])
  }

  /** Delete by primary key: the rows whose id is not `k`, in order. */
  function Remove<T(!new)>(xs: seq<T>, id: T -> int, k: int): (r: seq<T>)
    ensures forall x :: x in r <==> x in xs && id(x) != k
  {
    if |xs| == 0 then []
    else
      var rest := Remove(xs[1..], id, k);
      assert xs == [xs[0]] + xs[1..];
      if id(xs[0]) != k then [xs[0]] + rest else rest
  }

  /** Ids increase along the rows. */
  predicate Increasing<T>(xs: seq<T>, id: T -> int) {
    forall i, j :: 0 <= i < j < |xs| ==> id(xs[i]) < id(xs[j])
  }

  /** Deleting rows keeps the ids increasing. */
  lemma {:induction false} RemoveKeepsIncreasing<T(!new)>(xs: seq<T>, id: T -> int, k: int)
    requires Increasing(xs, id)
    ensures Increasing(Remove(xs, id, k), id)
  {
    if |xs| > 0 {
      var tail := xs[1..];
      assert Increasing(tail, id) by {
        forall i, j | 0 <= i < j < |tail| ensures id(tail[i]) < id(tail[j]) {
          assert tail[i] == xs[i + 1] && tail[j] == xs[j + 1];
        }
      }
      RemoveKeepsIncreasing(tail, id, k);
      var rest := Remove(tail, id, k);
      if id(xs[0]) != k {
        forall x | x in rest ensures id(xs[0]) < id(x) {
          var m :| 0 <= m < |tail| && tail[m] == x;
          assert xs[m + 1] == x;
        }
        var r := [xs[0]] + rest;
        forall i, j | 0 <= i < j < |r| ensures id(r[i]) < id(r[j]) {
          assert r[j] == rest[j - 1];
          assert r[j] in rest;
          if i > 0 {
            assert r[i] == rest[i - 1];
          }
        }
      }
    }
  }
}
