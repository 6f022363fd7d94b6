/** Ordering of query results (ORDER BY ... in the repositories, sort.Strings
    in the middleware). A stable insertion sort over an arbitrary total preorder. */
module Sorting {

  ghost predicate TotalPreorder<T(!new)>(le: (T, T) -> bool) {
    && (forall a, b :: le(a, b) || le(b, a))
    && (forall a, b, c :: le(a, b) && le(b, c) ==> le(a, c))
  }

  predicate SortedBy<T>(xs: seq<T>, le: (T, T) -> bool) {
    forall i, j :: 0 <= i < j < |xs| ==> le(xs[i], xs[j])
  }

  /** Inserts `x` after every element it does not strictly precede. */
  function Insert<T(!new)>(x: T, xs: seq<T>, le: (T, T) -> bool): (r: seq<T>)
    requires TotalPreorder(le)
    requires SortedBy(xs, le)
    ensures SortedBy(r, le)
    ensures multiset(r) == multiset(xs) + multiset{x}
    ensures |r| == |xs| + 1
  {
    if |xs| == 0 then [x]
    else if !le(xs[0], x) then
      assert le(x, xs[0]);
      BelowSorted(x, xs, le);
      SortedCons(x, xs, le);
      [x] + xs
    else
      var rest := Insert(x, xs[1..], le);
      assert xs == [xs[0]] + xs[1..];
      BelowSorted(xs[0], xs[1..], le);
      BelowAll(xs[0], xs[1..], rest, x, le);
      SortedCons(xs[0], rest, le);
      [xs[0]] + rest
  }

  /** A bound of the head of a sorted sequence bounds all of it. */
  lemma BelowSorted<T(!new)>(a: T, xs: seq<T>, le: (T, T) -> bool)
    requires TotalPreorder(le) && SortedBy(xs, le)
    requires |xs| > 0 ==> le(a, xs[0])
    ensures forall j :: 0 <= j < |xs| ==> le(a, xs[j])
  {
    forall j | 0 <= j < |xs| ensures le(a, xs[j]) {
      if j > 0 { assert le(xs[0], xs[j]); }
    }
  }

  /** A lower bound of `ys` and `x` bounds anything with their elements. */
  lemma BelowAll<T>(a: T, ys: seq<T>, zs: seq<T>, x: T, le: (T, T) -> bool)
    requires multiset(zs) == multiset(ys) + multiset{x}
    requires le(a, x) && forall j :: 0 <= j < |ys| ==> le(a, ys[j])
    ensures forall j :: 0 <= j < |zs| ==> le(a, zs[j])
  {
    forall j | 0 <= j < |zs| ensures le(a, zs[j]) {
      assert zs[j] in multiset(zs);
      if zs[j] in multiset(ys) {
        var k :| 0 <= k < |ys| && ys[k] == zs[j];
      }
    }
  }

  lemma SortedCons<T>(a: T, zs: seq<T>, le: (T, T) -> bool)
    requires SortedBy(zs, le) && forall j :: 0 <= j < |zs| ==> le(a, zs[j])
    ensures SortedBy([a] + zs, le)
  {
    var r := [a] + zs;
    forall i, j | 0 <= i < j < |r| ensures le(r[i], r[j]) {
      if i > 0 { assert r[i] == zs[i - 1]; }
      assert r[j] == zs[j - 1];
    }
  }

  /** Sorts `xs` by `le`; equal elements keep their input order. */
  function Sort<T(!new)>(xs: seq<T>, le: (T, T) -> bool): (r: seq<T>)
    requires TotalPreorder(le)
    ensures SortedBy(r, le)
    ensures multiset(r) == multiset(xs)
    ensures |r| == |xs|
  {
    if |xs| == 0 then []
    else
      assert xs == xs[..|xs| - 1] + [xs[|xs| - 1]];
      Insert(xs[|xs| - 1], Sort(xs[..|xs| - 1], le), le)
  }

  /** The elements of `xs` that `p` holds for, in order. */
  function Keep<T>(xs: seq<T>, p: T -> bool): (r: seq<T>)
    ensures forall y <- r :: y in xs && p(y)
    ensures forall y <- xs :: p(y) ==> y in r
  {
    if |xs| == 0 then [] else (if p(xs[0]) then [xs[0]] else []) + Keep(xs[1..], p)
  }

  lemma {:induction false} KeepAppend<T>(a: seq<T>, b: seq<T>, p: T -> bool)
    ensures Keep(a + b, p) == Keep(a, p) + Keep(b, p)
  {
    if |a| > 0 {
      assert (a + b)[0] == a[0];
      assert (a + b)[1..] == a[1..] + b;
      KeepAppend(a[1..], b, p);
    } else {
      assert a + b == b;
    }
  }

  lemma {:induction false} KeepNone<T>(xs: seq<T>, p: T -> bool)
    requires forall z <- xs :: !p(z)
    ensures Keep(xs, p) == []
  {
    if |xs| > 0 {
      assert xs[0] in xs;
      KeepNone(xs[1..], p);
    }
  }

  lemma ConcatAssoc<T>(a: seq<T>, b: seq<T>, c: seq<T>)
    ensures a + (b + c) == (a + b) + c
  {
  }

  /** Keeping distributes over splitting off the last element. */
  lemma KeepLast<T>(xs: seq<T>, p: T -> bool)
    requires |xs| > 0
    ensures Keep(xs, p) == Keep(xs[..|xs| - 1], p) + (if p(xs[|xs| - 1]) then [xs[|xs| - 1]] else [])
  {
    var init, last := xs[..|xs| - 1], xs[|xs| - 1];
    assert xs == init + [last];
    KeepAppend(init, [last], p);
    assert Keep([last], p) == (if p(last) then [last] else []) + Keep([], p);
  }

  /** The elements the preorder ties with `x`. */
  function Tied<T>(le: (T, T) -> bool, x: T): T -> bool {
    (y: T) => le(x, y) && le(y, x)
  }

  /** What lies above an element strictly above `y` does not tie with `y`. */
  lemma AboveNotTied<T(!new)>(le: (T, T) -> bool, x: T, y: T, a: T, z: T)
    requires TotalPreorder(le)
    requires Tied(le, x)(y) && le(a, z) && !le(a, y)
    ensures !Tied(le, x)(z)
  {
  }

  /** Insertion puts `y` after every element it ties with. */
  lemma {:induction false} InsertStable<T(!new)>(y: T, xs: seq<T>, le: (T, T) -> bool, x: T)
    requires TotalPreorder(le)
    requires SortedBy(xs, le)
    ensures Keep(Insert(y, xs, le), Tied(le, x)) == Keep(xs, Tied(le, x)) + (if Tied(le, x)(y) then [y] else [])
  {
    if |xs| == 0 {
      assert Insert(y, xs, le) == [y];
      assert Keep([y], Tied(le, x)) == (if Tied(le, x)(y) then [y] else []) + Keep([], Tied(le, x));
    } else if !le(xs[0], y) {
      assert Insert(y, xs, le) == [y] + xs;
      InsertFrontStable(y, xs, le, x);
    } else {
      var p := Tied(le, x);
      var tail := if p(y) then [y] else [];
      var rest := Insert(y, xs[1..], le);
      assert xs == [xs[0]] + xs[1..];
      BelowSorted(xs[0], xs[1..], le);
      assert Insert(y, xs, le) == [xs[0]] + rest;
      InsertStable(y, xs[1..], le, x);
      KeepAppend([xs[0]], rest, p);
      KeepAppend([xs[0]], xs[1..], p);
      calc {
        Keep(Insert(y, xs, le), p);
        Keep([xs[0]], p) + Keep(rest, p);
        Keep([xs[0]], p) + (Keep(xs[1..], p) + tail);
        { ConcatAssoc(Keep([xs[0]], p), Keep(xs[1..], p), tail); }
        (Keep([xs[0]], p) + Keep(xs[1..], p)) + tail;
        Keep(xs, p) + tail;
      }
    }
  }

  /** When `y` goes in front, nothing after it ties with it. */
  lemma InsertFrontStable<T(!new)>(y: T, xs: seq<T>, le: (T, T) -> bool, x: T)
    requires TotalPreorder(le)
    requires SortedBy(xs, le)
    requires |xs| > 0 && !le(xs[0], y)
    ensures Keep([y] + xs, Tied(le, x)) == Keep(xs, Tied(le, x)) + (if Tied(le, x)(y) then [y] else [])
  {
    var p := Tied(le, x);
    KeepAppend([y], xs, p);
    if p(y) {
      forall z | z in xs ensures !p(z) {
        var j :| 0 <= j < |xs| && xs[j] == z;
        AboveNotTied(le, x, y, xs[0], z);
      }
      KeepNone(xs, p);
    }
  }

  /** Sorting inserts the last element into the sorted rest. */
  lemma SortLast<T(!new)>(xs: seq<T>, le: (T, T) -> bool)
    requires TotalPreorder(le)
    requires |xs| > 0
    ensures Sort(xs, le) == Insert(xs[|xs| - 1], Sort(xs[..|xs| - 1], le), le)
  {
  }

  /** Stability: the elements tied with any `x` keep their input order. */
  lemma {:induction false} SortStable<T(!new)>(xs: seq<T>, le: (T, T) -> bool, x: T)
    requires TotalPreorder(le)
    ensures Keep(Sort(xs, le), Tied(le, x)) == Keep(xs, Tied(le, x))
  {
    if |xs| > 0 {
      var p := Tied(le, x);
      var init, last := xs[..|xs| - 1], xs[|xs| - 1];
      var tail := if p(last) then [last] else [];
      var sorted := Sort(init, le);
      assert Keep(Sort(xs, le), p) == Keep(sorted, p) + tail by {
        SortLast(xs, le);
        InsertStable(last, sorted, le, x);
      }
      assert Keep(sorted, p) == Keep(init, p) by {
        SortStable(init, le, x);
      }
      KeepLast(xs, p);
    }
  }

  /** Elements are kept: an element is in the sorted sequence iff it is in the input. */
  lemma SortKeepsElements<T(!new)>(xs: seq<T>, le: (T, T) -> bool, x: T)
    requires TotalPreorder(le)
    ensures x in Sort(xs, le) <==> x in xs
  {
    var r := Sort(xs, le);
    assert x in r <==> x in multiset(r);
    assert x in xs <==> x in multiset(xs);
  }

  /** The same, for every element at once. */
  lemma SortKeepsElementsAll<T(!new)>(xs: seq<T>, le: (T, T) -> bool)
    requires TotalPreorder(le)
    ensures forall x :: x in Sort(xs, le) <==> x in xs
  {
    forall x {
      SortKeepsElements(xs, le, x);
    }
  }

  /** Ascending order on integers, as a comparator. */
  function AscendingBy<T>(key: T -> int): (T, T) -> bool {
    (a: T, b: T) => key(a) <= key(b)
  }

  /** Descending order on integers, as a comparator. */
  function DescendingBy<T>(key: T -> int): (T, T) -> bool {
    (a: T, b: T) => key(a) >= key(b)
  }

  lemma AscendingIsPreorder<T(!new)>(key: T -> int)
    ensures TotalPreorder(AscendingBy(key))
  {
  }

  lemma DescendingIsPreorder<T(!new)>(key: T -> int)
    ensures TotalPreorder(DescendingBy(key))
  {
  }
}
