/** `order by` over rows: sorting a sequence, or listing a set, under a strict total order. */
module Ordering {

  ghost predicate StrictTotal<T(!new)>(less: (T, T) -> bool, s: set<T>) {
    && (forall x :: x in s ==> !less(x, x))
    && (forall x, y :: x in s && y in s && x != y ==> less(x, y) || less(y, x))
    && (forall x, y, z :: x in s && y in s && z in s && less(x, y) && less(y, z) ==> less(x, z))
  }

  ghost predicate Ascending<T>(less: (T, T) -> bool, xs: seq<T>) {
    forall i, j :: 0 <= i < j < |xs| ==> less(xs[i], xs[j])
  }

  function Elements<T>(xs: seq<T>): set<T> {
    set x | x in xs
  }

  /** The elements that come before `x`; how many there are is `x`'s zero-based rank. */
  ghost function Before<T(!new)>(less: (T, T) -> bool, s: set<T>, x: T): set<T> {
    set y | y in s && less(y, x)
  }

  lemma {:induction false} HasLeast<T(!new)>(less: (T, T) -> bool, s: set<T>) returns (least: T)
    requires s != {} && StrictTotal(less, s)
    ensures least in s && forall y :: y in s && y != least ==> less(least, y)
    decreases |s|
  {
    var x :| x in s;
    if s == {x} {
      least := x;
    } else {
      var rest := HasLeast(less, s - {x});
      least := if less(x, rest) then x else rest;
      assert forall y :: y in s ==> y == x || y in s - {x};
    }
  }

  /** The set listed in order: `select ... order by`. */
  ghost function Sorted<T(!new)>(less: (T, T) -> bool, s: set<T>): (xs: seq<T>)
    requires StrictTotal(less, s)
    ensures Elements(xs) == s && Ascending(less, xs) && |xs| == |s|
    decreases |s|
  {
    if s == {} then []
    else
      var least := Least(less, s);
      [least] + Sorted(less, s - {least})
  }

  ghost function Least<T(!new)>(less: (T, T) -> bool, s: set<T>): (least: T)
    requires s != {} && StrictTotal(less, s)
    ensures least in s && forall y :: y in s && y != least ==> less(least, y)
  {
    assert exists x :: x in s && forall y :: y in s && y != x ==> less(x, y) by {
      var x := HasLeast(less, s);
      assert x in s;
    }
    var x :| x in s && forall y :: y in s && y != x ==> less(x, y);
    x
  }

  /** An element stands where its rank says. */
  lemma {:induction false} RankIsPosition<T(!new)>(less: (T, T) -> bool, xs: seq<T>, k: nat)
    requires StrictTotal(less, Elements(xs)) && Ascending(less, xs) && k < |xs|
    ensures Before(less, Elements(xs), xs[k]) == Elements(xs[..k])
    ensures |Elements(xs[..k])| == k
  {
    forall y | y in Elements(xs)
      ensures less(y, xs[k]) <==> y in xs[..k]
    {
      var i :| 0 <= i < |xs| && xs[i] == y;
      if i > k { assert less(xs[k], xs[i]); }
    }
    AscendingDistinct(less, xs);
    DistinctCount(xs[..k]);
  }

  lemma AscendingDistinct<T(!new)>(less: (T, T) -> bool, xs: seq<T>)
    requires StrictTotal(less, Elements(xs)) && Ascending(less, xs)
    ensures Distinct(xs)
  {
    forall i, j | 0 <= i < j < |xs|
      ensures xs[i] != xs[j]
    {
      assert less(xs[i], xs[j]);
      assert xs[j] in Elements(xs);
    }
  }

  ghost predicate Distinct<T>(xs: seq<T>) {
    forall i, j :: 0 <= i < j < |xs| ==> xs[i] != xs[j]
  }

  lemma {:induction false} DistinctCount<T>(xs: seq<T>)
    requires Distinct(xs)
    ensures |Elements(xs)| == |xs|
    decreases |xs|
  {
    if xs == [] {
      assert Elements(xs) == {};
    } else {
      var n := |xs| - 1;
      var init, x := xs[..n], xs[n];
      assert xs == init + [x];
      DistinctCount(init);
      SnocElements(init, x);
      assert x !in Elements(init);
    }
  }

  lemma SnocElements<T>(xs: seq<T>, x: T)
    ensures Elements(xs + [x]) == Elements(xs) + {x}
  {
  }

  /** There is only one way to list the same elements in ascending order. */
  lemma {:induction false} AscendingIsUnique<T(!new)>(less: (T, T) -> bool, xs: seq<T>, ys: seq<T>)
    requires StrictTotal(less, Elements(xs)) && Elements(xs) == Elements(ys)
    requires Ascending(less, xs) && Ascending(less, ys)
    ensures xs == ys
    decreases |xs|
  {
    if xs == [] {
      assert forall i :: 0 <= i < |ys| ==> ys[i] in Elements(ys);
    } else {
      assert xs[0] in Elements(ys) && ys[0] in Elements(xs);
      TailElements(less, xs);
      TailElements(less, ys);
      AscendingIsUnique(less, xs[1..], ys[1..]);
    }
  }

  lemma TailElements<T(!new)>(less: (T, T) -> bool, xs: seq<T>)
    requires xs != [] && StrictTotal(less, Elements(xs)) && Ascending(less, xs)
    ensures Elements(xs[1..]) == Elements(xs) - {xs[0]} && Ascending(less, xs[1..])
    ensures StrictTotal(less, Elements(xs[1..]))
  {
    assert xs == [xs[0]] + xs[1..];
  }

  function Take<T>(xs: seq<T>, n: nat): seq<T> {
    if n < |xs| then xs[..n] else xs
  }

  /** `order by ... limit n`. */
  ghost function Top<T(!new)>(less: (T, T) -> bool, s: set<T>, n: nat): (xs: seq<T>)
    requires StrictTotal(less, s)
    ensures |xs| <= n && Elements(xs) <= s
  {
    Take(Sorted(less, s), n)
  }

  /** A place among the first `n` is in what is taken. */
  lemma TakeHas<T>(xs: seq<T>, n: nat, k: nat)
    requires k < |xs|
    ensures k < n ==> xs[k] in Take(xs, n)
  {
    if k < n {
      assert Take(xs, n)[k] == xs[k];
    }
  }

  lemma SubsetCount<T>(a: set<T>, b: set<T>)
    requires a <= b
    ensures |a| <= |b|
  {
    assert b == a + (b - a);
  }

  // -------------------------------------------------------------------------------------------
  // Sorting a sequence
  // -------------------------------------------------------------------------------------------

  function InsertSorted<T>(less: (T, T) -> bool, x: T, xs: seq<T>): seq<T> {
    if xs == [] || less(x, xs[0]) then [x] + xs
    else [xs[0]] + InsertSorted(less, x, xs[1..])
  }

  function Sort<T>(less: (T, T) -> bool, xs: seq<T>): seq<T> {
    if xs == [] then [] else InsertSorted(less, xs[0], Sort(less, xs[1..]))
  }

  lemma {:induction false} InsertSortedKeeps<T(!new)>(less: (T, T) -> bool, x: T, xs: seq<T>)
    requires StrictTotal(less, Elements(xs) + {x}) && Ascending(less, xs) && x !in xs
    ensures Ascending(less, InsertSorted(less, x, xs))
    ensures Elements(InsertSorted(less, x, xs)) == Elements(xs) + {x}
    ensures |InsertSorted(less, x, xs)| == |xs| + 1
    decreases |xs|
  {
    if xs == [] || less(x, xs[0]) {
      assert forall i :: 0 < i < |xs| ==> less(xs[0], xs[i]);
    } else {
      TailElements(less, xs);
      assert xs[0] in Elements(xs);
      InsertSortedKeeps(less, x, xs[1..]);
      var rest := InsertSorted(less, x, xs[1..]);
      forall y | y in Elements(rest)
        ensures less(xs[0], y)
      {
        if y != x {
          var i :| 0 <= i < |xs[1..]| && xs[1..][i] == y;
          assert less(xs[0], xs[i + 1]);
        }
      }
      assert forall i :: 0 <= i < |rest| ==> rest[i] in Elements(rest);
    }
  }

  /** `order by` over a sequence without repeats lists the same rows, ascending. */
  lemma {:induction false} SortSorts<T(!new)>(less: (T, T) -> bool, xs: seq<T>)
    requires StrictTotal(less, Elements(xs))
    requires Distinct(xs)
    ensures Ascending(less, Sort(less, xs)) && Elements(Sort(less, xs)) == Elements(xs)
    ensures |Sort(less, xs)| == |xs|
    decreases |xs|
  {
    if xs != [] {
      assert forall i :: 0 <= i < |xs[1..]| ==> xs[1..][i] == xs[i + 1];
      assert Elements(xs) == Elements(xs[1..]) + {xs[0]};
      SortSorts(less, xs[1..]);
      assert xs[0] !in Elements(xs[1..]);
      assert xs[0] !in Elements(Sort(less, xs[1..]));
      InsertSortedKeeps(less, xs[0], Sort(less, xs[1..]));
    }
  }
}
