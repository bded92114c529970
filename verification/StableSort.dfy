/** `Array.prototype.sort` with a comparator: a stable sort. `before(x, y)` says the comparator is negative. */
module StableSort {

  /** The comparator orders values as a total preorder does. */
  ghost predicate WeakOrder<T(!new)>(before: (T, T) -> bool) {
    && (forall x, y :: before(x, y) ==> !before(y, x))
    && (forall x, y, z :: !before(x, y) && !before(y, z) ==> !before(x, z))
  }

  ghost predicate Sorted<T>(s: seq<T>, before: (T, T) -> bool) {
    forall i, j :: 0 <= i < j < |s| ==> !before(s[j], s[i])
  }

  /** Put `x` after everything it does not come before. */
  function Insert<T>(x: T, s: seq<T>, before: (T, T) -> bool): (r: seq<T>)
    ensures multiset(r) == multiset(s) + multiset{x}
    ensures |r| == |s| + 1
  {
    if s == [] || !before(x, s[|s| - 1]) then s + [x]
    else
      assert s == s[..|s| - 1] + [s[|s| - 1]];
      Insert(x, s[..|s| - 1], before) + [s[|s| - 1]]
  }

  function Sort<T>(s: seq<T>, before: (T, T) -> bool): (r: seq<T>)
    ensures multiset(r) == multiset(s)
    ensures |r| == |s|
  {
    if s == [] then []
    else
      assert s == s[..|s| - 1] + [s[|s| - 1]];
      Insert(s[|s| - 1], Sort(s[..|s| - 1], before), before)
  }

  function Filter<T(!new)>(s: seq<T>, keep: T -> bool): (r: seq<T>)
    ensures forall x :: x in r <==> x in s && keep(x)
    ensures |r| <= |s|
  {
    if s == [] then []
    else
      var rest := Filter(s[..|s| - 1], keep);
      assert s == s[..|s| - 1] + [s[|s| - 1]];
      if keep(s[|s| - 1]) then rest + [s[|s| - 1]] else rest
  }

  lemma {:induction false} InsertedAre<T(!new)>(x: T, s: seq<T>, before: (T, T) -> bool)
    ensures forall y :: y in Insert(x, s, before) <==> y == x || y in s
  {
    if s != [] && before(x, s[|s| - 1]) {
      InsertedAre(x, s[..|s| - 1], before);
      assert s == s[..|s| - 1] + [s[|s| - 1]];
    }
  }

  lemma {:induction false} InsertSorts<T(!new)>(x: T, s: seq<T>, before: (T, T) -> bool)
    requires WeakOrder(before) && Sorted(s, before)
    ensures Sorted(Insert(x, s, before), before)
  {
    if s != [] {
      var rest, z := s[..|s| - 1], s[|s| - 1];
      if before(x, z) {
        InsertSorts(x, rest, before);
        InsertedAre(x, rest, before);
        var r := Insert(x, rest, before);
        forall i | 0 <= i < |r|
          ensures !before(z, r[i])
        {
          assert r[i] in r;
        }
      } else {
        forall i | 0 <= i < |s|
          ensures !before(x, s[i])
        {
          assert i < |s| - 1 ==> !before(z, s[i]);
        }
      }
    }
  }

  lemma {:induction false} SortSorts<T(!new)>(s: seq<T>, before: (T, T) -> bool)
    requires WeakOrder(before)
    ensures Sorted(Sort(s, before), before)
  {
    if s != [] {
      SortSorts(s[..|s| - 1], before);
      InsertSorts(s[|s| - 1], Sort(s[..|s| - 1], before), before);
    }
  }

  /** Sorting leaves a sorted list as it is. */
  lemma {:induction false} SortKeepsSorted<T>(s: seq<T>, before: (T, T) -> bool)
    requires Sorted(s, before)
    ensures Sort(s, before) == s
  {
    if s != [] {
      SortKeepsSorted(s[..|s| - 1], before);
    }
  }

  lemma {:induction false} InsertKeepsTies<T(!new)>(x: T, s: seq<T>, before: (T, T) -> bool, tied: T -> bool)
    requires forall y, z :: tied(y) && tied(z) ==> !before(y, z)
    ensures Filter(Insert(x, s, before), tied) == Filter(s, tied) + if tied(x) then [x] else []
  {
    if s != [] {
      var rest, z := s[..|s| - 1], s[|s| - 1];
      InsertKeepsTies(x, rest, before, tied);
      if before(x, z) {
        assert Insert(x, s, before)[..|s|] == Insert(x, rest, before);
      } else {
        assert (s + [x])[..|s|] == s;
      }
    }
  }

  /** Stability: values the comparator does not tell apart keep their order. */
  lemma {:induction false} SortKeepsTies<T(!new)>(s: seq<T>, before: (T, T) -> bool, tied: T -> bool)
    requires forall y, z :: tied(y) && tied(z) ==> !before(y, z)
    ensures Filter(Sort(s, before), tied) == Filter(s, tied)
  {
    if s != [] {
      SortKeepsTies(s[..|s| - 1], before, tied);
      InsertKeepsTies(s[|s| - 1], Sort(s[..|s| - 1], before), before, tied);
    }
  }

  lemma {:induction false} FilterKeepsSorted<T(!new)>(s: seq<T>, keep: T -> bool, before: (T, T) -> bool)
    requires Sorted(s, before)
    ensures Sorted(Filter(s, keep), before)
  {
    if s != [] {
      FilterKeepsSorted(s[..|s| - 1], keep, before);
      var kept := Filter(s[..|s| - 1], keep);
      forall i | 0 <= i < |kept|
        ensures !before(s[|s| - 1], kept[i])
      {
        assert kept[i] in kept;
      }
    }
  }
}
