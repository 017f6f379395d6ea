/**
  Sorting one row of the linear-approximation table into non-decreasing
  order, the job `sortprobs` hands to `qsort` with `cmpfunc`.

  The sort is specified by its result: a non-decreasing rearrangement of the
  row. Which of two equal deviations lands first cannot be observed, so the
  comparator's missing "equal" answer does not matter here.
*/
module RowSort {

  predicate Sorted(s: seq<real>)
  {
    forall a, b :: 0 <= a < b < |s| ==> s[a] <= s[b]
  }

  /** x placed in front of the first element that is not smaller. */
  function Insert(x: real, s: seq<real>): (r: seq<real>)
    requires Sorted(s)
    ensures |r| == |s| + 1
    ensures multiset(r) == multiset(s) + multiset{x}
    ensures Sorted(r)
  {
    if s == [] || x <= s[0] then
      SortedCons(x, s);
      [x] + s
    else
      var rest := Insert(x, s[1..]);
      assert s == [s[0]] + s[1..];
      LowerBound(s[0], x, s[1..], rest);
      SortedCons(s[0], rest);
      [s[0]] + rest
  }

  lemma SortedCons(lo: real, s: seq<real>)
    requires Sorted(s) && (s == [] || lo <= s[0])
    ensures Sorted([lo] + s)
  {
  }

  /** A lower bound of x and of every element of s bounds every element of a
      rearrangement of s with x added. */
  lemma LowerBound(lo: real, x: real, s: seq<real>, r: seq<real>)
    requires lo <= x && forall a :: 0 <= a < |s| ==> lo <= s[a]
    requires multiset(r) == multiset(s) + multiset{x}
    ensures forall a :: 0 <= a < |r| ==> lo <= r[a]
  {
    forall a | 0 <= a < |r|
      ensures lo <= r[a]
    {
      assert r[a] in multiset(r);
      if r[a] != x {
        assert r[a] in multiset(s);
      }
    }
  }

  /** Insertion sort of one row. */
  method SortRow(row: seq<real>) returns (sorted: seq<real>)
    ensures |sorted| == |row|
    ensures Sorted(sorted)
    ensures multiset(sorted) == multiset(row)
  {
    sorted := [];
    var k := 0;
    while k < |row|
      invariant 0 <= k <= |row|
      invariant |sorted| == k
      invariant Sorted(sorted)
      invariant multiset(sorted) == multiset(row[..k])
    {
      assert row[..k + 1] == row[..k] + [row[k]];
      sorted := Insert(row[k], sorted);
      k := k + 1;
    }
    assert row[..k] == row;
  }

  /** The last element of a sorted row is its largest. */
  lemma SortedLast(s: seq<real>, a: nat)
    requires Sorted(s) && a < |s|
    ensures s[a] <= s[|s| - 1]
  {
  }
}
