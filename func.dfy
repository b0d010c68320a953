/** func.py: `reorder`, which applies an index map to a list, and
    `hecate_sort`, which is meant to sort a list and report where each
    sorted value came from. */
module Func {
  import opened Sorting

  /** The list whose i-th element is s[m[i]]. */
  function Reordered<T>(s: seq<T>, m: seq<int>): (r: seq<T>)
    requires |m| >= |s| && forall i :: 0 <= i < |s| ==> 0 <= m[i] < |s|
    ensures |r| == |s|
  {
    seq(|s|, i requires 0 <= i < |s| => s[m[i]])
  }

  /** `reorder(sorted_l, index_map)`: fills `ordered = [0] * size` in a loop. */
  method Reorder<T(0)>(sortedL: seq<T>, indexMap: seq<int>) returns (ordered: seq<T>)
    requires |indexMap| >= |sortedL| && forall i :: 0 <= i < |sortedL| ==> 0 <= indexMap[i] < |sortedL|
    ensures ordered == Reordered(sortedL, indexMap)
  {
    var size := |sortedL|;
    var o := new T[size];
    for i := 0 to size
      invariant forall k :: 0 <= k < i ==> o[k] == sortedL[indexMap[k]]
    {
      o[i] := sortedL[indexMap[i]];
    }
    ordered := o[..];
  }

  /** The identity map [0, 1, ..., n - 1]. */
  function Identity(n: nat): (m: seq<int>)
    ensures |m| == n && forall i :: 0 <= i < n ==> m[i] == i
  {
    seq(n, i => i)
  }

  /** Reordering by the identity map gives the list back. */
  lemma ReorderIdentity<T>(s: seq<T>)
    ensures Reordered(s, Identity(|s|)) == s
  {
  }

  /** The integers of a list as sort keys. */
  function Keys(s: seq<int>): (k: seq<real>)
    ensures |k| == |s| && forall i :: 0 <= i < |s| ==> k[i] == s[i] as real
  {
    seq(|s|, i requires 0 <= i < |s| => s[i] as real)
  }

  /** Reordering by a stable ascending argsort gives the values in
      ascending order, each taken from the position the map names, and
      the map names every position once. */
  lemma ReorderArgSort(s: seq<int>)
    ensures var m := ArgSort(Keys(s)); var r := Reordered(s, m);
      && IsPermutation(m, |s|)
      && (forall i :: 0 <= i < |s| ==> r[i] == s[m[i]])
      && (forall a, b :: 0 <= a < b < |r| ==> r[a] <= r[b])
  {
    var m := ArgSort(Keys(s));
    var r := Reordered(s, m);
    forall a, b | 0 <= a < b < |r| ensures r[a] <= r[b] {
      assert Before(Keys(s), m[a], m[b]);
    }
  }

  /** `index_map = [0] * size` followed by `index_map[i] = i`. */
  method IdentityMap(size: nat) returns (indexMap: seq<int>)
    ensures indexMap == Identity(size)
  {
    var a := new int[size];
    for i := 0 to size
      invariant forall k :: 0 <= k < i ==> a[k] == k
    {
      a[i] := i;
    }
    indexMap := a[..];
  }

  /** What `hecate_sort` returns, or the IndexError it raises. */
  datatype SortOutcome = Sorted(values: seq<int>, indexMap: seq<int>) | KeyIndexError

  /** `hecate_sort` as written, on a list of integers (its one caller
      passes shot lengths). `unsorted.sort(key=lambda index:
      unsorted[index])` computes the keys while CPython shows the list as
      empty, so the first key raises IndexError; the list is left as it
      was. Only the empty list sorts, to ([], []). */
  function HecateSortAsWritten(unsorted: seq<int>): (r: SortOutcome)
    ensures r.KeyIndexError? <==> |unsorted| > 0
  {
    if |unsorted| == 0 then Sorted([], []) else KeyIndexError
  }

  method HecateSort(unsorted: seq<int>) returns (r: SortOutcome)
    ensures r == HecateSortAsWritten(unsorted)
  {
    var size := |unsorted|;
    var indexMap := IdentityMap(size);
    if size > 0 {
      // the key function indexes the list that the sort has emptied
      return KeyIndexError;
    }
    var values := Reorder(unsorted, indexMap);
    r := Sorted(values, indexMap);
  }

  /** `hecate_sort` as intended: sort the index map by the values it points
      to (`index_map.sort(key=lambda index: unsorted[index])`), then read
      the values through it. */
  method HecateArgSort(unsorted: seq<int>) returns (values: seq<int>, indexMap: seq<int>)
    ensures indexMap == ArgSort(Keys(unsorted))
    ensures values == Reordered(unsorted, indexMap)
  {
    indexMap := ArgSort(Keys(unsorted));
    values := Reorder(unsorted, indexMap);
  }

  /** The two halves of the discrepancy on [3, 1]: as written the call
      raises, as intended it yields ([1, 3], [1, 0]). */
  lemma HecateSortCounterexample()
    ensures HecateSortAsWritten([3, 1]) == KeyIndexError
    ensures var m := ArgSort(Keys([3, 1])); m == [1, 0] && Reordered([3, 1], m) == [1, 3]
  {
    var s := [3, 1];
    var k := Keys(s);
    assert k == [3.0, 1.0];
    var m := ArgSort(k);
    assert 0 in m && 1 in m;
    assert Before(k, m[0], m[1]);
  }
}
