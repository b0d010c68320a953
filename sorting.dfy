/** Python's `sorted(xs, key=k)` as used throughout the pipeline.
    The sort is stable, so the result orders positions by their key and,
    among equal keys, by their original position. The model sorts the
    positions 0..n-1 of a key sequence (an argsort). */
module Sorting {

  /** Position i comes before position j in a stable ascending sort by key. */
  predicate Before(key: seq<real>, i: int, j: int)
    requires 0 <= i < |key| && 0 <= j < |key|
  {
    key[i] < key[j] || (key[i] == key[j] && i < j)
  }

  predicate InRange(key: seq<real>, s: seq<int>)
  {
    forall k :: 0 <= k < |s| ==> 0 <= s[k] < |key|
  }

  /** s lists positions of key in stable ascending key order. */
  predicate SortedBy(key: seq<real>, s: seq<int>)
  {
    InRange(key, s) &&
    forall a, b :: 0 <= a < b < |s| ==> Before(key, s[a], s[b])
  }

  /** s is an arrangement of exactly the positions 0..n-1. */
  predicate IsPermutation(s: seq<int>, n: int)
  {
    |s| == n &&
    (forall k :: 0 <= k < |s| ==> 0 <= s[k] < n) &&
    (forall a, b :: 0 <= a < b < |s| ==> s[a] != s[b]) &&
    (forall i :: 0 <= i < n ==> i in s)
  }

  /** Inserts position x at its stable place in a sorted list. */
  function Insert(key: seq<real>, x: int, s: seq<int>): (r: seq<int>)
    requires 0 <= x < |key| && SortedBy(key, s) && x !in s
    ensures |r| == |s| + 1
    ensures forall e :: e in r <==> e == x || e in s
    ensures SortedBy(key, r)
    decreases |s|
  {
    if |s| == 0 then [x]
    else if Before(key, x, s[0]) then [x] + s
    else
      var t := Insert(key, x, s[1..]);
      HeadBeforeRest(key, s);
      assert Before(key, s[0], x);
      assert forall k :: 0 <= k < |t| ==> Before(key, s[0], t[k]) by {
        forall k | 0 <= k < |t| ensures Before(key, s[0], t[k]) {
          assert t[k] in t;
        }
      }
      assert s == [s[0]] + s[1..];
      [s[0]] + t
  }

  lemma HeadBeforeRest(key: seq<real>, s: seq<int>)
    requires SortedBy(key, s) && |s| > 0
    ensures forall e :: e in s[1..] ==> Before(key, s[0], e)
  {
    forall e | e in s[1..] ensures Before(key, s[0], e) {
      var m :| 0 <= m < |s[1..]| && s[1..][m] == e;
      assert s[m + 1] == e;
    }
  }

  /** The stable sort of the first m positions. */
  function SortPrefix(key: seq<real>, m: nat): (r: seq<int>)
    requires m <= |key|
    ensures |r| == m && SortedBy(key, r)
    ensures forall k :: 0 <= k < |r| ==> r[k] < m
    ensures forall i :: 0 <= i < m ==> i in r
  {
    if m == 0 then []
    else
      var s := SortPrefix(key, m - 1);
      var r := Insert(key, m - 1, s);
      assert forall k :: 0 <= k < |r| ==> r[k] < m by {
        forall k | 0 <= k < |r| ensures r[k] < m {
          assert r[k] in r;
          if r[k] != m - 1 {
            var j :| 0 <= j < |s| && s[j] == r[k];
          }
        }
      }
      r
  }

  /** `sorted(range(len(key)), key=lambda i: key[i])`. */
  function ArgSort(key: seq<real>): (r: seq<int>)
    ensures SortedBy(key, r)
    ensures IsPermutation(r, |key|)
  {
    var r := SortPrefix(key, |key|);
    SortedDistinct(key, r);
    r
  }

  lemma SortedDistinct(key: seq<real>, s: seq<int>)
    requires SortedBy(key, s)
    ensures forall a, b :: 0 <= a < b < |s| ==> s[a] != s[b]
  {
  }

}
