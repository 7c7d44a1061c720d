/**
 * A stable sort of key/value pairs by key, the effect `List.sort` has on a list of
 * students ordered by a comparator. Java's list sort is a stable merge sort. For a comparator
 * that keeps the Comparator contract every stable sort yields the same order, so insertion
 * sort stands for it here; for one that breaks the contract the orders may differ.
 */
module Sorting {

  /** The comparator contract the sort relies on: `le` is a total preorder. */
  ghost predicate TotalPreorder<K(!new)>(le: (K, K) -> bool) {
    (forall a, b :: le(a, b) || le(b, a)) &&
    (forall a, b, c :: le(a, b) && le(b, c) ==> le(a, c))
  }

  predicate SortedByKey<K, V>(s: seq<(K, V)>, le: (K, K) -> bool) {
    forall i, j :: 0 <= i < j < |s| ==> le(s[i].0, s[j].0)
  }

  /** Places x in front of the first element whose key it does not exceed. */
  function InsertByKey<K, V>(x: (K, V), s: seq<(K, V)>, le: (K, K) -> bool): (r: seq<(K, V)>)
    ensures multiset(r) == multiset(s) + multiset{x}
    decreases |s|
  {
    if s == [] || le(x.0, s[0].0) then [x] + s
    else
      assert s == [s[0]] + s[1..];
      [s[0]] + InsertByKey(x, s[1..], le)
  }

  /** Sorts the tail, then inserts the head in front of every element it does not exceed. */
  function SortByKey<K, V>(xs: seq<(K, V)>, le: (K, K) -> bool): (r: seq<(K, V)>)
    ensures multiset(r) == multiset(xs)
    decreases |xs|
  {
    if xs == [] then []
    else
      assert xs == [xs[0]] + xs[1..];
      InsertByKey(xs[0], SortByKey(xs[1..], le), le)
  }

  lemma {:induction false} InsertByKeySorted<K(!new), V>(x: (K, V), s: seq<(K, V)>, le: (K, K) -> bool)
    requires TotalPreorder(le) && SortedByKey(s, le)
    ensures SortedByKey(InsertByKey(x, s, le), le)
    decreases |s|
  {
    var r := InsertByKey(x, s, le);
    if s == [] || le(x.0, s[0].0) {
      forall j | 1 <= j < |r| ensures le(x.0, r[j].0) {
        assert r[j] == s[j - 1];
      }
      forall i, j | 0 <= i < j < |r| ensures le(r[i].0, r[j].0) {
        if i > 0 {
          assert r[i] == s[i - 1] && r[j] == s[j - 1];
        }
      }
    } else {
      var rest := InsertByKey(x, s[1..], le);
      assert SortedByKey(s[1..], le) by {
        forall i, j | 0 <= i < j < |s| - 1 ensures le(s[1..][i].0, s[1..][j].0) {
          assert s[1..][i] == s[i + 1] && s[1..][j] == s[j + 1];
        }
      }
      InsertByKeySorted(x, s[1..], le);
      forall j | 0 <= j < |rest| ensures le(s[0].0, rest[j].0) {
        assert rest[j] in multiset(rest);
        if rest[j] != x {
          assert rest[j] in multiset(s[1..]);
          var k :| 0 <= k < |s| - 1 && s[1..][k] == rest[j];
          assert s[k + 1] == rest[j];
        }
      }
      forall i, j | 0 <= i < j < |r| ensures le(r[i].0, r[j].0) {
        if i > 0 {
          assert r[i] == rest[i - 1] && r[j] == rest[j - 1];
        } else {
          assert r[j] == rest[j - 1];
        }
      }
    }
  }

  /** With a total preorder, the result is ordered by key (and, by SortByKey's contract, a permutation). */
  lemma {:induction false} SortByKeySorted<K(!new), V>(xs: seq<(K, V)>, le: (K, K) -> bool)
    requires TotalPreorder(le)
    ensures SortedByKey(SortByKey(xs, le), le)
    decreases |xs|
  {
    if xs != [] {
      SortByKeySorted(xs[1..], le);
      InsertByKeySorted(xs[0], SortByKey(xs[1..], le), le);
    }
  }
}
