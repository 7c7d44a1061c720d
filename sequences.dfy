/**
 * Sequence operations behind the Java collection calls the roster makes:
 * `removeIf` keeps the elements a mask selects, `findFirst` gives the first index.
 */
module Sequences {
  import opened Wrappers

  /** The elements of xs whose mask entry is true, in their original order. */
  function Select<T>(xs: seq<T>, keep: seq<bool>): (r: seq<T>)
    requires |keep| == |xs|
    ensures |r| <= |xs|
    ensures |r| == |xs| <==> forall k :: 0 <= k < |keep| ==> keep[k]
    decreases |xs|
  {
    if xs == [] then []
    else (if keep[0] then [xs[0]] else []) + Select(xs[1..], keep[1..])
  }

  /** An element survives the selection exactly when some position holding it is kept. */
  lemma {:induction false} SelectMembers<T>(xs: seq<T>, keep: seq<bool>, x: T)
    requires |keep| == |xs|
    ensures x in Select(xs, keep) <==> exists k :: 0 <= k < |xs| && keep[k] && xs[k] == x
    decreases |xs|
  {
    if xs != [] {
      SelectMembers(xs[1..], keep[1..], x);
      if exists k :: 0 <= k < |xs| && keep[k] && xs[k] == x {
        var k :| 0 <= k < |xs| && keep[k] && xs[k] == x;
        if k > 0 {
          assert keep[1..][k - 1] && xs[1..][k - 1] == x;
        }
      }
      if exists k :: 0 <= k < |xs| - 1 && keep[1..][k] && xs[1..][k] == x {
        var k :| 0 <= k < |xs| - 1 && keep[1..][k] && xs[1..][k] == x;
        assert keep[k + 1] && xs[k + 1] == x;
      }
    }
  }

  /** Selection works piecewise, so the kept elements stay in their original order. */
  lemma {:induction false} SelectAppend<T>(a: seq<T>, ma: seq<bool>, b: seq<T>, mb: seq<bool>)
    requires |ma| == |a| && |mb| == |b|
    ensures Select(a + b, ma + mb) == Select(a, ma) + Select(b, mb)
    decreases |a|
  {
    if a != [] {
      SelectAppend(a[1..], ma[1..], b, mb);
      assert (a + b)[1..] == a[1..] + b;
      assert (ma + mb)[1..] == ma[1..] + mb;
    } else {
      assert a + b == b && ma + mb == mb;
    }
  }

  /** No two positions hold related elements, for an irreflexive-style relation `apart`. */
  predicate Pairwise<T>(xs: seq<T>, apart: (T, T) -> bool) {
    forall i, j :: 0 <= i < j < |xs| ==> apart(xs[i], xs[j])
  }

  /** Removing elements never creates a related pair. */
  lemma {:induction false} SelectPairwise<T>(xs: seq<T>, keep: seq<bool>, apart: (T, T) -> bool)
    requires |keep| == |xs| && Pairwise(xs, apart)
    ensures Pairwise(Select(xs, keep), apart)
    decreases |xs|
  {
    if xs != [] {
      var rest := Select(xs[1..], keep[1..]);
      SelectPairwise(xs[1..], keep[1..], apart);
      if keep[0] {
        forall j | 0 <= j < |rest| ensures apart(xs[0], rest[j]) {
          SelectMembers(xs[1..], keep[1..], rest[j]);
          var k :| 0 <= k < |xs| - 1 && keep[1..][k] && xs[1..][k] == rest[j];
          assert xs[k + 1] == rest[j];
        }
        var r := [xs[0]] + rest;
        forall i, j | 0 <= i < j < |r| ensures apart(r[i], r[j]) {
          if i > 0 {
            assert r[i] == rest[i - 1] && r[j] == rest[j - 1];
          }
        }
      }
    }
  }

  /** The index of the first occurrence of x, as `findFirst` over an equality filter gives it. */
  function IndexOf<T(==)>(xs: seq<T>, x: T): (r: Option<nat>)
    ensures r.None? <==> x !in xs
    ensures r.Some? ==> r.value < |xs| && xs[r.value] == x && x !in xs[..r.value]
    decreases |xs|
  {
    if xs == [] then None
    else if xs[0] == x then Some(0)
    else
      match IndexOf(xs[1..], x)
      case None => None
      case Some(k) =>
        assert xs[..k + 1] == [xs[0]] + xs[1..][..k];
        Some(k + 1)
  }

  /** The mask that keeps every element other than x. */
  function AllBut<T(==)>(xs: seq<T>, x: T): (m: seq<bool>) {
    seq(|xs|, k requires 0 <= k < |xs| => xs[k] != x)
  }

  function Differ<T(==)>(a: T, b: T): bool {
    a != b
  }

  /** No value occurs twice. */
  predicate Distinct<T(==)>(xs: seq<T>) {
    Pairwise(xs, Differ)
  }

  /** The second components of a sequence of pairs. */
  function Values<K, V>(ps: seq<(K, V)>): (vs: seq<V>) {
    seq(|ps|, k requires 0 <= k < |ps| => ps[k].1)
  }

  lemma ValuesAppend<K, V>(a: seq<(K, V)>, b: seq<(K, V)>)
    ensures Values(a + b) == Values(a) + Values(b)
  {
  }

  /** Rearranging pairs rearranges their second components the same way. */
  lemma {:induction false} ValuesPermutation<K, V>(xs: seq<(K, V)>, ys: seq<(K, V)>)
    requires multiset(xs) == multiset(ys)
    ensures multiset(Values(xs)) == multiset(Values(ys))
    decreases |xs|
  {
    if xs == [] {
      assert |ys| == |multiset(ys)| == 0;
    } else {
      var x := xs[0];
      assert x in multiset(ys);
      var j :| 0 <= j < |ys| && ys[j] == x;
      var front, back := ys[..j], ys[j + 1..];
      assert ys == front + [x] + back;
      assert xs == [x] + xs[1..];
      assert multiset(xs) == multiset{x} + multiset(xs[1..]);
      assert multiset(ys) == multiset{x} + multiset(front + back) by {
        assert multiset(ys) == multiset(front) + multiset{x} + multiset(back);
      }
      forall y ensures multiset(xs[1..])[y] == multiset(front + back)[y] {
        assert multiset(xs)[y] == multiset(ys)[y];
      }
      assert multiset(xs[1..]) == multiset(front + back);
      ValuesPermutation(xs[1..], front + back);
      ValuesAppend([x], xs[1..]);
      assert xs == [x] + xs[1..];
      ValuesAppend(front + [x], back);
      ValuesAppend(front, [x]);
      ValuesAppend(front, back);
    }
  }
}
