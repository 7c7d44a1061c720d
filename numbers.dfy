/** Java's 32-bit `int` and the sums and means the averages are built from. */
module Numbers {

  /** Java's `int`: ids and grades are passed and stored at this width. */
  type int32 = x: int | -0x8000_0000 <= x < 0x8000_0000

  const INT32_MAX: int32 := 0x7fff_ffff

  /** Two's-complement wrap-around of an exact integer into `int`, as Java's `+` on ints does. */
  function Wrap32(x: int): (r: int32)
    ensures (r - x) % 0x1_0000_0000 == 0
    ensures -0x8000_0000 <= x < 0x8000_0000 ==> r == x
  {
    (x + 0x8000_0000) % 0x1_0000_0000 - 0x8000_0000
  }

  /** The exact sum of a sequence of integers, left to right. */
  function Sum(xs: seq<int>): int {
    if xs == [] then 0 else Sum(xs[..|xs| - 1]) + xs[|xs| - 1]
  }

  function SumReal(xs: seq<real>): real {
    if xs == [] then 0.0 else SumReal(xs[..|xs| - 1]) + xs[|xs| - 1]
  }

  /** Every element lies in [lo, hi], so the sum of n of them lies in [n * lo, n * hi]. */
  lemma {:induction false} SumBounds(xs: seq<int>, lo: int, hi: int)
    requires forall k :: 0 <= k < |xs| ==> lo <= xs[k] <= hi
    ensures |xs| * lo <= Sum(xs) <= |xs| * hi
    decreases |xs|
  {
    if xs != [] {
      var n := |xs| - 1;
      SumBounds(xs[..n], lo, hi);
      assert Sum(xs) == Sum(xs[..n]) + xs[n];
      assert |xs| * lo == n * lo + lo && |xs| * hi == n * hi + hi;
    }
  }

  lemma {:induction false} SumRealBounds(xs: seq<real>, lo: real, hi: real)
    requires forall k :: 0 <= k < |xs| ==> lo <= xs[k] <= hi
    ensures |xs| as real * lo <= SumReal(xs) <= |xs| as real * hi
    decreases |xs|
  {
    if xs != [] {
      SumRealBounds(xs[..|xs| - 1], lo, hi);
    }
  }

  lemma {:induction false} SumRealPositive(xs: seq<real>)
    requires |xs| > 0 && forall k :: 0 <= k < |xs| ==> xs[k] > 0.0
    ensures SumReal(xs) > 0.0
    decreases |xs|
  {
    if |xs| > 1 {
      SumRealPositive(xs[..|xs| - 1]);
    } else {
      assert xs[..0] == [];
    }
  }

  lemma MulToReal(a: int, b: int)
    ensures (a * b) as real == a as real * b as real
  {
  }

  lemma QuotientPositive(s: real, n: real)
    requires s > 0.0 && n > 0.0
    ensures s / n > 0.0
  {
  }

  /** A real quotient lies between lo and hi when the dividend lies between n * lo and n * hi. */
  lemma QuotientBounds(s: real, n: real, lo: real, hi: real)
    requires n > 0.0 && n * lo <= s <= n * hi
    ensures lo <= s / n <= hi
  {
  }
}
