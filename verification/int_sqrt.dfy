/**
 The integer ceiling square root that sizes the clusters and the summary of a
 van Emde Boas node. The source computes it as (int) Math.ceil(Math.sqrt(n));
 over the int range that value is the least s with s * s >= n, which is what
 this module defines.
 */
module IntSqrt {

  /** The least natural number whose square reaches n. */
  function CeilSqrt(n: nat): (s: nat)
    ensures s * s >= n
    ensures s == 0 || (s - 1) * (s - 1) < n
  {
    SearchFrom(n, 0)
  }

  /** Linear search upward from k, which is known not to overshoot. */
  function SearchFrom(n: nat, k: nat): (s: nat)
    requires k == 0 || (k - 1) * (k - 1) < n
    ensures k <= s && s * s >= n
    ensures s == 0 || (s - 1) * (s - 1) < n
    decreases n - k
  {
    if k * k >= n then k
    else
      assert k < n by {
        if k > 0 { assert k <= k * k; }
      }
      SearchFrom(n, k + 1)
  }

  /** For a node that is not a leaf the cluster size is at least 2 and strictly
      smaller than the node's own universe: indices stay in bounds and the
      recursive construction terminates. */
  lemma CeilSqrtBetween(n: nat)
    requires n > 2
    ensures 2 <= CeilSqrt(n) < n
  {
    var s := CeilSqrt(n);
    if s >= n {
      assert (n - 1) * (n - 1) >= 2 * (n - 1) > n;
      assert (s - 1) * (s - 1) >= (n - 1) * (n - 1) by {
        MulMonotone(n - 1, s - 1);
      }
    }
  }

  lemma MulMonotone(a: nat, b: nat)
    requires a <= b
    ensures a * a <= b * b
  {
    assert a * a <= a * b <= b * b;
  }
}
