/**
 * Element-wise operations on window samples used by every port: all-ones
 * windows, scaling by a normalization value, square roots, products and the
 * clamp of negative samples.
 *
 * The square root is a parameter `sqrt` of which only the two facts
 * sqrt(a) >= 0 and sqrt(a) * sqrt(a) == a (for a >= 0) are known.
 */
module Samples {

  /** The facts about a square-root function that the windows rely on. */
  ghost predicate IsSqrt(sqrt: real -> real)
  {
    forall a :: a >= 0.0 ==> sqrt(a) >= 0.0 && sqrt(a) * sqrt(a) == a
  }

  predicate NonNegative(w: seq<real>)
  {
    forall i :: 0 <= i < |w| ==> w[i] >= 0.0
  }

  /** `n` samples equal to one. */
  function Ones(n: nat): (r: seq<real>)
    ensures |r| == n
  {
    seq(n, i => 1.0)
  }

  /** `n` samples equal to zero. */
  function Zeros(n: nat): (r: seq<real>)
    ensures |r| == n
  {
    seq(n, i => 0.0)
  }

  /** Every sample divided by `c`. */
  function Scale(w: seq<real>, c: real): (r: seq<real>)
    requires c != 0.0
    ensures |r| == |w|
  {
    seq(|w|, i requires 0 <= i < |w| => w[i] / c)
  }

  /** Every sample replaced by its square root. */
  function Roots(w: seq<real>, sqrt: real -> real): (r: seq<real>)
    ensures |r| == |w|
  {
    seq(|w|, i requires 0 <= i < |w| => sqrt(w[i]))
  }

  /** Element-wise product. */
  function Mul(a: seq<real>, b: seq<real>): (r: seq<real>)
    requires |a| == |b|
    ensures |r| == |a|
  {
    seq(|a|, i requires 0 <= i < |a| => a[i] * b[i])
  }

  /** Magnitude of a sample. */
  function Abs(x: real): (r: real)
    ensures r >= 0.0 && (r == x || r == -x)
  {
    if x < 0.0 then -x else x
  }

  /** Element-wise sum. */
  function Add(a: seq<real>, b: seq<real>): (r: seq<real>)
    requires |a| == |b|
    ensures |r| == |a|
  {
    seq(|a|, i requires 0 <= i < |a| => a[i] + b[i])
  }

  /** Negative samples replaced by zero. */
  function Clamp(w: seq<real>): (r: seq<real>)
    ensures |r| == |w|
  {
    seq(|w|, i requires 0 <= i < |w| => if w[i] < 0.0 then 0.0 else w[i])
  }

  /** Sum of a sequence of samples, accumulated from the front. */
  function Sum(s: seq<real>): real
  {
    if |s| == 0 then 0.0 else Sum(s[..|s| - 1]) + s[|s| - 1]
  }

  /** A window of n ones sums to n. */
  lemma {:induction false} SumOnes(n: nat)
    ensures Sum(Ones(n)) == n as real
  {
    if n > 0 {
      assert Ones(n)[..n - 1] == Ones(n - 1);
      SumOnes(n - 1);
    }
  }

  /** Non-negative samples have a non-negative sum. */
  lemma {:induction false} SumNonNegative(s: seq<real>)
    requires NonNegative(s)
    ensures Sum(s) >= 0.0
  {
    if |s| > 0 {
      SumNonNegative(s[..|s| - 1]);
    }
  }

  /** Dividing every sample by c divides the sum by c. */
  lemma {:induction false} SumScale(w: seq<real>, c: real)
    requires c != 0.0
    ensures Sum(Scale(w, c)) == Sum(w) / c
  {
    if |w| > 0 {
      var n := |w| - 1;
      assert Scale(w, c)[..n] == Scale(w[..n], c);
      SumScale(w[..n], c);
    }
  }

  /** Multiplying by an all-ones window changes nothing. */
  lemma MulOnes(w: seq<real>)
    ensures Mul(Ones(|w|), w) == w
  {
  }

  /** WOLA splits a non-negative window into two equal factors whose product is the window. */
  lemma RootsSquare(w: seq<real>, sqrt: real -> real)
    requires IsSqrt(sqrt) && NonNegative(w)
    ensures Mul(Roots(w, sqrt), Roots(w, sqrt)) == w
    ensures NonNegative(Roots(w, sqrt))
  {
    forall i | 0 <= i < |w|
      ensures Mul(Roots(w, sqrt), Roots(w, sqrt))[i] == w[i] && Roots(w, sqrt)[i] >= 0.0
    {
      assert w[i] >= 0.0;
    }
  }

  /** After clamping no sample is negative, and non-negative samples are kept. */
  lemma ClampProperties(w: seq<real>)
    ensures NonNegative(Clamp(w))
    ensures forall i :: 0 <= i < |w| && w[i] >= 0.0 ==> Clamp(w)[i] == w[i]
    ensures NonNegative(w) ==> Clamp(w) == w
  {
  }

  /** The in-place clamp `window[window < 0.0] = 0.0`. */
  method ClampInPlace(a: array<real>)
    modifies a
    ensures a[..] == Clamp(old(a[..]))
  {
    ghost var before := a[..];
    for i := 0 to a.Length
      invariant forall j :: 0 <= j < i ==> a[j] == Clamp(before)[j]
      invariant forall j :: i <= j < a.Length ==> a[j] == before[j]
    {
      if a[i] < 0.0 {
        a[i] := 0.0;
      }
    }
  }
}
