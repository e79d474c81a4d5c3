/**
 * Framing and overlap-add on batches of signals, the loops every Python
 * segmenter runs.
 *
 * Frame j of a batch row holds the samples jH .. jH + S - 1 of the row, each
 * multiplied by the sample of that frame's window: `X[:, j, :] = x[:, jH :
 * jH + S] * w_j`. Overlap-add scatter-adds every frame, multiplied by its
 * window, into a zeroed signal of (K - 1)·H + S samples: `x[:, jH : jH + S]
 * += X[:, j, :] * w_j`.
 *
 * A port chooses the window of every frame as a list: one window for all
 * frames (`Uniform`), or the first / interior / last windows of edge
 * correction (`Edged`). Signals are (batch, samples) arrays and frames
 * (batch, frames, size) arrays; an unbatched tensor is a batch of one row.
 */
module Framing {
  import opened Samples
  import Frames
  import Envelopes

  /** Every window of the list has `size` samples. */
  predicate Sized(wins: seq<seq<real>>, size: nat)
  {
    forall j :: 0 <= j < |wins| ==> |wins[j]| == size
  }

  /** Every frame has a window of `size` samples and lies inside the n samples of a row. */
  predicate Fits(wins: seq<seq<real>>, hop: nat, size: nat, n: int)
  {
    forall j :: 0 <= j < |wins| ==> |wins[j]| == size && Start(j, hop) + size <= n
  }

  /**
   * Where frame j starts: j hops, counted one hop at a time so that the
   * solver sees no product of two unknowns.
   */
  function Start(j: nat, hop: nat): nat
  {
    if j == 0 then 0 else Start(j - 1, hop) + hop
  }

  lemma {:induction false} StartIsProduct(j: nat, hop: nat)
    ensures Start(j, hop) == j * hop
  {
    if j > 0 {
      StartIsProduct(j - 1, hop);
      assert (j - 1) * hop + hop == j * hop;
    }
  }

  /** The same window for each of k frames. */
  function Uniform(w: seq<real>, k: nat): seq<seq<real>>
  {
    seq(k, j => w)
  }

  /** The last of k frames takes `last`, else the first takes `first`, and the others take `mid`. */
  function Edged(first: seq<real>, mid: seq<real>, last: seq<real>, k: nat): seq<seq<real>>
  {
    seq(k, j => if j == k - 1 then last else if j == 0 then first else mid)
  }

  /** One window for every frame is edge correction that keeps the window at both edges. */
  lemma UniformIsEdged(w: seq<real>, k: nat)
    ensures Uniform(w, k) == Edged(w, w, w, k)
  {
  }

  /** The product of the two windows a frame meets, at offset q. */
  function Weight(a: seq<real>, s: seq<real>, q: int): real
  {
    Envelopes.At(a, q) * Envelopes.At(s, q)
  }

  /**
   * Σ_{j < k} a_j(p − jH) · s_j(p − jH): the factor by which framing with the
   * windows a and overlap-add with the windows s scale sample p.
   */
  function Coverage(a: seq<seq<real>>, s: seq<seq<real>>, hop: nat, p: int, k: nat): real
    requires k <= |a| && k <= |s|
  {
    if k == 0 then 0.0 else Coverage(a, s, hop, p, k - 1) + Weight(a[k - 1], s[k - 1], p - Start(k - 1, hop))
  }

  /** Two windows of one length weigh an offset with their product window. */
  lemma WeightIsProduct(a: seq<real>, s: seq<real>, q: int)
    requires |a| == |s|
    ensures Weight(a, s, q) == Envelopes.At(Mul(a, s), q)
  {
  }

  /** Frame j of k ends no later than the last frame. */
  lemma FrameEndsWithin(j: nat, k: nat, hop: nat, size: nat)
    requires j < k
    ensures Start(j, hop) + size <= Frames.NumSamples(k, hop, size)
  {
    StartIsProduct(j, hop);
    var d := k - 1 - j;
    assert d * hop >= 0;
    assert (k - 1) * hop == j * hop + d * hop;
  }

  /** k frames fit as soon as the last one does. */
  lemma FitsWhenLastFits(wins: seq<seq<real>>, hop: nat, size: nat, n: int)
    requires Sized(wins, size) && (|wins| == 0 || Frames.NumSamples(|wins|, hop, size) <= n)
    ensures Fits(wins, hop, size, n)
  {
    forall j | 0 <= j < |wins|
      ensures Start(j, hop) + size <= n
    {
      FrameEndsWithin(j, |wins|, hop, size);
    }
  }

  // ---------------------------------------------------------------------
  // Framing.

  /** Writes frame j of row b: `X[b, j, q] = w[q] * x[b, jH + q]`. */
  method FrameRow(x: array2<real>, X: array3<real>, hop: nat, b: nat, j: nat, w: seq<real>)
    requires b < x.Length0 && b < X.Length0 && j < X.Length1 && |w| == X.Length2 && Start(j, hop) + |w| <= x.Length1
    modifies X
    ensures forall q :: 0 <= q < |w| ==> X[b, j, q] == w[q] * x[b, Start(j, hop) + q]
    ensures forall b', j', q :: 0 <= b' < X.Length0 && 0 <= j' < X.Length1 && 0 <= q < X.Length2 ==>
              (b' != b || j' != j) ==> X[b', j', q] == old(X[b', j', q])
  {
    for q := 0 to |w|
      invariant forall q' :: 0 <= q' < q ==> X[b, j, q'] == w[q'] * x[b, Start(j, hop) + q']
      invariant forall b', j', q' :: 0 <= b' < X.Length0 && 0 <= j' < X.Length1 && 0 <= q' < X.Length2 ==>
                  (b' != b || j' != j) ==> X[b', j', q'] == old(X[b', j', q'])
    {
      X[b, j, q] := w[q] * x[b, Start(j, hop) + q];
    }
  }

  /** Writes frame j of every row. */
  method FrameAllRows(x: array2<real>, X: array3<real>, hop: nat, j: nat, w: seq<real>)
    requires x.Length0 == X.Length0 && j < X.Length1 && |w| == X.Length2 && Start(j, hop) + |w| <= x.Length1
    modifies X
    ensures forall b, q :: 0 <= b < X.Length0 && 0 <= q < |w| ==> X[b, j, q] == w[q] * x[b, Start(j, hop) + q]
    ensures forall b, j', q :: 0 <= b < X.Length0 && 0 <= j' < X.Length1 && 0 <= q < X.Length2 ==>
              j' != j ==> X[b, j', q] == old(X[b, j', q])
  {
    for b := 0 to X.Length0
      invariant forall b', q :: 0 <= b' < b && 0 <= q < |w| ==> X[b', j, q] == w[q] * x[b', Start(j, hop) + q]
      invariant forall b', j', q :: 0 <= b' < X.Length0 && 0 <= j' < X.Length1 && 0 <= q < X.Length2 ==>
                  (j' != j || b' >= b) ==> X[b', j', q] == old(X[b', j', q])
    {
      FrameRow(x, X, hop, b, j, w);
    }
  }

  /** Every sample of y is g times the sample of x at the same place. */
  ghost predicate Rescaled(x: array2<real>, y: array2<real>, g: real)
    reads x, y
  {
    y.Length0 <= x.Length0 && y.Length1 <= x.Length1
    && forall b, p :: 0 <= b < y.Length0 && 0 <= p < y.Length1 ==> y[b, p] == g * x[b, p]
  }

  /** Every frame sample is the signal sample it was cut from, times the sample of its frame's window. */
  ghost predicate FramedFrom(x: array2<real>, X: array3<real>, wins: seq<seq<real>>, hop: nat)
    reads x, X
  {
    && Fits(wins, hop, X.Length2, x.Length1) && X.Length0 == x.Length0 && X.Length1 == |wins|
    && forall b, j, q :: 0 <= b < X.Length0 && 0 <= j < X.Length1 && 0 <= q < X.Length2 ==>
         FrameSample(x, X, wins, hop, b, j, q)
  }

  /** Sample q of frame j of row b is the signal sample jH + q times the window sample q. */
  ghost predicate FrameSample(x: array2<real>, X: array3<real>, wins: seq<seq<real>>, hop: nat, b: nat, j: nat, q: nat)
    reads x, X
    requires Fits(wins, hop, X.Length2, x.Length1) && X.Length0 == x.Length0 && X.Length1 == |wins|
    requires b < X.Length0 && j < X.Length1 && q < X.Length2
  {
    X[b, j, q] == wins[j][q] * x[b, Start(j, hop) + q]
  }

  /**
   * Zero-initialized frame buffer, then `X[:, j, :] = x[:, jH : jH + S] * w_j`
   * for every frame j.
   */
  method Frame(x: array2<real>, hop: nat, wins: seq<seq<real>>, size: nat) returns (X: array3<real>)
    requires Fits(wins, hop, size, x.Length1)
    ensures fresh(X) && X.Length0 == x.Length0 && X.Length1 == |wins| && X.Length2 == size
    ensures FramedFrom(x, X, wins, hop)
  {
    X := new real[x.Length0, |wins|, size]((b, j, q) => 0.0);
    for j := 0 to |wins|
      invariant forall b, j', q :: 0 <= b < X.Length0 && 0 <= j' < j && 0 <= q < size ==>
                  X[b, j', q] == wins[j'][q] * x[b, Start(j', hop) + q]
    {
      FrameAllRows(x, X, hop, j, wins[j]);
    }
  }

  // ---------------------------------------------------------------------
  // Overlap-add.

  /** What frame j of row b adds to sample p: w_j(p − jH) · X[b, j, p − jH] where frame j covers p. */
  function Contribution(X: array3<real>, wins: seq<seq<real>>, hop: nat, b: nat, j: nat, p: int): real
    reads X
    requires b < X.Length0 && j < X.Length1 && j < |wins| && |wins[j]| == X.Length2
  {
    var q := p - Start(j, hop);
    if 0 <= q < X.Length2 then wins[j][q] * X[b, j, q] else 0.0
  }

  /** Sample p of row b after the frames 0 .. k−1 were added into a zeroed signal. */
  function Overlap(X: array3<real>, wins: seq<seq<real>>, hop: nat, b: nat, p: int, k: nat): real
    reads X
    requires b < X.Length0 && k <= X.Length1 && k <= |wins| && Sized(wins, X.Length2)
  {
    if k == 0 then 0.0 else Overlap(X, wins, hop, b, p, k - 1) + Contribution(X, wins, hop, b, k - 1, p)
  }

  /** Adds frame j of row b, weighted by w, into the signal: `y[b, jH + q] += w[q] * X[b, j, q]`. */
  method AddFrameRow(X: array3<real>, y: array2<real>, hop: nat, wins: seq<seq<real>>, b: nat, j: nat)
    requires b < X.Length0 && b < y.Length0 && j < X.Length1 && j < |wins| && |wins[j]| == X.Length2
    requires Start(j, hop) + X.Length2 <= y.Length1
    modifies y
    ensures forall p :: 0 <= p < y.Length1 ==> y[b, p] == old(y[b, p]) + Contribution(X, wins, hop, b, j, p)
    ensures forall b', p :: 0 <= b' < y.Length0 && 0 <= p < y.Length1 && b' != b ==> y[b', p] == old(y[b', p])
  {
    var start := Start(j, hop);
    var w := wins[j];
    for q := 0 to X.Length2
      invariant forall p :: 0 <= p < y.Length1 ==>
                  y[b, p] == old(y[b, p]) + (if start <= p < start + q then w[p - start] * X[b, j, p - start] else 0.0)
      invariant forall b', p :: 0 <= b' < y.Length0 && 0 <= p < y.Length1 && b' != b ==> y[b', p] == old(y[b', p])
    {
      y[b, start + q] := y[b, start + q] + w[q] * X[b, j, q];
    }
  }

  /** Adds frame j of every row. */
  method AddFrame(X: array3<real>, y: array2<real>, hop: nat, wins: seq<seq<real>>, j: nat)
    requires X.Length0 == y.Length0 && j < X.Length1 && |wins| == X.Length1 && Sized(wins, X.Length2)
    requires Start(j, hop) + X.Length2 <= y.Length1
    modifies y
    ensures forall b, p :: 0 <= b < y.Length0 && 0 <= p < y.Length1 ==>
              y[b, p] == old(y[b, p]) + Contribution(X, wins, hop, b, j, p)
  {
    for b := 0 to y.Length0
      invariant forall b', p :: 0 <= b' < b && 0 <= p < y.Length1 ==>
                  y[b', p] == old(y[b', p]) + Contribution(X, wins, hop, b', j, p)
      invariant forall b', p :: b <= b' < y.Length0 && 0 <= p < y.Length1 ==> y[b', p] == old(y[b', p])
    {
      AddFrameRow(X, y, hop, wins, b, j);
    }
  }

  /**
   * Zero-initialized signal of (K − 1)·H + S samples, then `x[:, jH : jH + S]
   * += X[:, j, :] * w_j` for every frame j.
   */
  method OverlapAdd(X: array3<real>, hop: nat, wins: seq<seq<real>>) returns (y: array2<real>)
    requires |wins| == X.Length1 && Sized(wins, X.Length2)
    requires Frames.NumSamples(X.Length1, hop, X.Length2) >= 0
    ensures fresh(y) && y.Length0 == X.Length0 && y.Length1 == Frames.NumSamples(X.Length1, hop, X.Length2)
    ensures forall b, p :: 0 <= b < y.Length0 && 0 <= p < y.Length1 ==> y[b, p] == Overlap(X, wins, hop, b, p, X.Length1)
  {
    var n := Frames.NumSamples(X.Length1, hop, X.Length2);
    y := new real[X.Length0, n]((b, p) => 0.0);
    for j := 0 to X.Length1
      invariant forall b, p :: 0 <= b < y.Length0 && 0 <= p < n ==> y[b, p] == Overlap(X, wins, hop, b, p, j)
    {
      FrameEndsWithin(j, X.Length1, hop, X.Length2);
      AddFrame(X, y, hop, wins, j);
    }
  }

  // ---------------------------------------------------------------------
  // Overlap-add after framing.

  /** Frame j adds the sample p it was cut from, weighted by both windows of the frame. */
  lemma ContributionOfFramed(x: array2<real>, X: array3<real>, a: seq<seq<real>>, s: seq<seq<real>>,
                             hop: nat, b: nat, p: int, j: nat)
    requires FramedFrom(x, X, a, hop) && |s| == |a| && Sized(s, X.Length2)
    requires b < x.Length0 && 0 <= p < x.Length1 && j < |a|
    ensures Contribution(X, s, hop, b, j, p) == Weight(a[j], s[j], p - Start(j, hop)) * x[b, p]
  {
    var q := p - Start(j, hop);
    if 0 <= q < X.Length2 {
      assert FrameSample(x, X, a, hop, b, j, q);
    }
  }

  /** Frame j adds v times the weight of its windows at p − jH to sample p. */
  predicate ScaledBy(X: array3<real>, a: seq<seq<real>>, s: seq<seq<real>>, hop: nat, b: nat, p: int, v: real, j: nat)
    reads X
    requires b < X.Length0 && j < X.Length1 && j < |s| && j < |a| && |s[j]| == X.Length2
  {
    Contribution(X, s, hop, b, j, p) == Weight(a[j], s[j], p - Start(j, hop)) * v
  }

  lemma AllFramesScaled(x: array2<real>, X: array3<real>, a: seq<seq<real>>, s: seq<seq<real>>,
                        hop: nat, b: nat, p: int)
    requires FramedFrom(x, X, a, hop) && |s| == |a| && Sized(s, X.Length2)
    requires b < x.Length0 && 0 <= p < x.Length1
    ensures forall j :: 0 <= j < |a| ==> ScaledBy(X, a, s, hop, b, p, x[b, p], j)
  {
    forall j | 0 <= j < |a|
      ensures ScaledBy(X, a, s, hop, b, p, x[b, p], j)
    {
      ContributionOfFramed(x, X, a, s, hop, b, p, j);
    }
  }

  /** Overlap-add sums what the frames contribute, so per-frame factors add up to the coverage. */
  lemma {:induction false} OverlapOfContributions(X: array3<real>, a: seq<seq<real>>, s: seq<seq<real>>,
                                                  hop: nat, b: nat, p: int, v: real, k: nat)
    requires b < X.Length0 && k <= X.Length1 && k <= |s| && k <= |a| && Sized(s, X.Length2)
    requires forall j :: 0 <= j < k ==> ScaledBy(X, a, s, hop, b, p, v, j)
    ensures Overlap(X, s, hop, b, p, k) == Coverage(a, s, hop, p, k) * v
  {
    if k > 0 {
      OverlapOfContributions(X, a, s, hop, b, p, v, k - 1);
      assert ScaledBy(X, a, s, hop, b, p, v, k - 1);
      var c := Coverage(a, s, hop, p, k - 1);
      var m := Weight(a[k - 1], s[k - 1], p - Start(k - 1, hop));
      assert (c + m) * v == c * v + m * v;
    }
  }

  /**
   * Frames cut with the windows a and overlap-added with the windows s give
   * back every sample multiplied by the coverage of the two window lists.
   */
  lemma OverlapOfFramed(x: array2<real>, X: array3<real>, a: seq<seq<real>>, s: seq<seq<real>>,
                        hop: nat, b: nat, p: int)
    requires FramedFrom(x, X, a, hop) && |s| == |a| && Sized(s, X.Length2)
    requires b < x.Length0 && 0 <= p < x.Length1
    ensures Overlap(X, s, hop, b, p, |a|) == Coverage(a, s, hop, p, |a|) * x[b, p]
  {
    AllFramesScaled(x, X, a, s, hop, b, p);
    OverlapOfContributions(X, a, s, hop, b, p, x[b, p], |a|);
  }

  // ---------------------------------------------------------------------
  // Coverage of the window lists the ports use.

  /** With one pair of windows for all frames the coverage is the sum of the shifts of their product. */
  lemma {:induction false} CoverageUniform(a: seq<real>, s: seq<real>, k: nat, hop: nat, p: int, m: nat)
    requires m <= k && |a| == |s|
    ensures Coverage(Uniform(a, k), Uniform(s, k), hop, p, m) == Envelopes.MidSum(Mul(a, s), hop, p, 0, m)
  {
    if m > 0 {
      CoverageUniform(a, s, k, hop, p, m - 1);
      var t := p - Start(m - 1, hop);
      StartIsProduct(m - 1, hop);
      assert t == p - (m - 1) * hop;
      WeightIsProduct(a, s, t);
      assert Uniform(a, k)[m - 1] == a && Uniform(s, k)[m - 1] == s;
      assert Coverage(Uniform(a, k), Uniform(s, k), hop, p, m)
          == Coverage(Uniform(a, k), Uniform(s, k), hop, p, m - 1) + Weight(a, s, t);
    }
  }

  /** The first m < k edge-corrected frames: the first windows, then interior windows. */
  lemma {:induction false} CoverageEdgedPrefix(a1: seq<real>, a2: seq<real>, a3: seq<real>,
                                               s1: seq<real>, s2: seq<real>, s3: seq<real>,
                                               k: nat, hop: nat, p: int, m: nat)
    requires 1 <= m < k && |a1| == |s1| && |a2| == |s2|
    ensures Coverage(Edged(a1, a2, a3, k), Edged(s1, s2, s3, k), hop, p, m)
            == Envelopes.At(Mul(a1, s1), p) + Envelopes.MidSum(Mul(a2, s2), hop, p, 1, m)
  {
    if m > 1 {
      CoverageEdgedPrefix(a1, a2, a3, s1, s2, s3, k, hop, p, m - 1);
      WeightIsProduct(a2, s2, p - Start(m - 1, hop));
      StartIsProduct(m - 1, hop);
    } else {
      assert Coverage(Edged(a1, a2, a3, k), Edged(s1, s2, s3, k), hop, p, 0) == 0.0;
      WeightIsProduct(a1, s1, p);
    }
  }

  /** K ≥ 2 edge-corrected frames cover sample p with the overlap-add envelope of the three product windows. */
  lemma CoverageEdged(a1: seq<real>, a2: seq<real>, a3: seq<real>, s1: seq<real>, s2: seq<real>, s3: seq<real>,
                      k: nat, hop: nat, p: int)
    requires k >= 2 && |a1| == |s1| && |a2| == |s2| && |a3| == |s3|
    ensures Coverage(Edged(a1, a2, a3, k), Edged(s1, s2, s3, k), hop, p, k)
            == Envelopes.Envelope(Mul(a1, s1), Mul(a2, s2), Mul(a3, s3), hop, k, p)
  {
    CoverageEdgedPrefix(a1, a2, a3, s1, s2, s3, k, hop, p, k - 1);
    WeightIsProduct(a3, s3, p - Start(k - 1, hop));
    StartIsProduct(k - 1, hop);
  }

  // ---------------------------------------------------------------------
  // One window for all frames: the interior of the signal.

  lemma {:induction false} MidSumFirst(w: seq<real>, hop: nat, p: int, k: nat)
    requires k >= 1
    ensures Envelopes.MidSum(w, hop, p, 0, k) == Envelopes.At(w, p) + Envelopes.MidSum(w, hop, p, 1, k)
  {
    if k > 1 {
      MidSumFirst(w, hop, p, k - 1);
    }
  }

  /**
   * Away from the first S − H and the last samples, every frame that could
   * cover p is present, so K frames of an exactly COLA window sum to the
   * COLA constant.
   */
  lemma UniformCola(w: seq<real>, hop: nat, c: real, k: nat, p: int)
    requires hop >= 1 && Envelopes.ExactCola(w, hop, c) && k >= 1
    requires 0 <= p && |w| - hop <= p < k * hop
    ensures Envelopes.MidSum(w, hop, p, 0, k) == c
  {
    MidSumFirst(w, hop, p, k);
    Envelopes.ForwardAbsorbsFrames(w, hop, p, k - 1);
    Envelopes.ForwardStep(w, hop, p);
    assert Envelopes.Forward(w, hop, p + hop) == 0.0;
    var t := p - (k - 1) * hop;
    assert t < hop;
    Envelopes.ForwardMeetsBackward(w, hop, t);
    assert Envelopes.Backward(w, hop, t - hop) == 0.0;
    assert 0 <= t % hop < hop;
  }
}
