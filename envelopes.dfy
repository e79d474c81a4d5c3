/**
 * Overlap-add envelopes: the edge-correction windows of the segmenters and
 * the sum of the per-frame windows seen by one output sample.
 *
 * The first frame of a signal uses the "pre" window, in which every sample
 * also carries the samples of the frames that would precede it; the last
 * frame uses the "post" window, which carries the frames that would follow.
 * With these two windows the frames of an exactly COLA window overlap-add to
 * the same constant at every sample, the first and last hop included.
 */
module Envelopes {
  import opened Samples
  import Frames

  /** Sample t of a window, zero outside the window. */
  function At(w: seq<real>, t: int): real
  {
    if 0 <= t < |w| then w[t] else 0.0
  }

  /** w[t] + w[t + H] + w[t + 2H] + ... over the window's support. */
  function Forward(w: seq<real>, hop: nat, t: int): real
    requires hop >= 1
    decreases |w| - t
  {
    if t >= |w| then 0.0 else At(w, t) + Forward(w, hop, t + hop)
  }

  /** w[t] + w[t - H] + w[t - 2H] + ... over the window's support. */
  function Backward(w: seq<real>, hop: nat, t: int): real
    requires hop >= 1
    decreases t
  {
    if t < 0 then 0.0 else At(w, t) + Backward(w, hop, t - hop)
  }

  /** Exact COLA at hop H: every shift sum of the window equals the constant c. */
  predicate ExactCola(w: seq<real>, hop: nat, c: real)
    requires hop >= 1
  {
    forall r :: 0 <= r < hop ==> Forward(w, hop, r) == c
  }

  /** Window of the first frame: sample n adds the window at n + H, n + 2H, ... */
  function PreWindow(w: seq<real>, hop: nat): (r: seq<real>)
    requires hop >= 1
    ensures |r| == |w|
  {
    seq(|w|, n => Forward(w, hop, n))
  }

  /** Window of the last frame: sample m adds the window at m - H, m - 2H, ... */
  function PostWindow(w: seq<real>, hop: nat): (r: seq<real>)
    requires hop >= 1
    ensures |r| == |w|
  {
    seq(|w|, m => Backward(w, hop, m))
  }

  /** Sum over the frames lo .. hi-1 of the window at p - jH. */
  function MidSum(w: seq<real>, hop: nat, p: int, lo: int, hi: int): real
    decreases hi - lo
  {
    if hi <= lo then 0.0 else MidSum(w, hop, p, lo, hi - 1) + At(w, p - (hi - 1) * hop)
  }

  /** The overlap-add envelope of K frames: first, interior and last windows at sample p. */
  function Envelope(first: seq<real>, mid: seq<real>, last: seq<real>, hop: nat, k: int, p: int): real
  {
    At(first, p) + MidSum(mid, hop, p, 1, k - 1) + At(last, p - (k - 1) * hop)
  }

  // ---------------------------------------------------------------------
  // The edge-corrected windows in terms of the window.

  lemma ForwardStep(w: seq<real>, hop: nat, t: int)
    requires hop >= 1
    ensures Forward(w, hop, t) == At(w, t) + Forward(w, hop, t + hop)
  {
    if t >= |w| {
      assert Forward(w, hop, t + hop) == 0.0;
    }
  }

  lemma AtPreWindow(w: seq<real>, hop: nat, p: int)
    requires hop >= 1 && p >= 0
    ensures At(PreWindow(w, hop), p) == Forward(w, hop, p)
  {
  }

  lemma AtPostWindow(w: seq<real>, hop: nat, q: int)
    requires hop >= 1 && q < |w|
    ensures At(PostWindow(w, hop), q) == Backward(w, hop, q)
  {
  }

  /** Peeling interior frames off the forward sum: F(p) + Σ_{j=1..m} w(p - jH) = F(p - mH). */
  lemma {:induction false} ForwardAbsorbsFrames(w: seq<real>, hop: nat, p: int, m: nat)
    requires hop >= 1
    ensures Forward(w, hop, p) + MidSum(w, hop, p, 1, m + 1) == Forward(w, hop, p - m * hop)
  {
    if m > 0 {
      ForwardAbsorbsFrames(w, hop, p, m - 1);
      ForwardStep(w, hop, p - m * hop);
      assert p - m * hop + hop == p - (m - 1) * hop;
    }
  }

  /** Forward and backward sums meeting at t cover the whole residue class of t. */
  lemma {:induction false} ForwardMeetsBackward(w: seq<real>, hop: nat, t: int)
    requires hop >= 1
    ensures Forward(w, hop, t) + Backward(w, hop, t - hop) == Forward(w, hop, t % hop)
    decreases if t < 0 then hop - t else t
  {
    if t < 0 {
      ForwardStep(w, hop, t);
      ForwardMeetsBackward(w, hop, t + hop);
      Frames.DivShift(t, 1, hop);
    } else if t >= hop {
      ForwardStep(w, hop, t - hop);
      ForwardMeetsBackward(w, hop, t - hop);
      Frames.DivShift(t - hop, 1, hop);
    } else {
      Frames.DivOfMultiple(0, hop, t);
    }
  }

  /**
   * With edge correction, K >= 2 frames overlap-add at every sample p of the
   * rebuilt signal to the shift sum of p's residue class.
   */
  lemma EdgeCorrectedEnvelope(w: seq<real>, hop: nat, k: int, p: int)
    requires hop >= 1 && k >= 2 && 0 <= p < (k - 1) * hop + |w|
    ensures Envelope(PreWindow(w, hop), w, PostWindow(w, hop), hop, k, p) == Forward(w, hop, p % hop)
  {
    AtPreWindow(w, hop, p);
    AtPostWindow(w, hop, p - (k - 1) * hop);
    ForwardAbsorbsFrames(w, hop, p, k - 2);
    var t := p - (k - 2) * hop;
    assert t - hop == p - (k - 1) * hop;
    ForwardMeetsBackward(w, hop, t);
    Frames.DivShift(t, k - 2, hop);
  }

  // ---------------------------------------------------------------------
  // Truncated sums: what an edge-correction loop has accumulated after i passes.

  /** Σ_{j < i} w(t + jH). */
  function ForwardUpTo(w: seq<real>, hop: nat, t: int, i: nat): real
  {
    if i == 0 then 0.0 else ForwardUpTo(w, hop, t, i - 1) + At(w, t + (i - 1) * hop)
  }

  /** Σ_{j < i} w(t − jH). */
  function BackwardUpTo(w: seq<real>, hop: nat, t: int, i: nat): real
  {
    if i == 0 then 0.0 else BackwardUpTo(w, hop, t, i - 1) + At(w, t - (i - 1) * hop)
  }

  /** The first i terms and the rest of the forward sum make up the whole. */
  lemma {:induction false} ForwardUpToSplit(w: seq<real>, hop: nat, t: int, i: nat)
    requires hop >= 1
    ensures ForwardUpTo(w, hop, t, i) + Forward(w, hop, t + i * hop) == Forward(w, hop, t)
  {
    if i > 0 {
      ForwardUpToSplit(w, hop, t, i - 1);
      ForwardStep(w, hop, t + (i - 1) * hop);
      assert t + (i - 1) * hop + hop == t + i * hop;
    }
  }

  /** The first i terms and the rest of the backward sum make up the whole. */
  lemma {:induction false} BackwardUpToSplit(w: seq<real>, hop: nat, t: int, i: nat)
    requires hop >= 1
    ensures BackwardUpTo(w, hop, t, i) + Backward(w, hop, t - i * hop) == Backward(w, hop, t)
  {
    if i > 0 {
      BackwardUpToSplit(w, hop, t, i - 1);
      var u := t - (i - 1) * hop;
      assert u - hop == t - i * hop;
      if u < 0 {
        assert Backward(w, hop, u - hop) == 0.0;
      }
    }
  }

  /** Once the terms run past the window the truncated forward sum is complete. */
  lemma ForwardUpToComplete(w: seq<real>, hop: nat, t: int, i: nat)
    requires hop >= 1 && t + i * hop >= |w|
    ensures ForwardUpTo(w, hop, t, i) == Forward(w, hop, t)
  {
    ForwardUpToSplit(w, hop, t, i);
  }

  /** Once the terms run below zero the truncated backward sum is complete. */
  lemma BackwardUpToComplete(w: seq<real>, hop: nat, t: int, i: nat)
    requires hop >= 1 && t - i * hop < 0
    ensures BackwardUpTo(w, hop, t, i) == Backward(w, hop, t)
  {
    BackwardUpToSplit(w, hop, t, i);
  }

  /** Shift sums of a non-negative window are non-negative. */
  lemma {:induction false} ForwardNonNegative(w: seq<real>, hop: nat, t: int)
    requires hop >= 1 && NonNegative(w)
    ensures Forward(w, hop, t) >= 0.0
    decreases |w| - t
  {
    if t < |w| {
      ForwardNonNegative(w, hop, t + hop);
    }
  }

  lemma {:induction false} BackwardNonNegative(w: seq<real>, hop: nat, t: int)
    requires hop >= 1 && NonNegative(w)
    ensures Backward(w, hop, t) >= 0.0
    decreases t
  {
    if t >= 0 {
      BackwardNonNegative(w, hop, t - hop);
    }
  }

  /** The edge-corrected windows of a non-negative window are non-negative. */
  lemma EdgeWindowsNonNegative(w: seq<real>, hop: nat)
    requires hop >= 1 && NonNegative(w)
    ensures NonNegative(PreWindow(w, hop)) && NonNegative(PostWindow(w, hop))
  {
    forall n | 0 <= n < |w|
      ensures PreWindow(w, hop)[n] >= 0.0 && PostWindow(w, hop)[n] >= 0.0
    {
      ForwardNonNegative(w, hop, n);
      BackwardNonNegative(w, hop, n);
    }
  }

  // ---------------------------------------------------------------------
  // The COLA constant is the mean overlap Σw / H.

  /** Sum of the window over t in a .. a+n-1 (zero outside the window). */
  function RangeAt(w: seq<real>, a: int, n: nat): real
  {
    if n == 0 then 0.0 else RangeAt(w, a, n - 1) + At(w, a + n - 1)
  }

  /** Sum of the shift sums starting at a .. a+n-1. */
  function RangeForward(w: seq<real>, hop: nat, a: int, n: nat): real
    requires hop >= 1
  {
    if n == 0 then 0.0 else RangeForward(w, hop, a, n - 1) + Forward(w, hop, a + n - 1)
  }

  lemma {:induction false} RangeAtSplit(w: seq<real>, a: int, m: nat, n: nat)
    ensures RangeAt(w, a, m + n) == RangeAt(w, a, m) + RangeAt(w, a + m, n)
  {
    if n > 0 {
      RangeAtSplit(w, a, m, n - 1);
    }
  }

  lemma {:induction false} RangeAtBeyond(w: seq<real>, a: int, n: nat)
    requires a >= |w|
    ensures RangeAt(w, a, n) == 0.0
  {
    if n > 0 {
      RangeAtBeyond(w, a, n - 1);
    }
  }

  lemma {:induction false} RangeForwardBeyond(w: seq<real>, hop: nat, a: int, n: nat)
    requires hop >= 1 && a >= |w|
    ensures RangeForward(w, hop, a, n) == 0.0
  {
    if n > 0 {
      RangeForwardBeyond(w, hop, a, n - 1);
    }
  }

  lemma {:induction false} RangeForwardStep(w: seq<real>, hop: nat, a: int, n: nat)
    requires hop >= 1
    ensures RangeForward(w, hop, a, n) == RangeAt(w, a, n) + RangeForward(w, hop, a + hop, n)
  {
    if n > 0 {
      RangeForwardStep(w, hop, a, n - 1);
      ForwardStep(w, hop, a + n - 1);
      assert a + n - 1 + hop == a + hop + n - 1;
    }
  }

  /** The H shift sums starting at a >= 0 add up to the window's tail from a. */
  lemma {:induction false} ShiftSumsCoverTail(w: seq<real>, hop: nat, a: nat)
    requires hop >= 1
    ensures a >= |w| ==> RangeForward(w, hop, a, hop) == 0.0
    ensures a < |w| ==> RangeForward(w, hop, a, hop) == RangeAt(w, a, |w| - a)
    decreases |w| - a
  {
    if a >= |w| {
      RangeForwardBeyond(w, hop, a, hop);
    } else {
      RangeForwardStep(w, hop, a, hop);
      ShiftSumsCoverTail(w, hop, a + hop);
      if a + hop >= |w| {
        RangeAtSplit(w, a, |w| - a, a + hop - |w|);
        RangeAtBeyond(w, |w|, a + hop - |w|);
      } else {
        RangeAtSplit(w, a, hop, |w| - a - hop);
      }
    }
  }

  lemma {:induction false} SumIsRangeAt(w: seq<real>, n: nat)
    requires n <= |w|
    ensures Sum(w[..n]) == RangeAt(w, 0, n)
  {
    if n > 0 {
      assert w[..n][..n - 1] == w[..n - 1];
      SumIsRangeAt(w, n - 1);
    }
  }

  lemma {:induction false} RangeForwardConstant(w: seq<real>, hop: nat, c: real, n: nat)
    requires hop >= 1 && ExactCola(w, hop, c) && n <= hop
    ensures RangeForward(w, hop, 0, n) == (n as real) * c
  {
    if n > 0 {
      RangeForwardConstant(w, hop, c, n - 1);
    }
  }

  /** The H shift sums of a window add up to the sum of the window. */
  lemma ShiftSumsTotal(w: seq<real>, hop: nat)
    requires hop >= 1
    ensures RangeForward(w, hop, 0, hop) == Sum(w)
  {
    ShiftSumsCoverTail(w, hop, 0);
    SumIsRangeAt(w, |w|);
    assert w[..|w|] == w;
  }

  /** An exactly COLA window overlaps to its mean overlap: c = Σw / H. */
  lemma ColaConstantIsMeanOverlap(w: seq<real>, hop: nat, c: real)
    requires hop >= 1 && ExactCola(w, hop, c)
    ensures c == Sum(w) / (hop as real)
  {
    ShiftSumsTotal(w, hop);
    RangeForwardConstant(w, hop, c, hop);
    QuotientOfProduct(Sum(w), hop as real, c);
  }

  lemma QuotientOfProduct(s: real, h: real, c: real)
    requires h != 0.0 && s == h * c
    ensures c == s / h
  {
  }

  // ---------------------------------------------------------------------
  // Normalized windows.

  lemma AtScale(w: seq<real>, c: real, t: int)
    requires c != 0.0
    ensures At(Scale(w, c), t) == At(w, t) / c
  {
  }

  lemma {:induction false} MidSumScale(w: seq<real>, c: real, hop: nat, p: int, lo: int, hi: int)
    requires c != 0.0
    ensures MidSum(Scale(w, c), hop, p, lo, hi) == MidSum(w, hop, p, lo, hi) / c
    decreases hi - lo
  {
    if hi > lo {
      var t := p - (hi - 1) * hop;
      MidSumScale(w, c, hop, p, lo, hi - 1);
      AtScale(w, c, t);
      DivAdd(MidSum(w, hop, p, lo, hi - 1), At(w, t), c);
    }
  }

  /** Dividing a window by c divides each of its shift sums by c. */
  lemma {:induction false} ForwardScale(w: seq<real>, c: real, hop: nat, t: int)
    requires hop >= 1 && c != 0.0
    ensures Forward(Scale(w, c), hop, t) == Forward(w, hop, t) / c
    decreases |w| - t
  {
    if t < |w| {
      ForwardScale(w, c, hop, t + hop);
      AtScale(w, c, t);
      DivAdd(At(w, t), Forward(w, hop, t + hop), c);
    }
  }

  /** Dividing a window by c divides each of its backward shift sums by c. */
  lemma {:induction false} BackwardScale(w: seq<real>, c: real, hop: nat, t: int)
    requires hop >= 1 && c != 0.0
    ensures Backward(Scale(w, c), hop, t) == Backward(w, hop, t) / c
    decreases t
  {
    if t >= 0 {
      BackwardScale(w, c, hop, t - hop);
      AtScale(w, c, t);
      DivAdd(At(w, t), Backward(w, hop, t - hop), c);
    }
  }

  /** A window COLA at constant k, divided by c, is COLA at constant k / c. */
  lemma ColaScale(w: seq<real>, hop: nat, k: real, c: real)
    requires hop >= 1 && c != 0.0 && ExactCola(w, hop, k)
    ensures ExactCola(Scale(w, c), hop, k / c)
  {
    forall r | 0 <= r < hop
      ensures Forward(Scale(w, c), hop, r) == k / c
    {
      ForwardScale(w, c, hop, r);
    }
  }

  /** Dividing the three windows by c divides the envelope by c. */
  lemma EnvelopeScale(first: seq<real>, mid: seq<real>, last: seq<real>, c: real, hop: nat, k: int, p: int)
    requires c != 0.0
    ensures Envelope(Scale(first, c), Scale(mid, c), Scale(last, c), hop, k, p)
            == Envelope(first, mid, last, hop, k, p) / c
  {
    AtScale(first, c, p);
    AtScale(last, c, p - (k - 1) * hop);
    MidSumScale(mid, c, hop, p, 1, k - 1);
    DivAdd3(At(first, p), MidSum(mid, hop, p, 1, k - 1), At(last, p - (k - 1) * hop), c);
  }

  lemma DivAdd(a: real, b: real, c: real)
    requires c != 0.0
    ensures a / c + b / c == (a + b) / c && b / c + a / c == (b + a) / c
  {
  }

  lemma DivAdd3(a: real, b: real, d: real, c: real)
    requires c != 0.0
    ensures a / c + b / c + d / c == (a + b + d) / c
  {
  }

  /**
   * Edge corrected and normalized by the mean overlap, the windows of an exactly
   * COLA window overlap-add to one at every sample of the rebuilt signal.
   */
  lemma NormalizedEnvelopeIsOne(w: seq<real>, hop: nat, c: real, k: int, p: int)
    requires hop >= 1 && k >= 2 && 0 <= p < (k - 1) * hop + |w|
    requires ExactCola(w, hop, c) && c != 0.0
    ensures Sum(w) / (hop as real) == c
    ensures Envelope(Scale(PreWindow(w, hop), c), Scale(w, c), Scale(PostWindow(w, hop), c), hop, k, p) == 1.0
  {
    ColaConstantIsMeanOverlap(w, hop, c);
    EdgeCorrectedEnvelope(w, hop, k, p);
    EnvelopeScale(PreWindow(w, hop), w, PostWindow(w, hop), c, hop, k, p);
    var r := p % hop;
    assert Forward(w, hop, r) == c;
    SelfDivision(c);
  }

  lemma SelfDivision(c: real)
    requires c != 0.0
    ensures c / c == 1.0
  {
  }
}
