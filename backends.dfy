/**
 * The `Window`-object segmenters of the numpy, torch and tensorflow backends
 * (src/libsegmenter/backends/).
 *
 * All three frame a 1-D or 2-D signal with the analysis window, one frame
 * every hop, and rebuild a signal by overlap-adding every frame weighted by
 * the synthesis window. An unbatched input is viewed as a batch of one row
 * and the extra axis is squeezed from the result; `rank` is the number of
 * axes of the input and `outRank` that of the result.
 *
 * A `Window` carries the hop size and the two windows; the segment size is
 * the length of the analysis window. The Python exception of each failure is
 * a `BackendError`; numpy and tensor broadcasting of a size-1 axis is modelled
 * as a failed broadcast.
 */
module Backends {
  import opened Wrappers
  import opened Samples
  import Frames
  import Envelopes
  import Framing

  datatype Backend = Numpy | Torch | TensorFlow

  /** The window record the backends read; its segment size is the analysis window's length. */
  datatype Window = Window(hopSize: nat, analysis: seq<real>, synthesis: seq<real>)

  datatype BackendError =
    | RankError          // ValueError: unsupported number of axes
    | DivisionByZero     // ZeroDivisionError in compute_num_segments (hop size 0)
    | TooShort           // ValueError: no complete frame
    | MissingBatchSize   // a tensor shape or a range built from batch_size None
    | BroadcastError     // a slice and a window of different lengths multiplied
    | NonPositiveLength  // ValueError: compute_num_samples <= 0

  /** The frame count compute_num_segments gives for n samples. */
  function FrameCount(w: Window, n: nat): int
    requires w.hopSize >= 1
  {
    Frames.NumSegments(n, w.hopSize, |w.analysis|)
  }

  /**
   * The first exception `segment` raises, in the order of the source: the
   * rank check, the frame count (which divides by the hop), the count check,
   * the torch and tensorflow allocation with batch_size None, and the product
   * of a last slice cut short by the end of the signal with the window.
   */
  function SegmentError(backend: Backend, w: Window, rank: nat, n: nat): (e: Option<BackendError>)
    ensures e == Some(RankError) <==> rank != 1 && rank != 2
    ensures e.None? ==> w.hopSize >= 1 && FrameCount(w, n) >= 1
    ensures e.None? ==> Frames.NumSamples(FrameCount(w, n), w.hopSize, |w.analysis|) <= n
  {
    if rank != 1 && rank != 2 then Some(RankError)
    else if w.hopSize == 0 then Some(DivisionByZero)
    else if FrameCount(w, n) <= 0 then Some(TooShort)
    else if backend != Numpy && rank == 1 then Some(MissingBatchSize)
    else if Frames.NumSamples(FrameCount(w, n), w.hopSize, |w.analysis|) > n then Some(BroadcastError)
    else None
  }

  /**
   * `segment` succeeds exactly on a batch (or, on numpy, an unbatched
   * signal) of at least S samples whose length leaves room for the last
   * frame: S mod H <= n mod H.
   */
  lemma SegmentSucceedsIff(backend: Backend, w: Window, rank: nat, n: nat)
    ensures SegmentError(backend, w, rank, n).None? <==>
              && (rank == 2 || (rank == 1 && backend == Numpy))
              && w.hopSize >= 1 && n >= |w.analysis|
              && |w.analysis| % w.hopSize <= n % w.hopSize
  {
    if w.hopSize >= 1 {
      LastFrameFits(w, n);
    }
  }

  /**
   * The last frame ends inside the signal exactly when S mod H <= n mod H,
   * and then there is a frame exactly when n >= S.
   */
  lemma LastFrameFits(w: Window, n: nat)
    requires w.hopSize >= 1
    ensures Frames.NumSamples(FrameCount(w, n), w.hopSize, |w.analysis|) <= n
            <==> |w.analysis| % w.hopSize <= n % w.hopSize
    ensures |w.analysis| % w.hopSize <= n % w.hopSize ==> (FrameCount(w, n) >= 1 <==> n >= |w.analysis|)
  {
    var h, s := w.hopSize, |w.analysis|;
    Frames.NumSamplesOfNumSegments(n, h, s);
    assert n == (n / h) * h + n % h;
    assert s == (s / h) * h + s % h;
    if s % h <= n % h {
      if n / h >= s / h {
        Frames.MulAtLeast(n / h - s / h, h);
        assert (n / h) * h - (s / h) * h == (n / h - s / h) * h;
      } else {
        Frames.MulSign(s / h - n / h, h);
        assert (s / h) * h - (n / h) * h == (s / h - n / h) * h;
      }
    }
  }

  /** Frame j of the analysis: `X[:, j, :] = x[:, jH : jH + S] * analysis`. */
  method Segment(backend: Backend, w: Window, x: array2<real>, rank: nat)
    returns (err: Option<BackendError>, X: array3<real>, outRank: nat)
    requires rank == 1 ==> x.Length0 == 1
    ensures err == SegmentError(backend, w, rank, x.Length1)
    ensures err.None? ==>
              && fresh(X) && outRank == rank + 1
              && X.Length0 == x.Length0 && X.Length1 == FrameCount(w, x.Length1) && X.Length2 == |w.analysis|
              && Framing.FramedFrom(x, X, Framing.Uniform(w.analysis, X.Length1), w.hopSize)
  {
    err := SegmentError(backend, w, rank, x.Length1);
    if err.Some? {
      X, outRank := new real[0, 0, 0], rank;
      return;
    }
    var k := FrameCount(w, x.Length1);
    var wins := Framing.Uniform(w.analysis, k);
    Framing.FitsWhenLastFits(wins, w.hopSize, |w.analysis|, x.Length1);
    X := Framing.Frame(x, w.hopSize, wins, |w.analysis|);
    outRank := rank + 1;
  }

  /**
   * The first exception `unsegment` of numpy and torch raises: the rank
   * check, a non-positive output length, and the product of frames of one
   * width with a synthesis window of another.
   */
  function UnsegmentError(w: Window, rank: nat, frames: nat, size: nat): (e: Option<BackendError>)
    ensures e == Some(RankError) <==> rank != 2 && rank != 3
    ensures e.None? ==> Frames.NumSamples(frames, w.hopSize, size) >= 1
    ensures e.None? && frames >= 1 ==> size == |w.synthesis|
  {
    if rank != 2 && rank != 3 then Some(RankError)
    else if Frames.NumSamples(frames, w.hopSize, size) <= 0 then Some(NonPositiveLength)
    else if frames >= 1 && size != |w.synthesis| then Some(BroadcastError)
    else None
  }

  /**
   * Overlap-add into a zeroed signal of compute_num_samples(K, H, S)
   * samples: `x[:, jH : jH + S] += X[:, j, :] * synthesis` for every frame.
   * Shared by the numpy and the torch backend.
   */
  method Unsegment(w: Window, X: array3<real>, rank: nat)
    returns (err: Option<BackendError>, y: array2<real>, outRank: nat)
    requires rank == 2 ==> X.Length0 == 1
    ensures err == UnsegmentError(w, rank, X.Length1, X.Length2)
    ensures err.None? ==>
              && fresh(y) && outRank == rank - 1
              && y.Length0 == X.Length0 && y.Length1 == Frames.NumSamples(X.Length1, w.hopSize, X.Length2)
              && forall b, p :: 0 <= b < y.Length0 && 0 <= p < y.Length1 ==>
                   y[b, p] == Framing.Overlap(X, Framing.Uniform(w.synthesis, X.Length1), w.hopSize, b, p, X.Length1)
  {
    err := UnsegmentError(w, rank, X.Length1, X.Length2);
    if err.Some? {
      y, outRank := new real[0, 0], rank;
      return;
    }
    y := Framing.OverlapAdd(X, w.hopSize, Framing.Uniform(w.synthesis, X.Length1));
    outRank := rank - 1;
  }

  /**
   * The first exception the tensorflow `unsegment` raises: those of numpy
   * and torch, except that an unbatched input with at least one frame fails
   * on `range(batch_size)` before the product is formed.
   */
  function TensorFlowUnsegmentError(w: Window, rank: nat, frames: nat, size: nat): (e: Option<BackendError>)
    ensures rank != 2 || frames == 0 ==> e == UnsegmentError(w, rank, frames, size)
    ensures rank == 2 && frames >= 1 && Frames.NumSamples(frames, w.hopSize, size) >= 1 ==> e == Some(MissingBatchSize)
  {
    if rank != 2 && rank != 3 then Some(RankError)
    else if Frames.NumSamples(frames, w.hopSize, size) <= 0 then Some(NonPositiveLength)
    else if rank == 2 && frames >= 1 then Some(MissingBatchSize)
    else if frames >= 1 && size != |w.synthesis| then Some(BroadcastError)
    else None
  }

  /**
   * The tensorflow `unsegment` as written: the scatter indices `[i, j]` leave
   * out the frame start, so every frame is added at positions 0 .. S - 1, as
   * an overlap-add with hop 0 would.
   */
  method TensorFlowUnsegment(w: Window, X: array3<real>, rank: nat)
    returns (err: Option<BackendError>, y: array2<real>, outRank: nat)
    requires rank == 2 ==> X.Length0 == 1
    ensures err == TensorFlowUnsegmentError(w, rank, X.Length1, X.Length2)
    ensures err.None? ==>
              && fresh(y) && outRank == rank - 1
              && y.Length0 == X.Length0 && y.Length1 == Frames.NumSamples(X.Length1, w.hopSize, X.Length2)
              && forall b, p :: 0 <= b < y.Length0 && 0 <= p < y.Length1 ==>
                   y[b, p] == Framing.Overlap(X, Framing.Uniform(w.synthesis, X.Length1), 0, b, p, X.Length1)
  {
    err := TensorFlowUnsegmentError(w, rank, X.Length1, X.Length2);
    if err.Some? {
      y, outRank := new real[0, 0], rank;
      return;
    }
    var n := Frames.NumSamples(X.Length1, w.hopSize, X.Length2);
    var wins := Framing.Uniform(w.synthesis, X.Length1);
    y := new real[X.Length0, n]((b, p) => 0.0);
    for j := 0 to X.Length1
      invariant forall b, p :: 0 <= b < y.Length0 && 0 <= p < n ==> y[b, p] == Framing.Overlap(X, wins, 0, b, p, j)
    {
      Framing.FrameEndsWithin(0, X.Length1, w.hopSize, X.Length2);
      Framing.StartIsProduct(j, 0);
      Framing.AddFrame(X, y, 0, wins, j);
    }
    outRank := rank - 1;
  }

  // ---------------------------------------------------------------------
  // Properties.

  /** Overlap-add of row b reads only row b of the frames: batch rows never interact. */
  lemma {:induction false} OverlapRowLocal(X: array3<real>, Y: array3<real>, wins: seq<seq<real>>, hop: nat,
                                           b: nat, c: nat, p: int, k: nat)
    requires b < X.Length0 && c < Y.Length0 && X.Length1 == Y.Length1 && X.Length2 == Y.Length2
    requires k <= X.Length1 && k <= |wins| && Framing.Sized(wins, X.Length2)
    requires forall j, q :: 0 <= j < X.Length1 && 0 <= q < X.Length2 ==> X[b, j, q] == Y[c, j, q]
    ensures Framing.Overlap(X, wins, hop, b, p, k) == Framing.Overlap(Y, wins, hop, c, p, k)
  {
    if k > 0 {
      OverlapRowLocal(X, Y, wins, hop, b, c, p, k - 1);
    }
  }

  /**
   * Unsegment after segment with one Window: every sample comes back
   * multiplied by the analysis·synthesis envelope Σ_k a(p − kH)·s(p − kH).
   */
  lemma ReconstructionEnvelope(w: Window, x: array2<real>, X: array3<real>, b: nat, p: nat)
    requires |w.synthesis| == |w.analysis| == X.Length2
    requires Framing.FramedFrom(x, X, Framing.Uniform(w.analysis, X.Length1), w.hopSize)
    requires b < x.Length0 && p < x.Length1
    ensures Framing.Overlap(X, Framing.Uniform(w.synthesis, X.Length1), w.hopSize, b, p, X.Length1)
            == Envelopes.MidSum(Mul(w.analysis, w.synthesis), w.hopSize, p, 0, X.Length1) * x[b, p]
  {
    var k := X.Length1;
    Framing.OverlapOfFramed(x, X, Framing.Uniform(w.analysis, k), Framing.Uniform(w.synthesis, k), w.hopSize, b, p);
    Framing.CoverageUniform(w.analysis, w.synthesis, k, w.hopSize, p, k);
  }

  /**
   * Where the analysis·synthesis window is exactly COLA with constant c,
   * every sample past the first S − H and before the last H comes back
   * times c.
   */
  lemma ColaReconstruction(w: Window, c: real, x: array2<real>, X: array3<real>, b: nat, p: nat)
    requires w.hopSize >= 1 && |w.synthesis| == |w.analysis| == X.Length2 && X.Length1 >= 1
    requires Envelopes.ExactCola(Mul(w.analysis, w.synthesis), w.hopSize, c)
    requires Framing.FramedFrom(x, X, Framing.Uniform(w.analysis, X.Length1), w.hopSize)
    requires b < x.Length0 && p < x.Length1 && |w.analysis| - w.hopSize <= p < X.Length1 * w.hopSize
    ensures Framing.Overlap(X, Framing.Uniform(w.synthesis, X.Length1), w.hopSize, b, p, X.Length1)
            == c * x[b, p]
  {
    var env := Mul(w.analysis, w.synthesis);
    Framing.UniformCola(env, w.hopSize, c, X.Length1, p);
    assert Envelopes.MidSum(env, w.hopSize, p, 0, X.Length1) == c;
    ReconstructionEnvelope(w, x, X, b, p);
  }

  /** Every sample of the overlap-add of framed frames is the input sample times the envelope. */
  lemma RebuiltSamples(w: Window, x: array2<real>, X: array3<real>, y: array2<real>, k: nat)
    requires |w.synthesis| == |w.analysis| == X.Length2 && k == X.Length1
    requires Framing.FramedFrom(x, X, Framing.Uniform(w.analysis, k), w.hopSize)
    requires y.Length0 == x.Length0 && y.Length1 <= x.Length1
    requires forall b, p :: 0 <= b < y.Length0 && 0 <= p < y.Length1 ==>
               y[b, p] == Framing.Overlap(X, Framing.Uniform(w.synthesis, k), w.hopSize, b, p, k)
    ensures forall b, p :: 0 <= b < y.Length0 && 0 <= p < y.Length1 ==>
              y[b, p] == Envelopes.MidSum(Mul(w.analysis, w.synthesis), w.hopSize, p, 0, k) * x[b, p]
  {
    var env := Mul(w.analysis, w.synthesis);
    var syn := Framing.Uniform(w.synthesis, k);
    forall b, p | 0 <= b < y.Length0 && 0 <= p < y.Length1
      ensures y[b, p] == Envelopes.MidSum(env, w.hopSize, p, 0, k) * x[b, p]
    {
      assert y[b, p] == Framing.Overlap(X, syn, w.hopSize, b, p, k);
      ReconstructionEnvelope(w, x, X, b, p);
    }
  }

  /** Unsegment of the frames segment cut from x, with the same Window. */
  method UnsegmentFramed(w: Window, x: array2<real>, X: array3<real>, rank: nat)
    returns (err: Option<BackendError>, y: array2<real>, outRank: nat)
    requires rank == 2 ==> X.Length0 == 1
    requires X.Length2 == |w.analysis| && w.hopSize >= 1 && X.Length1 >= 1
    requires Framing.FramedFrom(x, X, Framing.Uniform(w.analysis, X.Length1), w.hopSize)
    requires Frames.NumSamples(X.Length1, w.hopSize, X.Length2) <= x.Length1
    ensures err == UnsegmentError(w, rank, X.Length1, X.Length2)
    ensures err.None? ==>
              && outRank == rank - 1 && y.Length0 == x.Length0
              && y.Length1 == Frames.NumSamples(X.Length1, w.hopSize, X.Length2)
              && forall b, p :: 0 <= b < y.Length0 && 0 <= p < y.Length1 ==>
                   y[b, p] == Envelopes.MidSum(Mul(w.analysis, w.synthesis), w.hopSize, p, 0, X.Length1) * x[b, p]
  {
    err, y, outRank := Unsegment(w, X, rank);
    if err.None? {
      RebuiltSamples(w, x, X, y, X.Length1);
    }
  }

  /**
   * Segment, then unsegment with the same Window on the same backend (numpy
   * or torch). The rebuilt signal has (K − 1)·H + S samples, all of the input
   * exactly when n mod H == S mod H, and each is the input sample times the
   * analysis·synthesis envelope.
   */
  method RoundTrip(backend: Backend, w: Window, x: array2<real>, rank: nat)
    returns (err: Option<BackendError>, y: array2<real>, outRank: nat)
    requires backend != TensorFlow && (rank == 1 ==> x.Length0 == 1)
    ensures SegmentError(backend, w, rank, x.Length1).Some? ==> err == SegmentError(backend, w, rank, x.Length1)
    ensures SegmentError(backend, w, rank, x.Length1).None? ==>
              err == UnsegmentError(w, rank + 1, FrameCount(w, x.Length1), |w.analysis|)
    ensures err.None? ==>
              && outRank == rank && y.Length0 == x.Length0 && y.Length1 <= x.Length1
              && (y.Length1 == x.Length1 <==> x.Length1 % w.hopSize == |w.analysis| % w.hopSize)
              && forall b, p :: 0 <= b < y.Length0 && 0 <= p < y.Length1 ==>
                   y[b, p] == Envelopes.MidSum(Mul(w.analysis, w.synthesis), w.hopSize, p, 0, FrameCount(w, x.Length1)) * x[b, p]
  {
    var X, r;
    err, X, r := Segment(backend, w, x, rank);
    if err.Some? {
      y, outRank := new real[0, 0], rank;
      return;
    }
    Frames.NumSamplesOfNumSegments(x.Length1, w.hopSize, |w.analysis|);
    err, y, outRank := UnsegmentFramed(w, x, X, r);
  }

  /** With a full batch the three backends raise the same exception on the same input. */
  lemma BackendsAgreeOnBatches(w: Window, n: nat)
    ensures SegmentError(Numpy, w, 2, n) == SegmentError(Torch, w, 2, n) == SegmentError(TensorFlow, w, 2, n)
    ensures TensorFlowUnsegmentError(w, 3, 1, |w.synthesis|) == UnsegmentError(w, 3, 1, |w.synthesis|)
  {
  }

  /** torch and tensorflow reject every unbatched signal that numpy frames. */
  lemma UnbatchedOnlyOnNumpy(w: Window, n: nat)
    requires SegmentError(Numpy, w, 1, n).None?
    ensures SegmentError(Torch, w, 1, n) == Some(MissingBatchSize)
    ensures SegmentError(TensorFlow, w, 1, n) == Some(MissingBatchSize)
  {
  }

  // ---------------------------------------------------------------------
  // The tensorflow overlap-add as written against the intended one.

  /** With a single frame the missing frame start makes no difference. */
  lemma TensorFlowAgreesForOneFrame(X: array3<real>, wins: seq<seq<real>>, hop: nat, b: nat, p: int)
    requires b < X.Length0 && X.Length1 == 1 && |wins| == 1 && Framing.Sized(wins, X.Length2)
    ensures Framing.Overlap(X, wins, 0, b, p, 1) == Framing.Overlap(X, wins, hop, b, p, 1)
  {
    assert Framing.Overlap(X, wins, 0, b, p, 0) == Framing.Overlap(X, wins, hop, b, p, 0) == 0.0;
    assert 0 * hop == 0;
  }

  /** Without the frame start no sample past the first S receives anything. */
  lemma {:induction false} TensorFlowLeavesTailZero(X: array3<real>, wins: seq<seq<real>>, b: nat, p: int, k: nat)
    requires b < X.Length0 && k <= X.Length1 && k <= |wins| && Framing.Sized(wins, X.Length2)
    requires p >= X.Length2
    ensures Framing.Overlap(X, wins, 0, b, p, k) == 0.0
  {
    if k > 0 {
      TensorFlowLeavesTailZero(X, wins, b, p, k - 1);
      Framing.StartIsProduct(k - 1, 0);
    }
  }

  /** Only the last frame covers the last sample (K − 1)·H + S − 1 of an overlap-add. */
  lemma {:induction false} LastSampleFromLastFrame(X: array3<real>, wins: seq<seq<real>>, hop: nat, b: nat, k: nat, m: nat)
    requires hop >= 1 && b < X.Length0 && 1 <= m <= k <= X.Length1 && k <= |wins| && Framing.Sized(wins, X.Length2)
    requires X.Length2 >= 1
    ensures Framing.Overlap(X, wins, hop, b, Frames.NumSamples(k, hop, X.Length2) - 1, m)
            == (if m == k then wins[k - 1][X.Length2 - 1] * X[b, k - 1, X.Length2 - 1] else 0.0)
  {
    var p := Frames.NumSamples(k, hop, X.Length2) - 1;
    var j := m - 1;
    Frames.MulAtLeast(k - 1 - j, hop);
    Framing.StartIsProduct(j, hop);
    assert p - j * hop == (k - 1 - j) * hop + X.Length2 - 1;
    if m > 1 {
      LastSampleFromLastFrame(X, wins, hop, b, k, m - 1);
    }
  }

  /**
   * With two frames or more the tensorflow result differs from the
   * overlap-add wherever the last frame's last weighted sample is non-zero.
   */
  lemma TensorFlowDiffersFromOverlapAdd(w: Window, X: array3<real>, b: nat)
    requires w.hopSize >= 1 && b < X.Length0 && X.Length1 >= 2 && X.Length2 == |w.synthesis| >= 1
    requires w.synthesis[X.Length2 - 1] * X[b, X.Length1 - 1, X.Length2 - 1] != 0.0
    ensures var p := Frames.NumSamples(X.Length1, w.hopSize, X.Length2) - 1;
            Framing.Overlap(X, Framing.Uniform(w.synthesis, X.Length1), 0, b, p, X.Length1)
            != Framing.Overlap(X, Framing.Uniform(w.synthesis, X.Length1), w.hopSize, b, p, X.Length1)
  {
    var k, s := X.Length1, X.Length2;
    var wins := Framing.Uniform(w.synthesis, k);
    Frames.MulSign(k - 1, w.hopSize);
    TensorFlowLeavesTailZero(X, wins, b, Frames.NumSamples(k, w.hopSize, s) - 1, k);
    LastSampleFromLastFrame(X, wins, w.hopSize, b, k, k);
  }
}
