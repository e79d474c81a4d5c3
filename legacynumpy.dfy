/**
 * The legacy numpy segmenter of libsegmenter/SegmenterNumpy.py, which frames
 * with the analysis window of a `windowObjectNumpy` and overlap-adds with its
 * synthesis window.
 *
 * Signals are (batch, samples) arrays and frames (batch, frames, size)
 * arrays; a 1-D signal is one row and `rank` is the number of axes of the
 * caller's array. A window object of the analysisonly scheme has no synthesis
 * window, and one of an unknown asymmetric scheme has neither.
 *
 * The spectral helpers of this file are those of the legacy torch segmenter
 * with numpy calls, except that they ask an ndarray for `.dim()`, which it
 * does not have; the corrected helpers are those of module Bpd.
 */
module LegacyNumpy {
  import opened Wrappers
  import opened Samples
  import Frames
  import Envelopes
  import Framing
  import WindowObjects
  import RectangularWindows
  import Backends
  import Bpd

  /** The window object and the segment size it was built for. */
  datatype Segmenter = Segmenter(segmentSize: nat, window: WindowObjects.WindowObject)

  /** A positive hop, and S samples in each window present. */
  predicate Valid(s: Segmenter)
  {
    && s.window.hop >= 1
    && (s.window.analysis.Some? ==> |s.window.analysis.value| == s.segmentSize)
    && (s.window.synthesis.Some? ==> |s.window.synthesis.value| == s.segmentSize)
  }

  /** Every window object `windowObjectNumpy` builds makes a valid segmenter. */
  lemma WindowObjectsAreValid(size: nat, windowScheme: string, reconstruction: string, hop: nat, synthesisSize: nat,
                              hann: nat -> seq<real>, sqrt: real -> real)
    requires WindowObjects.HannLengths(hann)
    requires WindowObjects.WindowObjectNumpy(size, windowScheme, reconstruction, hop, synthesisSize, hann, sqrt).Ok?
    ensures Valid(Segmenter(size, WindowObjects.WindowObjectNumpy(size, windowScheme, reconstruction, hop, synthesisSize, hann, sqrt).value))
  {
    if hop == 0 {
      var w := WindowObjects.SymmetricWindow(size, windowScheme, hann);
      assert |w.value.0| == size by {
        if windowScheme == "hann50" || windowScheme == "hann75" {
          assert |hann(size)| == size;
        }
      }
    }
  }

  datatype NumpyError =
    | RankError          // ValueError: unsupported number of axes
    | NegativeDimension  // ValueError: np.zeros with a negative size
    | MissingWindow      // a window that is None (TypeError) or never set (AttributeError)
    | BroadcastError     // ValueError: a slice and a window of different lengths multiplied
    | MissingAttribute   // AttributeError: `.dim()` asked of an ndarray

  /** The window of a window object, or zeros where there is none (and no frame multiplies it). */
  function WindowOr(w: Option<seq<real>>, size: nat): (r: seq<real>)
    ensures w.Some? ==> r == w.value
  {
    if w.Some? then w.value else Zeros(size)
  }

  /** The frame count n//H − S//H + 1 of `_segment`. */
  function FrameCount(s: Segmenter, n: nat): int
    requires Valid(s)
  {
    Frames.NumSegments(n, s.window.hop, s.segmentSize)
  }

  /**
   * The first exception `_segment` raises: the number of axes, np.zeros with
   * a negative frame count, a missing analysis window, and the product of a
   * last slice cut short by the end of the signal with the window.
   */
  function SegmentError(s: Segmenter, rank: nat, n: nat): (e: Option<NumpyError>)
    requires Valid(s)
  {
    var k := FrameCount(s, n);
    if rank != 1 && rank != 2 then Some(RankError)
    else if k < 0 then Some(NegativeDimension)
    else if k >= 1 && s.window.analysis.None? then Some(MissingWindow)
    else if k >= 1 && Frames.NumSamples(k, s.window.hop, s.segmentSize) > n then Some(BroadcastError)
    else None
  }

  /**
   * With an analysis window, `_segment` succeeds exactly on 1-D and 2-D
   * signals with a non-negative frame count whose last frame, if any, ends
   * inside them (S mod H ≤ n mod H).
   */
  lemma SegmentSucceedsIff(s: Segmenter, rank: nat, n: nat)
    requires Valid(s) && s.window.analysis.Some?
    ensures SegmentError(s, rank, n).None? <==>
              && (rank == 1 || rank == 2) && FrameCount(s, n) >= 0
              && (FrameCount(s, n) >= 1 ==> s.segmentSize % s.window.hop <= n % s.window.hop)
  {
    Backends.LastFrameFits(Backends.Window(s.window.hop, s.window.analysis.value, []), n);
  }

  /** The weight of every frame of `_segment`: the analysis window. */
  function AnalysisWindows(s: Segmenter, k: nat): (wins: seq<seq<real>>)
    ensures |wins| == k
  {
    Framing.Uniform(WindowOr(s.window.analysis, s.segmentSize), k)
  }

  /** `X[:, k, :] = x[:, kH : kH + S] * analysis_window` for every frame, into zeroed frames. */
  method Segment(s: Segmenter, rank: nat, x: array2<real>) returns (err: Option<NumpyError>, X: array3<real>, outRank: nat)
    requires Valid(s) && (rank == 1 ==> x.Length0 == 1)
    ensures err == SegmentError(s, rank, x.Length1)
    ensures err.None? ==>
              && fresh(X) && outRank == rank + 1
              && X.Length0 == x.Length0 && X.Length1 == FrameCount(s, x.Length1) && X.Length2 == s.segmentSize
              && Framing.FramedFrom(x, X, AnalysisWindows(s, X.Length1), s.window.hop)
  {
    err := SegmentError(s, rank, x.Length1);
    if err.Some? {
      X, outRank := new real[0, 0, 0], rank;
      return;
    }
    var k := FrameCount(s, x.Length1);
    var wins := AnalysisWindows(s, k);
    Framing.FitsWhenLastFits(wins, s.window.hop, s.segmentSize, x.Length1);
    X := Framing.Frame(x, s.window.hop, wins, s.segmentSize);
    outRank := rank + 1;
  }

  /**
   * The first exception `_unsegment` raises once its message is corrected:
   * the number of axes, np.zeros with a negative length, a missing synthesis
   * window, and frames of another width than the window.
   */
  function UnsegmentError(s: Segmenter, rank: nat, frames: nat, width: nat): (e: Option<NumpyError>)
    requires Valid(s)
  {
    if rank != 2 && rank != 3 then Some(RankError)
    else if Frames.NumSamples(frames, s.window.hop, s.segmentSize) < 0 then Some(NegativeDimension)
    else if frames >= 1 && s.window.synthesis.None? then Some(MissingWindow)
    else if frames >= 1 && width != s.segmentSize then Some(BroadcastError)
    else None
  }

  /**
   * `_unsegment` as written: the message of its rank check asks the ndarray
   * for `.dim()`, so an unsupported rank raises AttributeError instead.
   */
  function UnsegmentErrorAsWritten(s: Segmenter, rank: nat, frames: nat, width: nat): (e: Option<NumpyError>)
    requires Valid(s)
  {
    if rank != 2 && rank != 3 then Some(MissingAttribute) else UnsegmentError(s, rank, frames, width)
  }

  /** The two differ exactly on the unsupported ranks, where the intended ValueError becomes an AttributeError. */
  lemma RankMessageRaises(s: Segmenter, rank: nat, frames: nat, width: nat)
    requires Valid(s)
    ensures UnsegmentErrorAsWritten(s, rank, frames, width) != UnsegmentError(s, rank, frames, width)
            <==> rank != 2 && rank != 3
    ensures rank != 2 && rank != 3 ==>
              UnsegmentError(s, rank, frames, width) == Some(RankError)
              && UnsegmentErrorAsWritten(s, rank, frames, width) == Some(MissingAttribute)
  {
  }

  /** The weight of every frame of `_unsegment`: the synthesis window. */
  function SynthesisWindows(s: Segmenter, k: nat): (wins: seq<seq<real>>)
    ensures |wins| == k
  {
    Framing.Uniform(WindowOr(s.window.synthesis, s.segmentSize), k)
  }

  /**
   * `_unsegment`: a zeroed signal of (K − 1)·H + S samples, then
   * `x[:, kH : kH + S] += synthesis_window * X[:, k, :]` for every frame.
   */
  method Unsegment(s: Segmenter, X: array3<real>, rank: nat) returns (err: Option<NumpyError>, y: array2<real>, outRank: nat)
    requires Valid(s) && (rank == 2 ==> X.Length0 == 1)
    ensures err == UnsegmentError(s, rank, X.Length1, X.Length2)
    ensures err.None? ==>
              && fresh(y) && outRank == rank - 1
              && y.Length0 == X.Length0 && y.Length1 == Frames.NumSamples(X.Length1, s.window.hop, s.segmentSize)
              && forall b, p :: 0 <= b < y.Length0 && 0 <= p < y.Length1 ==>
                   y[b, p] == Framing.Overlap(X, SynthesisWindows(s, X.Length1), s.window.hop, b, p, X.Length1)
  {
    err := UnsegmentError(s, rank, X.Length1, X.Length2);
    if err.Some? {
      y, outRank := new real[0, 0], rank;
      return;
    }
    outRank := rank - 1;
    if X.Length1 == 0 {
      y := new real[X.Length0, s.segmentSize - s.window.hop]((b, p) => 0.0);
      return;
    }
    y := Framing.OverlapAdd(X, s.window.hop, SynthesisWindows(s, X.Length1));
  }

  /**
   * Every sample of y is x's sample at the same place times the envelope
   * Σ_{j < k} env(p − jH) of k frames.
   */
  ghost predicate Enveloped(x: array2<real>, y: array2<real>, env: seq<real>, hop: nat, k: nat)
    reads x, y
  {
    && y.Length0 == x.Length0 && y.Length1 <= x.Length1
    && forall b, p :: 0 <= b < y.Length0 && 0 <= p < y.Length1 ==>
         y[b, p] == Envelopes.MidSum(env, hop, p, 0, k) * x[b, p]
  }

  /**
   * `_unsegment(_segment(x))`: without frames a zero signal of S − H
   * samples; with frames (K − 1)·H + S samples, all of the input exactly
   * when n mod H == S mod H, each the input sample times the
   * analysis·synthesis envelope Σ_k a(p − kH)·s(p − kH).
   */
  method RoundTrip(s: Segmenter, rank: nat, x: array2<real>) returns (err: Option<NumpyError>, y: array2<real>, outRank: nat)
    requires Valid(s) && (rank == 1 ==> x.Length0 == 1)
    ensures SegmentError(s, rank, x.Length1).Some? ==> err == SegmentError(s, rank, x.Length1)
    ensures SegmentError(s, rank, x.Length1).None? ==>
              err == UnsegmentError(s, rank + 1, FrameCount(s, x.Length1), s.segmentSize)
    ensures err.None? ==> outRank == rank && y.Length0 == x.Length0
    ensures err.None? && FrameCount(s, x.Length1) == 0 ==>
              && y.Length1 == s.segmentSize - s.window.hop
              && forall b, p :: 0 <= b < y.Length0 && 0 <= p < y.Length1 ==> y[b, p] == 0.0
    ensures err.None? && FrameCount(s, x.Length1) >= 1 ==>
              && s.window.analysis.Some? && s.window.synthesis.Some?
              && (y.Length1 == x.Length1 <==> x.Length1 % s.window.hop == s.segmentSize % s.window.hop)
              && Enveloped(x, y, Mul(s.window.analysis.value, s.window.synthesis.value),
                           s.window.hop, FrameCount(s, x.Length1))
  {
    var X, r;
    err, X, r := Segment(s, rank, x);
    if err.Some? {
      y, outRank := new real[0, 0], rank;
      return;
    }
    err, y, outRank := Unsegment(s, X, r);
    if err.None? && X.Length1 >= 1 {
      EnvelopeRebuilt(s, x, X, y);
    }
  }

  /** The success case of RoundTrip with frames: lengths and the envelope. */
  lemma EnvelopeRebuilt(s: Segmenter, x: array2<real>, X: array3<real>, y: array2<real>)
    requires Valid(s) && X.Length1 >= 1 && X.Length1 == FrameCount(s, x.Length1) && X.Length2 == s.segmentSize
    requires Frames.NumSamples(X.Length1, s.window.hop, s.segmentSize) <= x.Length1
    requires s.window.analysis.Some? && s.window.synthesis.Some?
    requires Framing.FramedFrom(x, X, AnalysisWindows(s, X.Length1), s.window.hop)
    requires y.Length0 == x.Length0 && y.Length1 == Frames.NumSamples(X.Length1, s.window.hop, s.segmentSize)
    requires forall b, p :: 0 <= b < y.Length0 && 0 <= p < y.Length1 ==>
               y[b, p] == Framing.Overlap(X, SynthesisWindows(s, X.Length1), s.window.hop, b, p, X.Length1)
    ensures y.Length1 == x.Length1 <==> x.Length1 % s.window.hop == s.segmentSize % s.window.hop
    ensures Enveloped(x, y, Mul(s.window.analysis.value, s.window.synthesis.value), s.window.hop, X.Length1)
  {
    Frames.NumSamplesOfNumSegments(x.Length1, s.window.hop, s.segmentSize);
    var w := Backends.Window(s.window.hop, s.window.analysis.value, s.window.synthesis.value);
    assert AnalysisWindows(s, X.Length1) == Framing.Uniform(w.analysis, X.Length1);
    assert SynthesisWindows(s, X.Length1) == Framing.Uniform(w.synthesis, X.Length1);
    Backends.RebuiltSamples(w, x, X, y, X.Length1);
  }

  /**
   * With the ola or wola window object of a rectangular scheme, every sample
   * from S − H on that at least one more frame covers comes back unchanged.
   */
  lemma RectangularRebuilt(size: nat, windowScheme: string, reconstruction: string,
                           hann: nat -> seq<real>, sqrt: real -> real,
                           x: array2<real>, X: array3<real>, b: nat, p: nat)
    requires WindowObjects.HannLengths(hann) && WindowObjects.HannNonNegative(hann) && IsSqrt(sqrt)
    requires reconstruction == "ola" || reconstruction == "wola"
    requires windowScheme == "rectangular0" || (windowScheme == "rectangular50" && size % 2 == 0)
    requires size >= 2
    ensures WindowObjects.Symmetric(size, windowScheme, reconstruction, hann, sqrt).Ok?
    ensures var s := Segmenter(size, WindowObjects.Symmetric(size, windowScheme, reconstruction, hann, sqrt).value);
            && Valid(s)
            && (X.Length2 == size && X.Length1 >= 1
                && Framing.FramedFrom(x, X, AnalysisWindows(s, X.Length1), s.window.hop)
                && b < x.Length0 && p < x.Length1 && size - s.window.hop <= p < X.Length1 * s.window.hop
                ==> Framing.Overlap(X, SynthesisWindows(s, X.Length1), s.window.hop, b, p, X.Length1) == x[b, p])
  {
    WindowObjects.RectangularObjectsAreCola(size, windowScheme, reconstruction, hann, sqrt);
    WindowObjectsAreValid(size, windowScheme, reconstruction, 0, 0, hann, sqrt);
    var o := WindowObjects.Symmetric(size, windowScheme, reconstruction, hann, sqrt).value;
    var s := Segmenter(size, o);
    if X.Length2 == size && X.Length1 >= 1
       && Framing.FramedFrom(x, X, AnalysisWindows(s, X.Length1), o.hop)
       && b < x.Length0 && p < x.Length1 && size - o.hop <= p < X.Length1 * o.hop
    {
      var w := Backends.Window(o.hop, o.analysis.value, o.synthesis.value);
      assert AnalysisWindows(s, X.Length1) == Framing.Uniform(w.analysis, X.Length1);
      assert SynthesisWindows(s, X.Length1) == Framing.Uniform(w.synthesis, X.Length1);
      Backends.ColaReconstruction(w, 1.0, x, X, b, p);
    }
  }

  // ---------------------------------------------------------------------
  // The spectral helpers.

  /**
   * `bpd_transform`, `inverse_bpd_transform` and
   * `assemble_spectrogram_magnitude_phase` as written: the two BPD helpers ask
   * their ndarray argument for `.dim()` before anything else; the assembly
   * first forms the product magnitude·e^{i·phase} (whose broadcast error on
   * mismatched shapes is not modelled) and asks that product for `.dim()`.
   * The shape is kept as parameters to state that no shape avoids the error.
   */
  function SpectralHelperError(rank: nat, rows: nat, segments: nat, bins: nat): NumpyError
  {
    MissingAttribute
  }

  /**
   * Where the torch helpers succeed, the numpy ones still raise: even a
   * well-shaped phase spectrogram, which `Bpd.Transform` accepts, is rejected.
   */
  lemma SpectralHelpersAlwaysRaise(s: Segmenter, rank: nat, rows: nat, segments: nat)
    requires rank == 2 || rank == 3
    requires segments >= 1
    ensures Bpd.TransformError(s.segmentSize, rank, rows, segments, Bpd.Bins(s.segmentSize)).None?
    ensures Bpd.InverseError(s.segmentSize, rank, Bpd.Bins(s.segmentSize)).None?
    ensures Bpd.AssembleError(rank, Bpd.Bins(s.segmentSize)).None?
    ensures SpectralHelperError(rank, rows, segments, Bpd.Bins(s.segmentSize)) == MissingAttribute
  {
  }
}
