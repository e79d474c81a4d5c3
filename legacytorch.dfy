/**
 * The torch segmenter of libsegmenter/SegmenterTorch.py.
 *
 * The constructor validates the window, derives the first-frame ("pre") and
 * last-frame ("post") windows by edge correction, divides all three by the
 * COLA normalization Σw/H and takes square roots in wola mode. `_segment`
 * cuts a 1-D or batched 2-D signal into frames, weighting them with the
 * pre / interior / post windows in wola mode and leaving them plain in ola
 * mode; `_unsegment` overlap-adds the frames weighted with pre / interior /
 * post windows in both modes.
 *
 * Signals are (batch, samples) arrays and frames (batch, frames, size)
 * arrays; an unbatched tensor is one row, and `shape` is the shape of the
 * tensor the caller passed. The square root is the parameter `sqrt` and the
 * transform magnitudes of the COLA test are the parameter `mag`.
 */
module LegacyTorch {
  import opened Samples
  import opened Wrappers
  import Frames
  import Cola
  import Envelopes
  import Framing
  import Engine
  import LegacyEngine

  /** The exceptions of the constructor, of `_segment` and of `_unsegment`. */
  datatype TorchError =
    | OddFrameSize       // ValueError: odd frame_size
    | HopTooLarge        // ValueError: hop_size > frame_size
    | WindowSizeMismatch // ValueError: window length != frame_size
    | NegativeSample     // ValueError: a negative window sample
    | NotCola            // ValueError: check_cola fails (or cannot divide by hop 0)
    | UnknownMode        // ValueError: mode not wola or ola
    | RankError          // ValueError: an input of unsupported shape
    | NegativeDimension  // RuntimeError: torch.zeros with a negative frame count
    | IndexError         // IndexError: a frame index beyond the frames present
    | BroadcastError     // RuntimeError: a slice or a frame of another length than the window

  /** The default tolerance of the bound `check_cola` binding. */
  const ColaTolerance: real := 0.00001

  function ModeOf(mode: string): (m: Option<Engine.Mode>)
    ensures m == Some(Engine.WOLA) <==> mode == "wola"
    ensures m == Some(Engine.OLA) <==> mode == "ola"
  {
    if mode == "wola" then Some(Engine.WOLA) else if mode == "ola" then Some(Engine.OLA) else None
  }

  /**
   * The exception the constructor raises, in the order of its checks; the
   * mode is checked last, after the windows were adapted.
   */
  function Rejection(frameSize: nat, hop: nat, window: seq<real>, mode: string, mag: seq<real>): (e: Option<TorchError>)
    requires Cola.Magnitudes(mag, hop)
  {
    if frameSize % 2 != 0 then Some(OddFrameSize)
    else if hop > frameSize then Some(HopTooLarge)
    else if |window| != frameSize then Some(WindowSizeMismatch)
    else if !NonNegative(window) then Some(NegativeSample)
    // with hop 0 the bounds Σw/0 are not finite and the strict test fails
    else if hop == 0 then Some(NotCola)
    else if !(2.0 * Cola.Leakage(mag, hop, hop) < ColaTolerance) then Some(NotCola)
    else if ModeOf(mode).None? then Some(UnknownMode)
    else None
  }

  /**
   * The constructor accepts exactly the even frame sizes, hops 1 .. S, windows
   * of S non-negative samples passing the COLA bound at 1e-5, and the two modes.
   */
  lemma AcceptedArguments(frameSize: nat, hop: nat, window: seq<real>, mode: string, mag: seq<real>)
    requires Cola.Magnitudes(mag, hop)
    ensures Rejection(frameSize, hop, window, mode, mag).None? <==>
              && frameSize % 2 == 0 && 1 <= hop <= frameSize && |window| == frameSize && NonNegative(window)
              && 2.0 * Cola.Leakage(mag, hop, hop) < ColaTolerance && (mode == "wola" || mode == "ola")
  {
  }

  /**
   * Every window the torch constructor accepts, the base C++ constructor
   * accepts too (its COLA tolerance 1e-3 is looser), and both raise the same
   * first error on the checks they share.
   */
  lemma StricterThanBaseEngine(frameSize: nat, hop: nat, window: seq<real>, mode: string, mag: seq<real>)
    requires Cola.Magnitudes(mag, hop)
    ensures Rejection(frameSize, hop, window, mode, mag).None? ==> Engine.Rejection(frameSize, hop, window, mag).None?
    ensures Engine.Rejection(frameSize, hop, window, mag).Some? ==>
              Rejection(frameSize, hop, window, mode, mag).Some?
    ensures Engine.Rejection(frameSize, hop, window, mag) == Some(Engine.OddFrameSize) <==>
              Rejection(frameSize, hop, window, mode, mag) == Some(OddFrameSize)
    ensures Engine.Rejection(frameSize, hop, window, mag) == Some(Engine.NegativeSample) <==>
              Rejection(frameSize, hop, window, mode, mag) == Some(NegativeSample)
  {
  }

  /** The attributes the constructor sets. */
  datatype Segmenter = Segmenter(frameSize: nat, hopSize: nat, mode: Engine.Mode,
                                 pre: seq<real>, window: seq<real>, post: seq<real>)

  /** What every constructed segmenter satisfies. */
  predicate Valid(s: Segmenter)
  {
    1 <= s.hopSize <= s.frameSize && s.frameSize % 2 == 0
    && |s.pre| == s.frameSize && |s.window| == s.frameSize && |s.post| == s.frameSize
  }

  /** The segmenter holds the windows the constructor derives from w. */
  ghost predicate AdaptedFrom(s: Segmenter, w: seq<real>, edgeCorrection: bool, normalizeWindow: bool,
                              sqrt: real -> real)
  {
    && 1 <= s.hopSize && (normalizeWindow ==> Sum(w) != 0.0)
    && var ws := Engine.Adapted(w, s.hopSize, s.mode, edgeCorrection, normalizeWindow, sqrt);
       s.pre == ws.pre && s.window == ws.mid && s.post == ws.post
  }

  datatype Construction = Built(segmenter: Segmenter) | Raised(error: TorchError)

  /**
   * `SegmenterTorch.__init__`: the checks in order, then the pre/post windows
   * cloned and edge-corrected over h_idx = 1 .. S/H, all three divided by the
   * check_cola normalization, and square-rooted in wola mode.
   */
  method Create(frameSize: nat, hopSize: nat, window: seq<real>, mode: string, edgeCorrection: bool,
                normalizeWindow: bool, mag: seq<real>, sqrt: real -> real) returns (r: Construction)
    requires Cola.Magnitudes(mag, hopSize)
    requires normalizeWindow && Rejection(frameSize, hopSize, window, mode, mag).None? ==> Sum(window) != 0.0
    ensures r.Raised? <==> Rejection(frameSize, hopSize, window, mode, mag).Some?
    ensures r.Raised? ==> r.error == Rejection(frameSize, hopSize, window, mode, mag).value
    ensures r.Built? ==>
              && Valid(r.segmenter) && AdaptedFrom(r.segmenter, window, edgeCorrection, normalizeWindow, sqrt)
              && r.segmenter.frameSize == frameSize && r.segmenter.hopSize == hopSize
              && Some(r.segmenter.mode) == ModeOf(mode)
  {
    if frameSize % 2 != 0 {
      return Raised(OddFrameSize);
    }
    if hopSize > frameSize {
      return Raised(HopTooLarge);
    }
    if |window| != frameSize {
      return Raised(WindowSizeMismatch);
    }
    for i := 0 to |window|
      invariant forall j :: 0 <= j < i ==> window[j] >= 0.0
    {
      if window[i] < 0.0 {
        return Raised(NegativeSample);
      }
    }
    if hopSize == 0 {
      return Raised(NotCola);
    }
    var cola := Cola.CheckCola(window, hopSize, mag, ColaTolerance);
    if !cola.isCola {
      return Raised(NotCola);
    }
    // the source adapts the windows before it rejects an unknown mode; the
    // adaptation raises nothing, so looking at the mode first is equivalent
    var m := ModeOf(mode);
    if m.None? {
      return Raised(UnknownMode);
    }
    var pre, mid, post := AdaptWindows(window, hopSize, edgeCorrection, normalizeWindow, cola.normalizationValue);
    if m.value == Engine.WOLA {
      Engine.RootInPlace(pre, sqrt);
      Engine.RootInPlace(mid, sqrt);
      Engine.RootInPlace(post, sqrt);
    }
    r := Built(Segmenter(frameSize, hopSize, m.value, pre[..], mid[..], post[..]));
  }

  /** The clones, their edge correction and the normalization, before the mode is looked at. */
  method AdaptWindows(w: seq<real>, hop: nat, edgeCorrection: bool, normalizeWindow: bool, normalization: real)
    returns (pre: array<real>, mid: array<real>, post: array<real>)
    requires 1 <= hop <= |w| && normalization == Sum(w) / (hop as real) && (normalizeWindow ==> Sum(w) != 0.0)
    ensures fresh(pre) && fresh(mid) && fresh(post) && pre != mid && mid != post && pre != post
    ensures Engine.Windows(pre[..], mid[..], post[..])
            == Engine.Normalized(Engine.EdgeCorrected(w, hop, edgeCorrection), normalization, normalizeWindow)
  {
    mid := new real[|w|](i requires 0 <= i < |w| => w[i]);
    pre := new real[|w|](i requires 0 <= i < |w| => w[i]);
    post := new real[|w|](i requires 0 <= i < |w| => w[i]);
    assert mid[..] == w && pre[..] == w && post[..] == w;
    if edgeCorrection {
      LegacyEngine.ShiftedEdgeCorrection(pre, post, mid, hop);
    }
    assert Engine.Windows(pre[..], mid[..], post[..]) == Engine.EdgeCorrected(w, hop, edgeCorrection);
    if normalizeWindow {
      Engine.ScaleInPlace(mid, normalization);
      Engine.ScaleInPlace(pre, normalization);
      Engine.ScaleInPlace(post, normalization);
    }
  }

  // ---------------------------------------------------------------------
  // _segment.

  datatype Layout = Batched | Unbatched

  /** How `_segment` reads a shape: 2-D with more than one column is a batch, 1-D a single signal. */
  function SegmentLayout(shape: seq<nat>): Option<Layout>
  {
    if |shape| == 2 && shape[1] > 1 then Some(Batched) else if |shape| == 1 then Some(Unbatched) else None
  }

  /** The (rows, samples) array holds the tensor of this shape: a batch as is, a 1-D signal as one row. */
  predicate Presents(shape: seq<nat>, rows: nat, samples: nat)
  {
    && (SegmentLayout(shape) == Some(Batched) ==> rows == shape[0] && samples == shape[1])
    && (SegmentLayout(shape) == Some(Unbatched) ==> rows == 1 && samples == shape[0])
  }

  /** The frame count n//H − S//H + 1 of `_segment`. */
  function FrameCount(s: Segmenter, n: nat): int
    requires Valid(s)
  {
    Frames.NumSegments(n, s.hopSize, s.frameSize)
  }

  /**
   * The first exception `_segment` raises: the shape, torch.zeros with a
   * negative frame count, and the product of a slice cut short by the end of
   * the signal with its window. With no frames wola still forms frame 0,
   * whose product of the fewer than S samples with the pre-window fails
   * before the write to the missing frame is reached.
   */
  function SegmentError(s: Segmenter, shape: seq<nat>, n: nat): (e: Option<TorchError>)
    requires Valid(s)
  {
    var k := FrameCount(s, n);
    if SegmentLayout(shape).None? then Some(RankError)
    else if k < 0 then Some(NegativeDimension)
    else if s.mode == Engine.WOLA && k == 0 then Some(BroadcastError)
    else if k >= 1 && Frames.NumSamples(k, s.hopSize, s.frameSize) > n then Some(BroadcastError)
    else None
  }

  /**
   * Wola with no frames: frame 0 is read from the whole signal, which is
   * shorter than a frame, so the product with the pre-window fails to
   * broadcast. S = 4, H = 2 on two rows of three samples is such a case.
   */
  lemma WolaWithoutFramesBroadcasts(s: Segmenter, shape: seq<nat>, n: nat)
    requires Valid(s) && s.mode == Engine.WOLA && SegmentLayout(shape).Some? && FrameCount(s, n) == 0
    ensures n < s.frameSize
    ensures SegmentError(s, shape, n) == Some(BroadcastError)
    ensures var t := Segmenter(4, 2, Engine.WOLA, [0.0, 1.0, 1.0, 0.0], [0.0, 1.0, 1.0, 0.0], [0.0, 1.0, 1.0, 0.0]);
            Valid(t) && FrameCount(t, 3) == 0 && SegmentError(t, [2, 3], 3) == Some(BroadcastError)
  {
    assert n / s.hopSize < s.frameSize / s.hopSize;
    assert n < (n / s.hopSize + 1) * s.hopSize;
    assert (n / s.hopSize + 1) * s.hopSize <= (s.frameSize / s.hopSize) * s.hopSize <= s.frameSize;
  }

  /**
   * When the hop divides the frame size, `_segment` succeeds exactly on the
   * supported shapes with at least S − H samples, and at least S in wola mode.
   */
  lemma SegmentSucceedsIff(s: Segmenter, shape: seq<nat>, n: nat)
    requires Valid(s) && s.frameSize % s.hopSize == 0
    ensures SegmentError(s, shape, n).None? <==>
              && SegmentLayout(shape).Some? && n + s.hopSize >= s.frameSize
              && (s.mode == Engine.WOLA ==> n >= s.frameSize)
  {
    var h, f := s.hopSize, s.frameSize;
    var k := FrameCount(s, n);
    Frames.AtLeastOneSegment(n, h, f);
    Frames.AtLeastOneSegment(n + h, h, f);
    Frames.DivShift(n, 1, h);
    assert Frames.NumSegments(n + h, h, f) == k + 1;
    if k >= 1 {
      Frames.NumSamplesOfNumSegments(n, h, f);
      assert f == (f / h) * h;
      assert Frames.NumSamples(k, h, f) == (n / h) * h;
    }
  }

  /** The weight `_segment` puts on each frame: pre / interior / post in wola mode, plain slices in ola mode. */
  function SegmentWindows(s: Segmenter, k: nat): seq<seq<real>>
  {
    if s.mode == Engine.WOLA then Framing.Edged(s.pre, s.window, s.post, k) else Framing.Uniform(Ones(s.frameSize), k)
  }

  /**
   * `_segment`: zero frames, then frame k = slice kH .. kH + S times its
   * window. With one frame the post-window write replaces the pre-window one.
   * The result keeps a batch axis iff the input had one.
   */
  method Segment(s: Segmenter, shape: seq<nat>, x: array2<real>) returns (err: Option<TorchError>, X: array3<real>, outRank: nat)
    requires Valid(s) && Presents(shape, x.Length0, x.Length1)
    ensures err == SegmentError(s, shape, x.Length1)
    ensures err.None? ==>
              && fresh(X) && outRank == |shape| + 1
              && X.Length0 == x.Length0 && X.Length1 == FrameCount(s, x.Length1) && X.Length2 == s.frameSize
              && Framing.FramedFrom(x, X, SegmentWindows(s, X.Length1), s.hopSize)
  {
    err := SegmentError(s, shape, x.Length1);
    if err.Some? {
      X, outRank := new real[0, 0, 0], 0;
      return;
    }
    var k := FrameCount(s, x.Length1);
    var wins := SegmentWindows(s, k);
    Framing.FitsWhenLastFits(wins, s.hopSize, s.frameSize, x.Length1);
    X := Framing.Frame(x, s.hopSize, wins, s.frameSize);
    outRank := |shape| + 1;
  }

  /** In ola mode every frame holds its slice of the signal unchanged. */
  lemma OlaFramesArePlain(s: Segmenter, x: array2<real>, X: array3<real>, b: nat, j: nat, q: nat)
    requires Valid(s) && s.mode == Engine.OLA
    requires Framing.FramedFrom(x, X, SegmentWindows(s, X.Length1), s.hopSize)
    requires b < X.Length0 && j < X.Length1 && q < X.Length2
    ensures j * s.hopSize + q < x.Length1
    ensures X[b, j, q] == x[b, j * s.hopSize + q]
  {
    assert Framing.FrameSample(x, X, SegmentWindows(s, X.Length1), s.hopSize, b, j, q);
    Framing.StartIsProduct(j, s.hopSize);
  }

  // ---------------------------------------------------------------------
  // _unsegment.

  /**
   * The first exception `_unsegment` raises: the rank, frame 0 of none,
   * frames of another width than the window, and the trailing `k = k + 1`
   * that reads frame 1 of a single frame.
   */
  function UnsegmentError(s: Segmenter, rank: nat, frames: nat, width: nat): (e: Option<TorchError>)
    requires Valid(s)
  {
    if rank != 2 && rank != 3 then Some(RankError)
    else if frames == 0 then Some(IndexError)
    else if width != s.frameSize then Some(BroadcastError)
    else if frames == 1 then Some(IndexError)
    else None
  }

  /** `_unsegment` needs a supported rank, at least two frames and frames as wide as the window. */
  lemma UnsegmentSucceedsIff(s: Segmenter, rank: nat, frames: nat, width: nat)
    requires Valid(s)
    ensures UnsegmentError(s, rank, frames, width).None? <==>
              (rank == 2 || rank == 3) && frames >= 2 && width == s.frameSize
    ensures (rank == 2 || rank == 3) && frames <= 1 ==> UnsegmentError(s, rank, frames, width).Some?
  {
  }

  /** The weight `_unsegment` puts on each frame, in both modes. */
  function UnsegmentWindows(s: Segmenter, k: nat): seq<seq<real>>
  {
    Framing.Edged(s.pre, s.window, s.post, k)
  }

  /**
   * `_unsegment`: a zeroed signal of (K − 1)·H + S samples, then frame 0
   * added with the pre window, frames 1 .. K − 2 with the window and frame
   * K − 1 with the post window.
   */
  method Unsegment(s: Segmenter, X: array3<real>, rank: nat) returns (err: Option<TorchError>, y: array2<real>, outRank: nat)
    requires Valid(s) && (rank == 2 ==> X.Length0 == 1)
    ensures err == UnsegmentError(s, rank, X.Length1, X.Length2)
    ensures err.None? ==>
              && fresh(y) && outRank == rank - 1
              && y.Length0 == X.Length0 && y.Length1 == Frames.NumSamples(X.Length1, s.hopSize, s.frameSize)
              && forall b, p :: 0 <= b < y.Length0 && 0 <= p < y.Length1 ==>
                   y[b, p] == Framing.Overlap(X, UnsegmentWindows(s, X.Length1), s.hopSize, b, p, X.Length1)
  {
    err := UnsegmentError(s, rank, X.Length1, X.Length2);
    if err.Some? {
      y, outRank := new real[0, 0], 0;
      return;
    }
    Frames.MulSign(X.Length1 - 1, s.hopSize);
    y := Framing.OverlapAdd(X, s.hopSize, UnsegmentWindows(s, X.Length1));
    outRank := rank - 1;
  }

  // ---------------------------------------------------------------------
  // Perfect reconstruction.

  /**
   * With edge correction and normalization of an exactly COLA, non-negative
   * window, the segment and unsegment weights of K ≥ 2 frames multiply and
   * add up to one at every sample of the rebuilt signal, in both modes.
   */
  lemma CoverageIsOne(s: Segmenter, w: seq<real>, sqrt: real -> real, c: real, k: nat, p: int)
    requires Valid(s) && AdaptedFrom(s, w, true, true, sqrt)
    requires NonNegative(w) && IsSqrt(sqrt) && Envelopes.ExactCola(w, s.hopSize, c) && c != 0.0
    requires k >= 2 && 0 <= p < (k - 1) * s.hopSize + s.frameSize
    ensures Framing.Coverage(SegmentWindows(s, k), UnsegmentWindows(s, k), s.hopSize, p, k) == 1.0
  {
    var h := s.hopSize;
    var u := Engine.Unrooted(w, h, true, true);
    Engine.PassesMultiplyToUnrooted(w, h, s.mode, true, true, sqrt);
    if s.mode == Engine.WOLA {
      Framing.CoverageEdged(s.pre, s.window, s.post, s.pre, s.window, s.post, k, h, p);
    } else {
      var one := Ones(s.frameSize);
      Framing.UniformIsEdged(one, k);
      Framing.CoverageEdged(one, one, one, s.pre, s.window, s.post, k, h, p);
      MulOnes(s.pre);
      MulOnes(s.window);
      MulOnes(s.post);
    }
    Envelopes.NormalizedEnvelopeIsOne(w, h, c, k, p);
  }

  /**
   * With edge correction but no normalization, the weights of K ≥ 2 frames
   * add up to the COLA constant c instead.
   */
  lemma CoverageIsCola(s: Segmenter, w: seq<real>, sqrt: real -> real, c: real, k: nat, p: int)
    requires Valid(s) && AdaptedFrom(s, w, true, false, sqrt)
    requires NonNegative(w) && IsSqrt(sqrt) && Envelopes.ExactCola(w, s.hopSize, c)
    requires k >= 2 && 0 <= p < (k - 1) * s.hopSize + s.frameSize
    ensures Framing.Coverage(SegmentWindows(s, k), UnsegmentWindows(s, k), s.hopSize, p, k) == c
  {
    var h := s.hopSize;
    Engine.PassesMultiplyToUnrooted(w, h, s.mode, true, false, sqrt);
    if s.mode == Engine.WOLA {
      Framing.CoverageEdged(s.pre, s.window, s.post, s.pre, s.window, s.post, k, h, p);
    } else {
      var one := Ones(s.frameSize);
      Framing.UniformIsEdged(one, k);
      Framing.CoverageEdged(one, one, one, s.pre, s.window, s.post, k, h, p);
      MulOnes(s.pre);
      MulOnes(s.window);
      MulOnes(s.post);
    }
    Envelopes.EdgeCorrectedEnvelope(w, h, k, p);
    assert 0 <= p % h < h;
  }

  /** What the round trip multiplies the signal by: one after normalization, else the COLA constant. */
  function Gain(normalizeWindow: bool, c: real): real
  {
    if normalizeWindow then 1.0 else c
  }

  /** The weights of K ≥ 2 frames add up to the gain, with or without normalization. */
  lemma CoverageIsGain(s: Segmenter, w: seq<real>, normalizeWindow: bool, sqrt: real -> real, c: real, k: nat, p: int)
    requires Valid(s) && AdaptedFrom(s, w, true, normalizeWindow, sqrt)
    requires NonNegative(w) && IsSqrt(sqrt) && Envelopes.ExactCola(w, s.hopSize, c) && (normalizeWindow ==> c != 0.0)
    requires k >= 2 && 0 <= p < (k - 1) * s.hopSize + s.frameSize
    ensures Framing.Coverage(SegmentWindows(s, k), UnsegmentWindows(s, k), s.hopSize, p, k) == Gain(normalizeWindow, c)
  {
    if normalizeWindow {
      CoverageIsOne(s, w, sqrt, c, k, p);
    } else {
      CoverageIsCola(s, w, sqrt, c, k, p);
    }
  }

  /** Wherever K ≥ 2 frames reach, their segment and unsegment weights add up to g. */
  ghost predicate Reconstructs(s: Segmenter, g: real)
    requires Valid(s)
  {
    forall k: nat, p: int :: 2 <= k && 0 <= p < Frames.NumSamples(k, s.hopSize, s.frameSize) ==>
      Framing.Coverage(SegmentWindows(s, k), UnsegmentWindows(s, k), s.hopSize, p, k) == g
  }

  /**
   * A segmenter built with edge correction from a non-negative, exactly COLA
   * window reconstructs with gain one when normalized and c otherwise.
   */
  lemma BuiltReconstructs(s: Segmenter, w: seq<real>, normalizeWindow: bool, sqrt: real -> real, c: real)
    requires Valid(s) && AdaptedFrom(s, w, true, normalizeWindow, sqrt)
    requires NonNegative(w) && IsSqrt(sqrt) && Envelopes.ExactCola(w, s.hopSize, c) && (normalizeWindow ==> c != 0.0)
    ensures Reconstructs(s, Gain(normalizeWindow, c))
  {
    forall k: nat, p: int | 2 <= k && 0 <= p < Frames.NumSamples(k, s.hopSize, s.frameSize)
      ensures Framing.Coverage(SegmentWindows(s, k), UnsegmentWindows(s, k), s.hopSize, p, k) == Gain(normalizeWindow, c)
    {
      CoverageIsGain(s, w, normalizeWindow, sqrt, c, k, p);
    }
  }

  /** Sample p of the overlap-add of framed frames is the input sample times the gain. */
  lemma SampleRebuilt(s: Segmenter, g: real, x: array2<real>, X: array3<real>, b: nat, p: nat)
    requires Valid(s) && Reconstructs(s, g)
    requires X.Length1 >= 2 && X.Length2 == s.frameSize
    requires Framing.FramedFrom(x, X, SegmentWindows(s, X.Length1), s.hopSize)
    requires b < x.Length0 && p < x.Length1 && p < Frames.NumSamples(X.Length1, s.hopSize, s.frameSize)
    ensures Framing.Overlap(X, UnsegmentWindows(s, X.Length1), s.hopSize, b, p, X.Length1) == g * x[b, p]
  {
    var k := X.Length1;
    Framing.OverlapOfFramed(x, X, SegmentWindows(s, k), UnsegmentWindows(s, k), s.hopSize, b, p);
  }

  /** Every sample of the rebuilt signal is the input sample times the gain. */
  lemma AllRebuilt(s: Segmenter, g: real, x: array2<real>, X: array3<real>, y: array2<real>)
    requires Valid(s) && Reconstructs(s, g)
    requires X.Length1 >= 2 && X.Length2 == s.frameSize
    requires Framing.FramedFrom(x, X, SegmentWindows(s, X.Length1), s.hopSize)
    requires y.Length0 == x.Length0 && y.Length1 <= x.Length1
    requires y.Length1 == Frames.NumSamples(X.Length1, s.hopSize, s.frameSize)
    requires forall b, p :: 0 <= b < y.Length0 && 0 <= p < y.Length1 ==>
               y[b, p] == Framing.Overlap(X, UnsegmentWindows(s, X.Length1), s.hopSize, b, p, X.Length1)
    ensures Framing.Rescaled(x, y, g)
  {
    forall b, p | 0 <= b < y.Length0 && 0 <= p < y.Length1
      ensures y[b, p] == g * x[b, p]
    {
      SampleRebuilt(s, g, x, X, b, p);
    }
  }

  /**
   * `unsegment(segment(x))` on a segmenter that reconstructs with gain g
   * (see BuiltReconstructs): the rebuilt signal has (K − 1)·H + S samples,
   * all of the input exactly when n mod H == S mod H, and every one of them
   * is g times the input sample.
   */
  method RoundTrip(s: Segmenter, g: real, shape: seq<nat>, x: array2<real>)
    returns (err: Option<TorchError>, y: array2<real>)
    requires Valid(s) && Reconstructs(s, g) && Presents(shape, x.Length0, x.Length1)
    ensures SegmentError(s, shape, x.Length1).Some? ==> err == SegmentError(s, shape, x.Length1)
    ensures SegmentError(s, shape, x.Length1).None? ==>
              err == UnsegmentError(s, |shape| + 1, FrameCount(s, x.Length1), s.frameSize)
    ensures err.None? ==>
              && y.Length0 == x.Length0 && y.Length1 <= x.Length1
              && (y.Length1 == x.Length1 <==> x.Length1 % s.hopSize == s.frameSize % s.hopSize)
              && Framing.Rescaled(x, y, g)
  {
    var X, r;
    err, X, r := Segment(s, shape, x);
    if err.Some? {
      y := new real[0, 0];
      return;
    }
    var rank;
    err, y, rank := Unsegment(s, X, r);
    if err.None? {
      Frames.NumSamplesOfNumSegments(x.Length1, s.hopSize, s.frameSize);
      AllRebuilt(s, g, x, X, y);
    }
  }

  /** With H dividing S the round trip succeeds exactly on supported shapes of at least S + H samples. */
  lemma RoundTripSucceedsIff(s: Segmenter, shape: seq<nat>, n: nat)
    requires Valid(s) && s.frameSize % s.hopSize == 0
    ensures (SegmentError(s, shape, n).None? && UnsegmentError(s, |shape| + 1, FrameCount(s, n), s.frameSize).None?)
            <==> SegmentLayout(shape).Some? && n >= s.frameSize + s.hopSize
  {
    SegmentSucceedsIff(s, shape, n);
    TwoFramesIff(n, s.hopSize, s.frameSize);
    if FrameCount(s, n) >= 0 {
      UnsegmentSucceedsIff(s, |shape| + 1, FrameCount(s, n), s.frameSize);
    }
  }

  /** With H dividing S there are two frames or more exactly from S + H samples on. */
  lemma TwoFramesIff(n: int, hop: int, size: int)
    requires hop >= 1 && size % hop == 0
    ensures Frames.NumSegments(n, hop, size) >= 2 <==> n >= size + hop
  {
    Frames.DivShift(size, 1, hop);
    assert (size + hop) % hop == 0;
    Frames.AtLeastOneSegment(n, hop, size + hop);
    assert Frames.NumSegments(n, hop, size + hop) == Frames.NumSegments(n, hop, size) - 1;
  }
}
