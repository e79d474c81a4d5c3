/**
 * The TensorFlow segmenter of segmenterTensorFlow.py.
 *
 * Its constructor checks only the frame size, the hop and the window
 * length, always derives the pre/post windows by the shifted partial sums,
 * normalizes them, replaces both by the window when edge correction is off
 * and takes square roots in wola mode. `segment` and `unsegment` frame and
 * overlap-add through scatter-adds into zeroed tensors.
 *
 * As written, normalization indexes the boolean that checkCola.py returns,
 * so every normalizing constructor raises (RejectionAsWritten,
 * CreateAsWritten); Create divides by the COLA normalization Σw/H instead.
 * The segmenter it builds has the attributes of the torch segmenter and is
 * the same datatype.
 *
 * As written, `segment` combines its shape tests with `&`, which evaluates
 * `x.shape[1]` on every input, so a 1-D signal raises IndexError
 * (SegmentLayoutAsWritten, SegmentErrorAsWritten). SegmentLayout reads a
 * 1-D signal as the evident single-signal case, and Segment, RoundTrip and
 * the lemmas about them use that corrected layout.
 */
module LegacyTensorFlow {
  import opened Samples
  import opened Wrappers
  import Frames
  import Envelopes
  import Framing
  import Engine
  import LegacyEngine
  import LegacyTorch

  type Segmenter = LegacyTorch.Segmenter

  /** The exceptions of the constructor, of `segment` and of `unsegment`. */
  datatype TfError =
    | OddFrameSize       // ValueError: odd frameSize
    | HopTooLarge        // ValueError: hopSize > frameSize
    | WindowSizeMismatch // ValueError: window length != frameSize
    | DivisionByZero     // ZeroDivisionError: frameSize // hopSize with hopSize 0
    | NotSubscriptable   // TypeError: value[1] on the bool checkCola returns
    | UnknownMode        // ValueError: mode not wola or ola
    | RankError          // ValueError: an input of unsupported shape
    | NegativeDimension  // tf.zeros with a negative frame count
    | ShapeError         // tf.reshape of a slice cut short to one frame
    | IndexError         // a frame or batch index beyond those present
    | ShapeIndexError    // IndexError: x.shape[1] of a tensor of rank below 2
    | BroadcastError     // frames of another width than the window

  datatype Result<T> = Ok(value: T) | Err(error: TfError)

  // ---------------------------------------------------------------------
  // The constructor.

  /** The first exception of the constructor with the normalization step left out of account. */
  function Rejection(frameSize: nat, hop: nat, window: seq<real>, mode: string): (e: Option<TfError>)
  {
    if frameSize % 2 != 0 then Some(OddFrameSize)
    else if hop > frameSize then Some(HopTooLarge)
    else if |window| != frameSize then Some(WindowSizeMismatch)
    else if hop == 0 then Some(DivisionByZero)
    else if LegacyTorch.ModeOf(mode).None? then Some(UnknownMode)
    else None
  }

  /** The first exception of the constructor as written: normalization always raises. */
  function RejectionAsWritten(frameSize: nat, hop: nat, window: seq<real>, mode: string, normalizeWindow: bool)
    : (e: Option<TfError>)
  {
    if frameSize % 2 != 0 then Some(OddFrameSize)
    else if hop > frameSize then Some(HopTooLarge)
    else if |window| != frameSize then Some(WindowSizeMismatch)
    else if hop == 0 then Some(DivisionByZero)
    else if normalizeWindow then Some(NotSubscriptable)
    else if LegacyTorch.ModeOf(mode).None? then Some(UnknownMode)
    else None
  }

  /**
   * Unlike the torch constructor there is no check of negative samples or of
   * the COLA condition: acceptance depends only on the sizes and the mode.
   */
  lemma AcceptedArguments(frameSize: nat, hop: nat, window: seq<real>, mode: string)
    ensures Rejection(frameSize, hop, window, mode).None? <==>
              && frameSize % 2 == 0 && 1 <= hop <= frameSize && |window| == frameSize
              && (mode == "wola" || mode == "ola")
  {
  }

  /**
   * As written, no constructor that normalizes succeeds; without
   * normalization the constructor as written is the corrected one.
   */
  lemma NormalizeAlwaysRaises(frameSize: nat, hop: nat, window: seq<real>, mode: string, normalizeWindow: bool)
    ensures normalizeWindow ==> RejectionAsWritten(frameSize, hop, window, mode, normalizeWindow).Some?
    ensures normalizeWindow && Rejection(frameSize, hop, window, mode).None? ==>
              RejectionAsWritten(frameSize, hop, window, mode, normalizeWindow) == Some(NotSubscriptable)
    ensures !normalizeWindow ==> RejectionAsWritten(frameSize, hop, window, mode, normalizeWindow)
                                 == Rejection(frameSize, hop, window, mode)
  {
  }

  /** The default arguments with a two-sample rectangular window show it. */
  lemma DefaultArgumentsRaise()
    ensures Rejection(2, 1, [1.0, 1.0], "wola") == None
    ensures RejectionAsWritten(2, 1, [1.0, 1.0], "wola", true) == Some(NotSubscriptable)
  {
    assert LegacyTorch.ModeOf("wola") == Some(Engine.WOLA);
  }

  datatype Construction = Built(segmenter: Segmenter) | Raised(error: TfError)

  /**
   * `Segmenter.__init__` with the normalization by Σw/H: the checks in
   * order, the shifted partial sums, the normalization, the replacement of
   * the edge windows when edge correction is off, and the wola square roots.
   */
  method Create(frameSize: nat, hopSize: nat, window: seq<real>, mode: string, edgeCorrection: bool,
                normalizeWindow: bool, sqrt: real -> real) returns (r: Construction)
    requires normalizeWindow && Rejection(frameSize, hopSize, window, mode).None? ==> Sum(window) != 0.0
    ensures r.Raised? <==> Rejection(frameSize, hopSize, window, mode).Some?
    ensures r.Raised? ==> r.error == Rejection(frameSize, hopSize, window, mode).value
    ensures r.Built? ==>
              && LegacyTorch.Valid(r.segmenter)
              && LegacyTorch.AdaptedFrom(r.segmenter, window, edgeCorrection, normalizeWindow, sqrt)
              && r.segmenter.frameSize == frameSize && r.segmenter.hopSize == hopSize
              && Some(r.segmenter.mode) == LegacyTorch.ModeOf(mode)
  {
    if frameSize % 2 != 0 {
      return Raised(OddFrameSize);
    }
    if hopSize > frameSize {
      return Raised(HopTooLarge);
    }
    if |window| != frameSize {
      return Raised(WindowSizeMismatch);
    }
    if hopSize == 0 {
      return Raised(DivisionByZero);
    }
    // the source adapts the windows before it rejects an unknown mode; the
    // adaptation raises nothing here, so looking at the mode first is equivalent
    var m := LegacyTorch.ModeOf(mode);
    if m.None? {
      return Raised(UnknownMode);
    }
    var pre, mid, post := AdaptWindows(window, hopSize, edgeCorrection, normalizeWindow);
    if m.value == Engine.WOLA {
      Engine.RootInPlace(pre, sqrt);
      Engine.RootInPlace(mid, sqrt);
      Engine.RootInPlace(post, sqrt);
    }
    r := Built(LegacyTorch.Segmenter(frameSize, hopSize, m.value, pre[..], mid[..], post[..]));
  }

  /**
   * `Segmenter.__init__` as written: the same, except that a normalizing
   * constructor that passes the size checks raises NotSubscriptable.
   */
  method CreateAsWritten(frameSize: nat, hopSize: nat, window: seq<real>, mode: string, edgeCorrection: bool,
                         normalizeWindow: bool, sqrt: real -> real) returns (r: Construction)
    ensures r.Raised? <==> RejectionAsWritten(frameSize, hopSize, window, mode, normalizeWindow).Some?
    ensures r.Raised? ==> r.error == RejectionAsWritten(frameSize, hopSize, window, mode, normalizeWindow).value
    ensures r.Built? ==>
              && !normalizeWindow && LegacyTorch.Valid(r.segmenter)
              && LegacyTorch.AdaptedFrom(r.segmenter, window, edgeCorrection, false, sqrt)
              && r.segmenter.frameSize == frameSize && r.segmenter.hopSize == hopSize
  {
    if normalizeWindow && frameSize % 2 == 0 && hopSize <= frameSize && |window| == frameSize && hopSize != 0 {
      return Raised(NotSubscriptable);
    }
    r := Create(frameSize, hopSize, window, mode, edgeCorrection, false, sqrt);
  }

  /**
   * The clones and their shifted partial sums (always computed), the
   * normalization, then pre and post replaced by the window when edge
   * correction is off. The source rebinds both names to the window array;
   * the square roots that follow make new arrays, so copies are equivalent.
   */
  method AdaptWindows(w: seq<real>, hop: nat, edgeCorrection: bool, normalizeWindow: bool)
    returns (pre: array<real>, mid: array<real>, post: array<real>)
    requires 1 <= hop <= |w| && (normalizeWindow ==> Sum(w) != 0.0)
    ensures fresh(pre) && fresh(mid) && fresh(post) && pre != mid && mid != post && pre != post
    ensures Engine.Windows(pre[..], mid[..], post[..]) == Engine.Unrooted(w, hop, edgeCorrection, normalizeWindow)
  {
    mid := new real[|w|](i requires 0 <= i < |w| => w[i]);
    pre := new real[|w|](i requires 0 <= i < |w| => w[i]);
    post := new real[|w|](i requires 0 <= i < |w| => w[i]);
    assert mid[..] == w && pre[..] == w && post[..] == w;
    LegacyEngine.ShiftedEdgeCorrection(pre, post, mid, hop);
    if normalizeWindow {
      var normalization := Sum(w) / (hop as real);
      Engine.ScaleInPlace(mid, normalization);
      Engine.ScaleInPlace(pre, normalization);
      Engine.ScaleInPlace(post, normalization);
    }
    if !edgeCorrection {
      pre := Engine.Copy(mid);
      post := Engine.Copy(mid);
    }
  }

  // ---------------------------------------------------------------------
  // segment.

  /**
   * How `segment` reads a shape: 2-D with more than one column is a batch;
   * 1-D, or 2-D with a single column, is one signal of shape[0] samples.
   */
  function SegmentLayout(shape: seq<nat>): Option<LegacyTorch.Layout>
  {
    if |shape| == 2 && shape[1] > 1 then Some(LegacyTorch.Batched)
    else if (|shape| == 2 && shape[1] == 1) || |shape| == 1 then Some(LegacyTorch.Unbatched)
    else None
  }

  /**
   * The layout `segment` reaches as written: both branch conditions are
   * combined with the non-short-circuit `&`, so `x.shape[1]` is read before
   * the rank is known, which raises on a tensor of rank 0 or 1; a tensor of
   * rank 3 or more passes both reads and reaches the ValueError branch.
   */
  function SegmentLayoutAsWritten(shape: seq<nat>): Result<LegacyTorch.Layout>
  {
    if |shape| < 2 then Err(ShapeIndexError)
    else if |shape| == 2 && shape[1] > 1 then Ok(LegacyTorch.Batched)
    else if |shape| == 2 && shape[1] == 1 then Ok(LegacyTorch.Unbatched)
    else Err(RankError)
  }

  /**
   * The as-written layout accepts exactly the rank-two tensors with columns,
   * failing with the IndexError below rank two; on rank two it is the
   * corrected layout, and the two differ exactly on 1-D signals, which only
   * the correction accepts.
   */
  lemma LayoutAsWrittenVersusCorrected(shape: seq<nat>)
    ensures SegmentLayoutAsWritten(shape).Ok? <==> |shape| == 2 && shape[1] >= 1
    ensures SegmentLayoutAsWritten(shape) == Err(ShapeIndexError) <==> |shape| < 2
    ensures |shape| == 2 ==> SegmentLayoutAsWritten(shape) ==
                               if SegmentLayout(shape).Some? then Ok(SegmentLayout(shape).value) else Err(RankError)
    ensures (SegmentLayoutAsWritten(shape).Ok? <==> SegmentLayout(shape).Some?) <==> |shape| != 1
    ensures |shape| == 1 ==> SegmentLayout(shape) == Some(LegacyTorch.Unbatched)
  {
  }

  /** The (rows, samples) array holds the tensor of this shape: a batch as is, a single signal as one row. */
  predicate Presents(shape: seq<nat>, rows: nat, samples: nat)
  {
    && (SegmentLayout(shape) == Some(LegacyTorch.Batched) ==> rows == shape[0] && samples == shape[1])
    && (SegmentLayout(shape) == Some(LegacyTorch.Unbatched) ==> rows == 1 && samples == shape[0])
  }

  /** A batch of no rows: `segment` counts it as no batch and takes the single-signal branch. */
  predicate EmptyBatch(shape: seq<nat>)
  {
    SegmentLayout(shape) == Some(LegacyTorch.Batched) && shape[0] == 0
  }

  /**
   * The first exception `segment` raises: the shape, tf.zeros with a
   * negative frame count, and a slice that cannot be reshaped to one frame —
   * wola's frame 0 when the signal is shorter than a frame, the last frame
   * cut short by the end of the signal, or any slice of an empty batch.
   */
  function SegmentError(s: Segmenter, shape: seq<nat>, n: nat): (e: Option<TfError>)
    requires LegacyTorch.Valid(s)
  {
    var k := LegacyTorch.FrameCount(s, n);
    if SegmentLayout(shape).None? then Some(RankError)
    else if k < 0 then Some(NegativeDimension)
    else if EmptyBatch(shape) && (s.mode == Engine.WOLA || k >= 1) then Some(ShapeError)
    else if s.mode == Engine.WOLA && k == 0 then Some(ShapeError)
    else if k >= 1 && Frames.NumSamples(k, s.hopSize, s.frameSize) > n then Some(ShapeError)
    else None
  }

  /**
   * The first exception `segment` raises as written: the IndexError of
   * reading `x.shape[1]` below rank two, otherwise that of the corrected layout.
   */
  function SegmentErrorAsWritten(s: Segmenter, shape: seq<nat>, n: nat): (e: Option<TfError>)
    requires LegacyTorch.Valid(s)
    ensures |shape| < 2 ==> e == Some(ShapeIndexError)
    ensures |shape| >= 2 ==> e == SegmentError(s, shape, n)
  {
    match SegmentLayoutAsWritten(shape)
    case Err(f) => Some(f)
    case Ok(_) => SegmentError(s, shape, n)
  }

  /**
   * A four-sample 1-D signal framed by two-sample frames with hop one: the
   * corrected `segment` accepts it, `segment` as written raises IndexError.
   */
  lemma OneDimensionalSignalRaises()
    ensures var s := LegacyTorch.Segmenter(2, 1, Engine.OLA, [1.0, 1.0], [1.0, 1.0], [1.0, 1.0]);
            && LegacyTorch.Valid(s)
            && SegmentError(s, [4], 4).None?
            && SegmentErrorAsWritten(s, [4], 4) == Some(ShapeIndexError)
  {
    var s := LegacyTorch.Segmenter(2, 1, Engine.OLA, [1.0, 1.0], [1.0, 1.0], [1.0, 1.0]);
    assert LegacyTorch.FrameCount(s, 4) == 3;
    assert Frames.NumSamples(3, 1, 2) == 4;
  }

  /**
   * The weight `segment` puts on each frame. A single wola frame receives
   * both the pre-window and the post-window scatter-add, so it carries their sum.
   */
  function SegmentWindows(s: Segmenter, k: nat): (wins: seq<seq<real>>)
    requires LegacyTorch.Valid(s)
    ensures |wins| == k && Framing.Sized(wins, s.frameSize)
  {
    if s.mode == Engine.WOLA then
      if k == 1 then [Add(s.pre, s.post)] else Framing.Edged(s.pre, s.window, s.post, k)
    else Framing.Uniform(Ones(s.frameSize), k)
  }

  /**
   * Where the torch segmenter accepts the shape and the batch is not empty,
   * it and the corrected segment accept the same signals and weight the
   * frames alike, except a single wola frame, which this one weights with
   * pre + post and torch with post. A column vector, which torch rejects, is
   * a single signal here; a 1-D signal, which torch accepts, raises as written.
   */
  lemma AgreesWithTorch(s: Segmenter, shape: seq<nat>, n: nat)
    requires LegacyTorch.Valid(s)
    ensures LegacyTorch.SegmentLayout(shape).Some? && !EmptyBatch(shape) ==>
              (SegmentError(s, shape, n).None? <==> LegacyTorch.SegmentError(s, shape, n).None?)
    ensures |shape| == 2 && shape[1] == 1 ==>
              LegacyTorch.SegmentLayout(shape).None? && SegmentLayout(shape) == Some(LegacyTorch.Unbatched)
    ensures |shape| == 1 ==>
              LegacyTorch.SegmentLayout(shape).Some? && SegmentErrorAsWritten(s, shape, n) == Some(ShapeIndexError)
    ensures forall k: nat :: k != 1 || s.mode == Engine.OLA ==> SegmentWindows(s, k) == LegacyTorch.SegmentWindows(s, k)
    ensures s.mode == Engine.WOLA ==>
              SegmentWindows(s, 1) == [Add(s.pre, LegacyTorch.SegmentWindows(s, 1)[0])]
  {
  }

  /** The rank `segment` returns: frames of a batch, or the frames of one signal. */
  function SegmentRank(shape: seq<nat>): nat
  {
    if SegmentLayout(shape) == Some(LegacyTorch.Batched) && !EmptyBatch(shape) then 3 else 2
  }

  /**
   * `segment`: zero frames, then frame k = slice kH .. kH + S scatter-added
   * with its window. An empty batch has frames only when there are none.
   */
  method Segment(s: Segmenter, shape: seq<nat>, x: array2<real>) returns (err: Option<TfError>, X: array3<real>, outRank: nat)
    requires LegacyTorch.Valid(s) && Presents(shape, x.Length0, x.Length1)
    ensures err == SegmentError(s, shape, x.Length1)
    ensures err.None? ==>
              && fresh(X) && outRank == SegmentRank(shape)
              && X.Length1 == LegacyTorch.FrameCount(s, x.Length1) && X.Length2 == s.frameSize
              && (EmptyBatch(shape) ==> X.Length0 == 1 && X.Length1 == 0)
              && (!EmptyBatch(shape) ==> X.Length0 == x.Length0)
              && (!EmptyBatch(shape) ==> Framing.FramedFrom(x, X, SegmentWindows(s, X.Length1), s.hopSize))
  {
    err := SegmentError(s, shape, x.Length1);
    if err.Some? {
      X, outRank := new real[0, 0, 0], 0;
      return;
    }
    outRank := SegmentRank(shape);
    if EmptyBatch(shape) {
      X := new real[1, 0, s.frameSize];
      return;
    }
    var k := LegacyTorch.FrameCount(s, x.Length1);
    var wins := SegmentWindows(s, k);
    Framing.FitsWhenLastFits(wins, s.hopSize, s.frameSize, x.Length1);
    X := Framing.Frame(x, s.hopSize, wins, s.frameSize);
  }

  // ---------------------------------------------------------------------
  // unsegment.

  /**
   * The first exception `unsegment` raises: the rank, frame 0 of an empty
   * batch, frame 0 of none, frames of another width than the window, and the
   * trailing `k = k + 1` that reads frame 1 of a single frame.
   */
  function UnsegmentError(s: Segmenter, rank: nat, rows: nat, frames: nat, width: nat): (e: Option<TfError>)
    requires LegacyTorch.Valid(s)
  {
    if rank != 2 && rank != 3 then Some(RankError)
    else if rank == 3 && rows == 0 then Some(IndexError)
    else if frames == 0 then Some(IndexError)
    else if width != s.frameSize then Some(BroadcastError)
    else if frames == 1 then Some(IndexError)
    else None
  }

  /** `unsegment` needs a supported rank, a row, at least two frames and frames as wide as the window. */
  lemma UnsegmentSucceedsIff(s: Segmenter, rank: nat, rows: nat, frames: nat, width: nat)
    requires LegacyTorch.Valid(s)
    ensures UnsegmentError(s, rank, rows, frames, width).None? <==>
              (rank == 2 || (rank == 3 && rows >= 1)) && frames >= 2 && width == s.frameSize
    ensures rows >= 1 ==> (UnsegmentError(s, rank, rows, frames, width).None? <==>
                           LegacyTorch.UnsegmentError(s, rank, frames, width).None?)
  {
  }

  /**
   * `unsegment`: a zeroed signal of (K − 1)·H + S samples, then frame 0
   * scatter-added with the pre window, frames 1 .. K − 2 with the window and
   * frame K − 1 with the post window.
   */
  method Unsegment(s: Segmenter, X: array3<real>, rank: nat) returns (err: Option<TfError>, y: array2<real>, outRank: nat)
    requires LegacyTorch.Valid(s) && (rank == 2 ==> X.Length0 == 1)
    ensures err == UnsegmentError(s, rank, X.Length0, X.Length1, X.Length2)
    ensures err.None? ==>
              && fresh(y) && outRank == rank - 1
              && y.Length0 == X.Length0 && y.Length1 == Frames.NumSamples(X.Length1, s.hopSize, s.frameSize)
              && forall b, p :: 0 <= b < y.Length0 && 0 <= p < y.Length1 ==>
                   y[b, p] == Framing.Overlap(X, LegacyTorch.UnsegmentWindows(s, X.Length1), s.hopSize, b, p, X.Length1)
  {
    err := UnsegmentError(s, rank, X.Length0, X.Length1, X.Length2);
    if err.Some? {
      y, outRank := new real[0, 0], 0;
      return;
    }
    Frames.MulSign(X.Length1 - 1, s.hopSize);
    y := Framing.OverlapAdd(X, s.hopSize, LegacyTorch.UnsegmentWindows(s, X.Length1));
    outRank := rank - 1;
  }

  // ---------------------------------------------------------------------
  // Reconstruction.

  /**
   * `unsegment(segment(x))` on a segmenter that reconstructs with gain g:
   * every rebuilt sample is g times the input sample. Built with edge
   * correction from a non-negative exactly COLA window, g is one for the
   * corrected normalizing constructor and the COLA constant for the only
   * segmenters the constructor as written can build (LegacyTorch.BuiltReconstructs).
   */
  method RoundTrip(s: Segmenter, g: real, shape: seq<nat>, x: array2<real>)
    returns (err: Option<TfError>, y: array2<real>)
    requires LegacyTorch.Valid(s) && LegacyTorch.Reconstructs(s, g) && Presents(shape, x.Length0, x.Length1)
    ensures SegmentError(s, shape, x.Length1).Some? ==> err == SegmentError(s, shape, x.Length1)
    ensures SegmentError(s, shape, x.Length1).None? && !EmptyBatch(shape) ==>
              err == UnsegmentError(s, SegmentRank(shape), x.Length0, LegacyTorch.FrameCount(s, x.Length1), s.frameSize)
    ensures EmptyBatch(shape) ==> err.Some?
    ensures err.None? ==> y.Length0 == x.Length0 && y.Length1 <= x.Length1
    ensures err.None? ==> (y.Length1 == x.Length1 <==> x.Length1 % s.hopSize == s.frameSize % s.hopSize)
    ensures err.None? ==> Framing.Rescaled(x, y, g)
  {
    var X, r;
    err, X, r := Segment(s, shape, x);
    if err.Some? {
      y := new real[0, 0];
      return;
    }
    var rank;
    err, y, rank := Unsegment(s, X, r);
    if err.None? {
      LastFrameFits(s, shape, x.Length1);
      AllRebuilt(s, g, x, X, y);
    }
  }

  /** Once `segment` succeeds with frames, the last frame ends within the signal. */
  lemma LastFrameFits(s: Segmenter, shape: seq<nat>, n: nat)
    requires LegacyTorch.Valid(s) && SegmentError(s, shape, n).None? && LegacyTorch.FrameCount(s, n) >= 1
    ensures Frames.NumSamples(LegacyTorch.FrameCount(s, n), s.hopSize, s.frameSize) <= n
  {
  }

  /**
   * From two frames on the frames are weighted as torch weights them, so
   * they rebuild alike: K frames of an n-sample signal rebuild (K − 1)·H + S
   * samples, g times the input.
   */
  lemma AllRebuilt(s: Segmenter, g: real, x: array2<real>, X: array3<real>, y: array2<real>)
    requires LegacyTorch.Valid(s) && LegacyTorch.Reconstructs(s, g)
    requires X.Length1 >= 2 && X.Length2 == s.frameSize && X.Length1 == LegacyTorch.FrameCount(s, x.Length1)
    requires Frames.NumSamples(X.Length1, s.hopSize, s.frameSize) <= x.Length1
    requires Framing.FramedFrom(x, X, SegmentWindows(s, X.Length1), s.hopSize)
    requires y.Length0 == X.Length0 && y.Length1 == Frames.NumSamples(X.Length1, s.hopSize, s.frameSize)
    requires forall b, p :: 0 <= b < y.Length0 && 0 <= p < y.Length1 ==>
               y[b, p] == Framing.Overlap(X, LegacyTorch.UnsegmentWindows(s, X.Length1), s.hopSize, b, p, X.Length1)
    ensures && y.Length0 == x.Length0 && y.Length1 <= x.Length1
            && (y.Length1 == x.Length1 <==> x.Length1 % s.hopSize == s.frameSize % s.hopSize)
            && Framing.Rescaled(x, y, g)
  {
    Frames.NumSamplesOfNumSegments(x.Length1, s.hopSize, s.frameSize);
    assert SegmentWindows(s, X.Length1) == LegacyTorch.SegmentWindows(s, X.Length1);
    LegacyTorch.AllRebuilt(s, g, x, X, y);
  }

  /**
   * With H dividing S the round trip succeeds exactly on supported shapes
   * with a row and at least S + H samples.
   */
  lemma RoundTripSucceedsIff(s: Segmenter, shape: seq<nat>, n: nat)
    requires LegacyTorch.Valid(s) && s.frameSize % s.hopSize == 0
    ensures (SegmentError(s, shape, n).None? && !EmptyBatch(shape)
             && UnsegmentError(s, SegmentRank(shape), if |shape| == 2 && shape[1] > 1 then shape[0] else 1,
                               LegacyTorch.FrameCount(s, n), s.frameSize).None?)
            <==> SegmentLayout(shape).Some? && !EmptyBatch(shape) && n >= s.frameSize + s.hopSize
  {
    LegacyTorch.TwoFramesIff(n, s.hopSize, s.frameSize);
    Frames.AtLeastOneSegment(n, s.hopSize, s.frameSize);
    if LegacyTorch.FrameCount(s, n) >= 2 {
      Frames.NumSamplesOfNumSegments(n, s.hopSize, s.frameSize);
      assert s.frameSize == (s.frameSize / s.hopSize) * s.hopSize;
    }
  }
}
