/**
 * The single-file torch segmenter of segmenter.py.
 *
 * As written the file cannot build a segmenter: the window helpers compute
 * their windows and return nothing, a named window is looked up as None, and
 * validating a tensor window formats a message with a name that is not
 * defined, so the constructor raises on every argument (ConstructAsWritten);
 * `unsegment` reads window attributes no constructor sets
 * (UnsegmentErrorAsWritten). The corrected model returns the helpers'
 * windows (BeginWindow, EndWindow), validates a window by its length, and
 * stores the synthesis windows `unsegment` reads: the boundary-corrected
 * output window divided by the first sample of its first-frame window.
 * `segment` cuts plain, unwindowed frames, so that `unsegment` rebuilds the
 * signal exactly.
 *
 * Signals are (batch, samples) arrays and frames (batch, frames, size)
 * arrays; a 1-D tensor is one row, and `rank` is the rank of the tensor the
 * caller passed.
 */
module SingleFile {
  import opened Samples
  import opened Wrappers
  import Frames
  import Envelopes
  import Framing
  import Engine

  /** The exceptions of the constructor, of `segment` and of `unsegment`. */
  datatype ScriptError =
    | OddSegmentSize     // ValueError: odd segment_size
    | HopTooLarge        // ValueError: hop_size > segment_size
    | InvalidWindow      // ValueError: a window that is neither a str nor a tensor once looked up
    | WindowSizeMismatch // ValueError: a tensor window of another length than segment_size
    | UnboundName        // NameError: a message that names a variable not in scope
    | DcComponent        // ValueError: the window is not zero at its first or last sample
    | ShapeIndexError    // IndexError: x.shape[-1] or X.shape[-2] of a tensor of too few axes
    | DivisionByZero     // ZeroDivisionError: // hop_size with hop_size 0
    | NegativeDimension  // RuntimeError: torch.zeros with a negative frame count
    | RankError          // ValueError: an input of unsupported rank
    | IndexError         // IndexError: a frame index beyond the frames present
    | BroadcastError     // RuntimeError: frames of another width than the window
    | MissingAttribute   // AttributeError: a window attribute that was never set

  /** A window argument: the name of a predefined window, a tensor, or anything else. */
  datatype WindowArg = Named(name: string) | Given(samples: seq<real>) | Unsupported

  // ---------------------------------------------------------------------
  // The window helpers.

  /**
   * `_segmenter_compute_begwindow` with its result returned: a clone of w,
   * then `beg[:-i] += w[i:]` for i = H, 2H, … < S, which gives
   * beg[n] = w[n] + w[n + H] + w[n + 2H] + …
   */
  method BeginWindow(size: nat, hop: nat, w: array<real>) returns (beg: array<real>)
    requires hop >= 1 && w.Length == size
    ensures fresh(beg) && beg[..] == Envelopes.PreWindow(w[..], hop)
  {
    beg := Engine.Copy(w);
    var i := hop;
    var passes: nat := 1;
    forall t | 0 <= t < size
      ensures beg[t] == Envelopes.ForwardUpTo(w[..], hop, t, 1)
    {
      assert Envelopes.At(w[..], t) == w[t];
    }
    while i < size
      invariant i == passes * hop && passes >= 1
      invariant forall t :: 0 <= t < size ==> beg[t] == Envelopes.ForwardUpTo(w[..], hop, t, passes)
    {
      Engine.AccumulateForward(beg, w, hop, passes);
      i := i + hop;
      passes := passes + 1;
    }
    forall t | 0 <= t < size
      ensures beg[t] == Envelopes.PreWindow(w[..], hop)[t]
    {
      Envelopes.ForwardUpToComplete(w[..], hop, t, passes);
    }
  }

  /**
   * `_segmenter_compute_endwindow` with its result returned: a clone of w,
   * then `end[i:] += w[:-i]` for i = H, 2H, … < S, which gives
   * end[n] = w[n] + w[n − H] + w[n − 2H] + …
   */
  method EndWindow(size: nat, hop: nat, w: array<real>) returns (end: array<real>)
    requires hop >= 1 && w.Length == size
    ensures fresh(end) && end[..] == Envelopes.PostWindow(w[..], hop)
  {
    end := Engine.Copy(w);
    var i := hop;
    var passes: nat := 1;
    forall t | 0 <= t < size
      ensures end[t] == Envelopes.BackwardUpTo(w[..], hop, t, 1)
    {
      assert Envelopes.At(w[..], t) == w[t];
    }
    while i < size
      invariant i == passes * hop && passes >= 1
      invariant forall t :: 0 <= t < size ==> end[t] == Envelopes.BackwardUpTo(w[..], hop, t, passes)
    {
      Engine.AccumulateBackward(end, w, hop, passes);
      i := i + hop;
      passes := passes + 1;
    }
    forall t | 0 <= t < size
      ensures end[t] == Envelopes.PostWindow(w[..], hop)[t]
    {
      Envelopes.BackwardUpToComplete(w[..], hop, t, passes);
    }
  }

  /** `_segmenter_compute_begwindow` as written: the window is computed and dropped. */
  method BeginWindowAsWritten(size: nat, hop: nat, w: array<real>) returns (r: Option<seq<real>>)
    requires hop >= 1 && w.Length == size
    ensures r == None
  {
    var beg := BeginWindow(size, hop, w);
    r := None;
  }

  /** `_segmenter_compute_endwindow` as written: the window is computed and dropped. */
  method EndWindowAsWritten(size: nat, hop: nat, w: array<real>) returns (r: Option<seq<real>>)
    requires hop >= 1 && w.Length == size
    ensures r == None
  {
    var end := EndWindow(size, hop, w);
    r := None;
  }

  // ---------------------------------------------------------------------
  // The constructor.

  /**
   * The constructor as written, which raises on every argument: the guards,
   * then a named window looked up as None and rejected as neither a str nor
   * a tensor, and a tensor window, whose validation always finds the
   * torch.Size unequal to the int and formats the undefined `iwindow`.
   */
  function ConstructAsWritten(segmentSize: nat, hopSize: nat, iwindow: WindowArg, owindow: WindowArg): ScriptError
  {
    if segmentSize % 2 != 0 then OddSegmentSize
    else if hopSize > segmentSize then HopTooLarge
    else if iwindow.Given? then UnboundName
    else InvalidWindow
  }

  /** The check a window argument evidently is to pass: a tensor of segment_size samples. */
  function WindowError(w: WindowArg, segmentSize: nat): (e: Option<ScriptError>)
  {
    match w
    case Named(_) => Some(InvalidWindow)
    case Given(samples) => if |samples| != segmentSize then Some(WindowSizeMismatch) else None
    case Unsupported => Some(InvalidWindow)
  }

  /** The guards and both window checks pass. */
  predicate WindowsAccepted(segmentSize: nat, hopSize: nat, iwindow: WindowArg, owindow: WindowArg)
  {
    && segmentSize % 2 == 0 && hopSize <= segmentSize
    && WindowError(iwindow, segmentSize).None? && WindowError(owindow, segmentSize).None?
  }

  /** The normalization factor: the first sample of the (corrected) first-frame synthesis window. */
  function Factor(ow: seq<real>, hop: nat, boundary: bool): real
    requires hop >= 1 && |ow| >= 1
  {
    Engine.EdgeCorrected(ow, hop, boundary).pre[0]
  }

  /** The synthesis windows the constructor stores: boundary correction, then the normalization. */
  function Synthesis(ow: seq<real>, hop: nat, boundary: bool, autoNormalize: bool): (ws: Engine.Windows)
    requires hop >= 1 && |ow| >= 1 && (autoNormalize ==> Factor(ow, hop, boundary) != 0.0)
    ensures |ws.pre| == |ws.mid| == |ws.post| == |ow|
  {
    Engine.Normalized(Engine.EdgeCorrected(ow, hop, boundary), Factor(ow, hop, boundary), autoNormalize)
  }

  /** A window with a "DC" component: first or last sample above 1e-8 in magnitude. */
  predicate HasDc(w: seq<real>)
    requires |w| >= 1
  {
    Abs(w[0]) > 0.00000001 || Abs(w[|w| - 1]) > 0.00000001
  }

  /** A rectangular window keeps its DC component under any normalization of at most 10^8. */
  lemma RectangularHasDc(size: nat, c: real)
    requires size >= 1 && 0.0 < c < 100000000.0
    ensures HasDc(Scale(Ones(size), c))
  {
    var r := Scale(Ones(size), c);
    assert r[0] == 1.0 / c;
    assert c * 0.00000001 < 1.0;
  }

  /** The first exception of the constructor, once its evident intent is restored. */
  function Rejection(segmentSize: nat, hopSize: nat, iwindow: WindowArg, owindow: WindowArg,
                     autoNormalize: bool, boundary: bool, checkReconstruction: bool): (e: Option<ScriptError>)
    requires hopSize >= 1
    requires autoNormalize && WindowsAccepted(segmentSize, hopSize, iwindow, owindow) ==>
               Factor(owindow.samples, hopSize, boundary) != 0.0
  {
    if segmentSize % 2 != 0 then Some(OddSegmentSize)
    else if hopSize > segmentSize then Some(HopTooLarge)
    else if WindowError(iwindow, segmentSize).Some? then WindowError(iwindow, segmentSize)
    else if WindowError(owindow, segmentSize).Some? then WindowError(owindow, segmentSize)
    else if checkReconstruction && HasDc(Synthesis(owindow.samples, hopSize, boundary, autoNormalize).mid)
    then Some(DcComponent)
    else None
  }

  /**
   * As written even a tensor window of the right length, which the intended
   * check accepts, makes the constructor raise.
   */
  lemma ValidWindowStillRaises(segmentSize: nat, hopSize: nat, iwindow: seq<real>, owindow: seq<real>)
    requires segmentSize % 2 == 0 && 1 <= hopSize <= segmentSize
    requires |iwindow| == segmentSize && |owindow| == segmentSize
    ensures WindowsAccepted(segmentSize, hopSize, Given(iwindow), Given(owindow))
    ensures ConstructAsWritten(segmentSize, hopSize, Given(iwindow), Given(owindow)) == UnboundName
  {
  }

  /** Both constructors apply the same guards first. */
  lemma GuardsAgree(segmentSize: nat, hopSize: nat, iwindow: WindowArg, owindow: WindowArg,
                    autoNormalize: bool, boundary: bool, checkReconstruction: bool)
    requires hopSize >= 1
    requires autoNormalize && WindowsAccepted(segmentSize, hopSize, iwindow, owindow) ==>
               Factor(owindow.samples, hopSize, boundary) != 0.0
    ensures segmentSize % 2 != 0 || hopSize > segmentSize ==>
              Rejection(segmentSize, hopSize, iwindow, owindow, autoNormalize, boundary, checkReconstruction)
              == Some(ConstructAsWritten(segmentSize, hopSize, iwindow, owindow))
    ensures !iwindow.Given? ==>
              Rejection(segmentSize, hopSize, iwindow, owindow, autoNormalize, boundary, checkReconstruction)
              == Some(ConstructAsWritten(segmentSize, hopSize, iwindow, owindow))
  {
  }

  /** The attributes `segment` and `unsegment` use, and the analysis windows the constructor derives. */
  datatype Segmenter = Segmenter(segmentSize: nat, hopSize: nat, analysis: Engine.Windows, synthesis: Engine.Windows)

  /** What every constructed segmenter satisfies. */
  predicate Valid(s: Segmenter)
  {
    && s.segmentSize % 2 == 0 && s.hopSize <= s.segmentSize
    && |s.synthesis.pre| == s.segmentSize && |s.synthesis.mid| == s.segmentSize && |s.synthesis.post| == s.segmentSize
  }

  datatype Construction = Built(segmenter: Segmenter) | Raised(error: ScriptError)

  /**
   * The constructor with its evident intent: the guards, the window checks,
   * the begin/end windows of both windows (or clones), the synthesis windows
   * divided by the first sample of the first-frame window, and the check that
   * the synthesis window has no DC component.
   */
  method Create(segmentSize: nat, hopSize: nat, iwindow: WindowArg, owindow: WindowArg,
                autoNormalize: bool, boundary: bool, checkReconstruction: bool) returns (r: Construction)
    requires hopSize >= 1
    requires autoNormalize && WindowsAccepted(segmentSize, hopSize, iwindow, owindow) ==>
               Factor(owindow.samples, hopSize, boundary) != 0.0
    ensures r.Raised? <==>
              Rejection(segmentSize, hopSize, iwindow, owindow, autoNormalize, boundary, checkReconstruction).Some?
    ensures r.Raised? ==>
              r.error == Rejection(segmentSize, hopSize, iwindow, owindow, autoNormalize, boundary, checkReconstruction).value
    ensures r.Built? ==>
              && Valid(r.segmenter) && iwindow.Given? && owindow.Given?
              && r.segmenter.segmentSize == segmentSize && r.segmenter.hopSize == hopSize
              && r.segmenter.analysis == Engine.EdgeCorrected(iwindow.samples, hopSize, boundary)
              && r.segmenter.synthesis == Synthesis(owindow.samples, hopSize, boundary, autoNormalize)
  {
    if segmentSize % 2 != 0 {
      return Raised(OddSegmentSize);
    }
    if hopSize > segmentSize {
      return Raised(HopTooLarge);
    }
    var e := WindowError(iwindow, segmentSize);
    if e.Some? {
      return Raised(e.value);
    }
    e := WindowError(owindow, segmentSize);
    if e.Some? {
      return Raised(e.value);
    }
    var ibeg, iw, iend := CorrectedWindows(segmentSize, hopSize, iwindow.samples, boundary);
    var obeg, ow, oend := CorrectedWindows(segmentSize, hopSize, owindow.samples, boundary);
    var analysis := Engine.Windows(ibeg[..], iw[..], iend[..]);
    if autoNormalize {
      NormalizeWindows(obeg, ow, oend, obeg[0]);
    }
    if checkReconstruction && (Abs(ow[0]) > 0.00000001 || Abs(ow[segmentSize - 1]) > 0.00000001) {
      return Raised(DcComponent);
    }
    r := Built(Segmenter(segmentSize, hopSize, analysis, Engine.Windows(obeg[..], ow[..], oend[..])));
  }

  /** The window as a tensor, with its begin and end windows when boundary corrections are on, or clones. */
  method CorrectedWindows(size: nat, hop: nat, w: seq<real>, boundary: bool) returns (beg: array<real>, mid: array<real>, end: array<real>)
    requires hop >= 1 && |w| == size
    ensures fresh(beg) && fresh(mid) && fresh(end) && beg != mid && mid != end && beg != end
    ensures Engine.Windows(beg[..], mid[..], end[..]) == Engine.EdgeCorrected(w, hop, boundary)
  {
    mid := new real[size](i requires 0 <= i < size => w[i]);
    assert mid[..] == w;
    if boundary {
      beg := BeginWindow(size, hop, mid);
      end := EndWindow(size, hop, mid);
    } else {
      beg := Engine.Copy(mid);
      end := Engine.Copy(mid);
    }
  }

  /** Divides the three synthesis windows by the normalization factor, in place. */
  method NormalizeWindows(beg: array<real>, mid: array<real>, end: array<real>, factor: real)
    requires factor != 0.0 && beg != mid && mid != end && beg != end
    modifies beg, mid, end
    ensures beg[..] == Scale(old(beg[..]), factor)
    ensures mid[..] == Scale(old(mid[..]), factor)
    ensures end[..] == Scale(old(end[..]), factor)
  {
    Engine.ScaleInPlace(mid, factor);
    Engine.ScaleInPlace(beg, factor);
    Engine.ScaleInPlace(end, factor);
  }

  // ---------------------------------------------------------------------
  // segment.

  /** The frame count (N − S)//H + 1 of `segment`. */
  function FrameCount(s: Segmenter, n: nat): int
    requires s.hopSize >= 1
  {
    Frames.LegacyNumSegments(n, s.hopSize, s.segmentSize)
  }

  /**
   * The first exception `segment` raises: the last axis of a 0-d tensor, the
   * division by a zero hop, an unsupported rank, and torch.zeros with a
   * negative frame count.
   */
  function SegmentError(s: Segmenter, rank: nat, n: nat): (e: Option<ScriptError>)
  {
    if rank == 0 then Some(ShapeIndexError)
    else if s.hopSize == 0 then Some(DivisionByZero)
    else if rank > 2 then Some(RankError)
    else if FrameCount(s, n) < 0 then Some(NegativeDimension)
    else None
  }

  /**
   * `segment` succeeds on a 1-D or 2-D signal of at least S − H samples
   * (with fewer than S samples it cuts no frame), and every frame it cuts
   * lies inside the signal.
   */
  lemma SegmentSucceedsIff(s: Segmenter, rank: nat, n: nat)
    requires s.hopSize >= 1
    ensures SegmentError(s, rank, n).None? <==> (rank == 1 || rank == 2) && n + s.hopSize >= s.segmentSize
    ensures SegmentError(s, rank, n).None? && FrameCount(s, n) >= 1 ==>
              Frames.NumSamples(FrameCount(s, n), s.hopSize, s.segmentSize) <= n
  {
    Frames.LegacyFramesFit(n, s.hopSize, s.segmentSize);
    Frames.LegacyFramesFit(n + s.hopSize, s.hopSize, s.segmentSize);
    Frames.DivShift(n - s.segmentSize, 1, s.hopSize);
  }

  /** The weight of every frame of `segment`: none, the frames are plain slices. */
  function PlainWindows(s: Segmenter, k: nat): (wins: seq<seq<real>>)
    ensures |wins| == k && Framing.Sized(wins, s.segmentSize)
  {
    Framing.Uniform(Ones(s.segmentSize), k)
  }

  /**
   * `segment`: zero frames, then frame k = x[kH : kH + S] for every k (all
   * rows at once for a batch). Copying a slice is weighting it by ones.
   */
  method Segment(s: Segmenter, rank: nat, x: array2<real>) returns (err: Option<ScriptError>, X: array3<real>)
    requires Valid(s) && (rank == 1 ==> x.Length0 == 1)
    ensures err == SegmentError(s, rank, x.Length1)
    ensures err.None? ==>
              && fresh(X) && X.Length0 == x.Length0
              && X.Length1 == FrameCount(s, x.Length1) && X.Length2 == s.segmentSize
              && Framing.FramedFrom(x, X, PlainWindows(s, X.Length1), s.hopSize)
  {
    err := SegmentError(s, rank, x.Length1);
    if err.Some? {
      X := new real[0, 0, 0];
      return;
    }
    var k := FrameCount(s, x.Length1);
    SegmentSucceedsIff(s, rank, x.Length1);
    var wins := PlainWindows(s, k);
    Framing.FitsWhenLastFits(wins, s.hopSize, s.segmentSize, x.Length1);
    X := Framing.Frame(x, s.hopSize, wins, s.segmentSize);
  }

  /** Every frame sample is the signal sample it was cut from. */
  lemma FramesArePlain(s: Segmenter, x: array2<real>, X: array3<real>, b: nat, j: nat, q: nat)
    requires Framing.FramedFrom(x, X, PlainWindows(s, X.Length1), s.hopSize)
    requires b < X.Length0 && j < X.Length1 && q < X.Length2
    ensures j * s.hopSize + q < x.Length1
    ensures X[b, j, q] == x[b, j * s.hopSize + q]
  {
    assert Framing.FrameSample(x, X, PlainWindows(s, X.Length1), s.hopSize, b, j, q);
    Framing.StartIsProduct(j, s.hopSize);
  }

  // ---------------------------------------------------------------------
  // unsegment.

  /**
   * The first exception `unsegment` raises, once the window attributes
   * exist: the second-to-last axis of a 1-D tensor, an unsupported rank,
   * frame 0 of none, frames of another width than the window, and the
   * trailing `k = k + 1` that reads frame 1 of a single frame.
   */
  function UnsegmentError(s: Segmenter, rank: nat, frames: nat, width: nat): (e: Option<ScriptError>)
  {
    if rank < 2 then Some(ShapeIndexError)
    else if rank > 3 then Some(RankError)
    else if frames == 0 then Some(IndexError)
    else if width != s.segmentSize then Some(BroadcastError)
    else if frames == 1 then Some(IndexError)
    else None
  }

  /**
   * `unsegment` as written, which raises on every input: the shape, then
   * the `prewindow` attribute no constructor sets, and for other ranks a
   * message that names the unassigned local `x`.
   */
  function UnsegmentErrorAsWritten(rank: nat): ScriptError
  {
    if rank < 2 then ShapeIndexError else if rank <= 3 then MissingAttribute else UnboundName
  }

  /** Wherever the intended `unsegment` succeeds, the one as written raises AttributeError. */
  lemma UnsegmentAsWrittenRaises(s: Segmenter, rank: nat, frames: nat, width: nat)
    ensures UnsegmentError(s, rank, frames, width).None? <==>
              (rank == 2 || rank == 3) && frames >= 2 && width == s.segmentSize
    ensures UnsegmentError(s, rank, frames, width).None? ==> UnsegmentErrorAsWritten(rank) == MissingAttribute
  {
  }

  /** The weight `unsegment` puts on each frame: prewindow, window, postwindow. */
  function SynthesisWindows(s: Segmenter, k: nat): seq<seq<real>>
  {
    Framing.Edged(s.synthesis.pre, s.synthesis.mid, s.synthesis.post, k)
  }

  /**
   * `unsegment`: a zeroed signal of (K − 1)·H + S samples, then frame 0
   * added with the prewindow, frames 1 .. K − 2 with the window and frame
   * K − 1 with the postwindow.
   */
  method Unsegment(s: Segmenter, X: array3<real>, rank: nat) returns (err: Option<ScriptError>, y: array2<real>)
    requires Valid(s) && (rank == 2 ==> X.Length0 == 1)
    ensures err == UnsegmentError(s, rank, X.Length1, X.Length2)
    ensures err.None? ==>
              && fresh(y) && y.Length0 == X.Length0
              && y.Length1 == Frames.NumSamples(X.Length1, s.hopSize, s.segmentSize)
              && forall b, p :: 0 <= b < y.Length0 && 0 <= p < y.Length1 ==>
                   y[b, p] == Framing.Overlap(X, SynthesisWindows(s, X.Length1), s.hopSize, b, p, X.Length1)
  {
    err := UnsegmentError(s, rank, X.Length1, X.Length2);
    if err.Some? {
      y := new real[0, 0];
      return;
    }
    if s.hopSize >= 1 {
      Frames.MulSign(X.Length1 - 1, s.hopSize);
    }
    y := Framing.OverlapAdd(X, s.hopSize, SynthesisWindows(s, X.Length1));
  }

  // ---------------------------------------------------------------------
  // Perfect reconstruction.

  /** Wherever K ≥ 2 plain frames reach, their synthesis weights add up to one. */
  ghost predicate Reconstructs(s: Segmenter)
  {
    forall k: nat, p: int :: 2 <= k && 0 <= p < Frames.NumSamples(k, s.hopSize, s.segmentSize) ==>
      Framing.Coverage(PlainWindows(s, k), SynthesisWindows(s, k), s.hopSize, p, k) == 1.0
  }

  /**
   * The normalization factor of a boundary-corrected, exactly COLA output
   * window is its COLA constant.
   */
  lemma FactorIsCola(ow: seq<real>, hop: nat, c: real)
    requires hop >= 1 && |ow| >= 1 && Envelopes.ExactCola(ow, hop, c)
    ensures Factor(ow, hop, true) == c
  {
    assert Envelopes.Forward(ow, hop, 0) == c;
  }

  /**
   * A segmenter built with boundary corrections and normalization from an
   * exactly COLA output window weighs K ≥ 2 frames to one at every sample.
   */
  lemma BuiltReconstructs(s: Segmenter, ow: seq<real>, c: real)
    requires Valid(s) && s.hopSize >= 1 && |ow| == s.segmentSize >= 1
    requires Envelopes.ExactCola(ow, s.hopSize, c) && c != 0.0
    requires Factor(ow, s.hopSize, true) != 0.0 && s.synthesis == Synthesis(ow, s.hopSize, true, true)
    ensures Reconstructs(s)
  {
    FactorIsCola(ow, s.hopSize, c);
    forall k: nat, p: int | 2 <= k && 0 <= p < Frames.NumSamples(k, s.hopSize, s.segmentSize)
      ensures Framing.Coverage(PlainWindows(s, k), SynthesisWindows(s, k), s.hopSize, p, k) == 1.0
    {
      CoverageIsOne(s, ow, c, k, p);
    }
  }

  /** One sample of the weighting of BuiltReconstructs. */
  lemma CoverageIsOne(s: Segmenter, ow: seq<real>, c: real, k: nat, p: int)
    requires Valid(s) && s.hopSize >= 1 && |ow| == s.segmentSize >= 1
    requires Envelopes.ExactCola(ow, s.hopSize, c) && c != 0.0 && Factor(ow, s.hopSize, true) == c
    requires s.synthesis == Synthesis(ow, s.hopSize, true, true)
    requires 2 <= k && 0 <= p < Frames.NumSamples(k, s.hopSize, s.segmentSize)
    ensures Framing.Coverage(PlainWindows(s, k), SynthesisWindows(s, k), s.hopSize, p, k) == 1.0
  {
    var h := s.hopSize;
    var one := Ones(s.segmentSize);
    var syn := s.synthesis;
    Framing.UniformIsEdged(one, k);
    Framing.CoverageEdged(one, one, one, syn.pre, syn.mid, syn.post, k, h, p);
    MulOnes(syn.pre);
    MulOnes(syn.mid);
    MulOnes(syn.post);
    Envelopes.NormalizedEnvelopeIsOne(ow, h, c, k, p);
  }

  /** Every sample that K ≥ 2 plain frames rebuild is the input sample. */
  lemma AllRebuilt(s: Segmenter, x: array2<real>, X: array3<real>, y: array2<real>)
    requires Valid(s) && s.hopSize >= 1 && Reconstructs(s)
    requires X.Length1 >= 2 && X.Length2 == s.segmentSize
    requires Framing.FramedFrom(x, X, PlainWindows(s, X.Length1), s.hopSize)
    requires y.Length0 == x.Length0 && y.Length1 <= x.Length1
    requires y.Length1 == Frames.NumSamples(X.Length1, s.hopSize, s.segmentSize)
    requires forall b, p :: 0 <= b < y.Length0 && 0 <= p < y.Length1 ==>
               y[b, p] == Framing.Overlap(X, SynthesisWindows(s, X.Length1), s.hopSize, b, p, X.Length1)
    ensures Framing.Rescaled(x, y, 1.0)
  {
    var k := X.Length1;
    forall b, p | 0 <= b < y.Length0 && 0 <= p < y.Length1
      ensures y[b, p] == 1.0 * x[b, p]
    {
      Framing.OverlapOfFramed(x, X, PlainWindows(s, k), SynthesisWindows(s, k), s.hopSize, b, p);
    }
  }

  /**
   * `unsegment(segment(x))` on a segmenter that reconstructs: the rebuilt
   * signal has (K − 1)·H + S samples, all of the input exactly when H
   * divides N − S, and every one of them is the input sample.
   */
  method RoundTrip(s: Segmenter, rank: nat, x: array2<real>) returns (err: Option<ScriptError>, y: array2<real>)
    requires Valid(s) && s.hopSize >= 1 && Reconstructs(s) && (rank == 1 ==> x.Length0 == 1)
    ensures SegmentError(s, rank, x.Length1).Some? ==> err == SegmentError(s, rank, x.Length1)
    ensures SegmentError(s, rank, x.Length1).None? ==>
              err == UnsegmentError(s, rank + 1, FrameCount(s, x.Length1), s.segmentSize)
    ensures err.None? ==>
              && y.Length0 == x.Length0
              && (y.Length1 == x.Length1 <==> (x.Length1 - s.segmentSize) % s.hopSize == 0)
              && Framing.Rescaled(x, y, 1.0)
  {
    var X;
    err, X := Segment(s, rank, x);
    if err.Some? {
      y := new real[0, 0];
      return;
    }
    err, y := Unsegment(s, X, rank + 1);
    if err.None? {
      SegmentSucceedsIff(s, rank, x.Length1);
      RebuiltLength(x.Length1, s.hopSize, s.segmentSize);
      AllRebuilt(s, x, X, y);
    }
  }

  /** The rebuilt length is all of the input exactly when H divides N − S. */
  lemma RebuiltLength(n: int, hop: int, size: int)
    requires hop >= 1 && Frames.LegacyNumSegments(n, hop, size) >= 1
    ensures Frames.NumSamples(Frames.LegacyNumSegments(n, hop, size), hop, size) == n <==> (n - size) % hop == 0
  {
    var q := (n - size) / hop;
    assert n - size == q * hop + (n - size) % hop;
  }
}
