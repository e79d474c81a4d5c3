/**
 * The segmenter of libsegmenter/base/Segmenter.hpp: a class holding the
 * analysis window and its two edge-corrected variants, built once by the
 * constructor and then used to cut a batch of signals into frames (segment)
 * and to overlap-add frames back into signals (unsegment).
 *
 * Signals are row-major (batch, samples) buffers and frames (batch, frames,
 * frameSize) buffers; they are modelled as `array2` and `array3`, whose
 * element access is what the Span views of libsegmenter/base/Span.hpp
 * compute. The square root is the parameter `sqrt`; the transform
 * magnitudes of the COLA test are the parameter `mag`.
 */
module Engine {
  import opened Samples
  import opened Wrappers
  import Frames
  import Shapes
  import Cola
  import Envelopes

  datatype Mode = WOLA | OLA

  /** The runtime errors the constructor throws, in the order it checks them. */
  datatype CtorError = OddFrameSize | HopTooLarge | WindowSizeMismatch | NegativeSample | NotCola

  /** The COLA tolerance the constructor passes to checkCola. */
  const ColaTolerance: real := 0.001

  /** Which exception the constructor throws for these arguments, if any. */
  function Rejection(frameSize: nat, hop: nat, window: seq<real>, mag: seq<real>): (e: Option<CtorError>)
    requires Cola.Magnitudes(mag, hop)
    ensures e == None ==> frameSize % 2 == 0 && 1 <= hop <= frameSize && |window| == frameSize && NonNegative(window)
  {
    if frameSize % 2 != 0 then Some(OddFrameSize)
    else if hop > frameSize then Some(HopTooLarge)
    else if |window| != frameSize then Some(WindowSizeMismatch)
    else if !NonNegative(window) then Some(NegativeSample)
    // with hop 0 the normalization Σw/0 is not finite and the bound test fails
    else if hop == 0 then Some(NotCola)
    else if !(2.0 * Cola.Leakage(mag, hop, hop) < ColaTolerance) then Some(NotCola)
    else None
  }

  /** The first-frame, interior and last-frame windows. */
  datatype Windows = Windows(pre: seq<real>, mid: seq<real>, post: seq<real>)

  /** After cloning and (optionally) edge correction. */
  function EdgeCorrected(w: seq<real>, hop: nat, edgeCorrection: bool): Windows
    requires hop >= 1
  {
    if edgeCorrection then Windows(Envelopes.PreWindow(w, hop), w, Envelopes.PostWindow(w, hop))
    else Windows(w, w, w)
  }

  /** After (optionally) dividing all three windows by the normalization. */
  function Normalized(ws: Windows, c: real, normalizeWindow: bool): Windows
    requires normalizeWindow ==> c != 0.0
  {
    if normalizeWindow then Windows(Scale(ws.pre, c), Scale(ws.mid, c), Scale(ws.post, c)) else ws
  }

  /** After (in WOLA mode) taking the square root of every sample. */
  function Rooted(ws: Windows, mode: Mode, sqrt: real -> real): Windows
  {
    if mode == WOLA then Windows(Roots(ws.pre, sqrt), Roots(ws.mid, sqrt), Roots(ws.post, sqrt)) else ws
  }

  /** The windows the constructor stores: edge correction, then normalization by Σw/H, then the WOLA square root. */
  function Adapted(w: seq<real>, hop: nat, mode: Mode, edgeCorrection: bool, normalizeWindow: bool,
                   sqrt: real -> real): Windows
    requires hop >= 1 && (normalizeWindow ==> Sum(w) != 0.0)
  {
    Rooted(Normalized(EdgeCorrected(w, hop, edgeCorrection), Sum(w) / (hop as real), normalizeWindow), mode, sqrt)
  }

  /** The window a frame uses in the overlap-add, before the WOLA square root. */
  function Unrooted(w: seq<real>, hop: nat, edgeCorrection: bool, normalizeWindow: bool): Windows
    requires hop >= 1 && (normalizeWindow ==> Sum(w) != 0.0)
  {
    Normalized(EdgeCorrected(w, hop, edgeCorrection), Sum(w) / (hop as real), normalizeWindow)
  }

  /**
   * The factor a frame sample carries after segment and unsegment: the stored
   * window twice in WOLA mode (once per pass), once in OLA mode. For a
   * non-negative window it is the unrooted window.
   */
  lemma PassesMultiplyToUnrooted(w: seq<real>, hop: nat, mode: Mode, edgeCorrection: bool, normalizeWindow: bool,
                                 sqrt: real -> real)
    requires hop >= 1 && NonNegative(w) && (normalizeWindow ==> Sum(w) != 0.0) && IsSqrt(sqrt)
    ensures var a := Adapted(w, hop, mode, edgeCorrection, normalizeWindow, sqrt);
            var u := Unrooted(w, hop, edgeCorrection, normalizeWindow);
            |a.pre| == |a.mid| == |a.post| == |u.pre| == |u.mid| == |u.post| == |w|
            && NonNegative(u.pre) && NonNegative(u.mid) && NonNegative(u.post)
            && (mode == OLA ==> a == u)
            && (mode == WOLA ==> Mul(a.pre, a.pre) == u.pre && Mul(a.mid, a.mid) == u.mid && Mul(a.post, a.post) == u.post)
  {
    var u := Unrooted(w, hop, edgeCorrection, normalizeWindow);
    UnrootedNonNegative(w, hop, edgeCorrection, normalizeWindow);
    RootsSquare(u.pre, sqrt);
    RootsSquare(u.mid, sqrt);
    RootsSquare(u.post, sqrt);
  }

  /** Edge correction and normalization by a positive mean overlap keep a non-negative window non-negative. */
  lemma UnrootedNonNegative(w: seq<real>, hop: nat, edgeCorrection: bool, normalizeWindow: bool)
    requires hop >= 1 && NonNegative(w) && (normalizeWindow ==> Sum(w) != 0.0)
    ensures var u := Unrooted(w, hop, edgeCorrection, normalizeWindow);
            |u.pre| == |u.mid| == |u.post| == |w| && NonNegative(u.pre) && NonNegative(u.mid) && NonNegative(u.post)
  {
    var e := EdgeCorrected(w, hop, edgeCorrection);
    Envelopes.EdgeWindowsNonNegative(w, hop);
    assert NonNegative(e.pre) && NonNegative(e.mid) && NonNegative(e.post);
    if normalizeWindow {
      SumNonNegative(w);
      var c := Sum(w) / (hop as real);
      assert c > 0.0;
      ScaleNonNegative(e.pre, c);
      ScaleNonNegative(e.mid, c);
      ScaleNonNegative(e.post, c);
    }
  }

  lemma ScaleNonNegative(w: seq<real>, c: real)
    requires NonNegative(w) && c > 0.0
    ensures NonNegative(Scale(w, c))
  {
  }

  /** The flat index j·H + k of sample k of frame j, inside the N samples when H divides S and N. */
  function FrameIndex(j: nat, k: nat, n: nat, hop: nat, frameSize: nat): (p: nat)
    requires hop >= 1 && frameSize % hop == 0 && n % hop == 0
    requires j < Frames.NumSegments(n, hop, frameSize) && k < frameSize
    ensures p == j * hop + k && p < n
  {
    Frames.FrameInside(j, k, n, hop, frameSize);
    j * hop + k
  }

  /**
   * After shape validation the reads j·H + k of segment stay below the sample
   * count exactly when the hop divides the frame size.
   */
  lemma ReadsInBoundsIffHopDividesFrame(n: nat, hop: nat, frameSize: nat)
    requires hop >= 1 && frameSize >= 1 && n % hop == 0 && Frames.NumSegments(n, hop, frameSize) >= 1
    ensures (Frames.NumSegments(n, hop, frameSize) - 1) * hop + frameSize - 1 < n <==> frameSize % hop == 0
  {
    Frames.NumSamplesOfNumSegments(n, hop, frameSize);
    assert (n / hop) * hop == n;
  }

  /** A sample weighted by w in segment and again by w in unsegment is weighted by w·w. */
  lemma Reweigh(w: real, f: real, s: real, u: real)
    requires f == w * s && w * w == u
    ensures w * f == u * s
  {
    assert w * (w * s) == (w * w) * s;
  }

  /** In-place `a[i] = a[i] / factor`. */
  method ScaleInPlace(a: array<real>, factor: real)
    requires factor != 0.0
    modifies a
    ensures a[..] == Scale(old(a[..]), factor)
  {
    ghost var before := a[..];
    for i := 0 to a.Length
      invariant forall j :: 0 <= j < i ==> a[j] == before[j] / factor
      invariant forall j :: i <= j < a.Length ==> a[j] == before[j]
    {
      a[i] := a[i] / factor;
    }
  }

  /** In-place `a[i] = sqrt(a[i])`. */
  method RootInPlace(a: array<real>, sqrt: real -> real)
    modifies a
    ensures a[..] == Roots(old(a[..]), sqrt)
  {
    ghost var before := a[..];
    for i := 0 to a.Length
      invariant forall j :: 0 <= j < i ==> a[j] == sqrt(before[j])
      invariant forall j :: i <= j < a.Length ==> a[j] == before[j]
    {
      a[i] := sqrt(a[i]);
    }
  }

  /** A new array with the samples of a (a tensor `clone`). */
  method Copy(a: array<real>) returns (c: array<real>)
    ensures fresh(c) && c[..] == a[..]
  {
    c := new real[a.Length](i requires 0 <= i < a.Length reads a => a[i]);
    assert c[..] == a[..];
  }

  /** One forward pass of the edge correction: `pre[n] += w[n + iH]` for n < S − iH. */
  method AccumulateForward(pre: array<real>, w: array<real>, hop: nat, i: nat)
    requires pre != w && pre.Length == w.Length && hop >= 1 && i * hop <= w.Length
    requires forall t :: 0 <= t < pre.Length ==> pre[t] == Envelopes.ForwardUpTo(w[..], hop, t, i)
    modifies pre
    ensures forall t :: 0 <= t < pre.Length ==> pre[t] == Envelopes.ForwardUpTo(w[..], hop, t, i + 1)
  {
    var start := i * hop;
    var range := w.Length - start;
    for n := 0 to range
      invariant forall t :: 0 <= t < n ==> pre[t] == Envelopes.ForwardUpTo(w[..], hop, t, i + 1)
      invariant forall t :: n <= t < pre.Length ==> pre[t] == Envelopes.ForwardUpTo(w[..], hop, t, i)
    {
      assert Envelopes.At(w[..], n + i * hop) == w[start + n];
      pre[n] := pre[n] + w[start + n];
    }
    forall t | range <= t < pre.Length
      ensures Envelopes.ForwardUpTo(w[..], hop, t, i + 1) == Envelopes.ForwardUpTo(w[..], hop, t, i)
    {
      assert t + i * hop >= w.Length;
    }
  }

  /** One backward pass of the edge correction: `post[n + iH] += w[n]` for n < S − iH. */
  method AccumulateBackward(post: array<real>, w: array<real>, hop: nat, i: nat)
    requires post != w && post.Length == w.Length && hop >= 1 && i * hop <= w.Length
    requires forall t :: 0 <= t < post.Length ==> post[t] == Envelopes.BackwardUpTo(w[..], hop, t, i)
    modifies post
    ensures forall t :: 0 <= t < post.Length ==> post[t] == Envelopes.BackwardUpTo(w[..], hop, t, i + 1)
  {
    var start := i * hop;
    var range := w.Length - start;
    for n := 0 to range
      invariant forall t :: 0 <= t < start ==> post[t] == Envelopes.BackwardUpTo(w[..], hop, t, i)
      invariant forall t :: start <= t < start + n ==> post[t] == Envelopes.BackwardUpTo(w[..], hop, t, i + 1)
      invariant forall t :: start + n <= t < post.Length ==> post[t] == Envelopes.BackwardUpTo(w[..], hop, t, i)
    {
      assert Envelopes.At(w[..], start + n - i * hop) == w[n];
      post[start + n] := post[start + n] + w[n];
    }
    forall t | 0 <= t < start
      ensures Envelopes.BackwardUpTo(w[..], hop, t, i + 1) == Envelopes.BackwardUpTo(w[..], hop, t, i)
    {
      assert t - i * hop < 0;
    }
  }

  /** What the constructor returns, or the exception it throws. */
  datatype Construction = Built(segmenter: Segmenter) | Thrown(error: CtorError)

  class Segmenter {
    const frameSize: Shapes.Size
    const hopSize: Shapes.Size
    const mode: Mode
    const edgeCorrection: bool
    const normalizeWindow: bool
    const sqrt: real -> real
    /** The window the constructor was given. */
    ghost const inputWindow: seq<real>
    const window: array<real>
    const preWindow: array<real>
    const postWindow: array<real>

    /** The hop and the three buffer lengths the sample loops rely on. */
    ghost predicate Sized()
      reads this
    {
      1 <= hopSize <= frameSize && window.Length == frameSize && preWindow.Length == frameSize
      && postWindow.Length == frameSize
    }

    /** The invariant the constructor establishes and no other method disturbs. */
    ghost predicate Valid()
      reads this, window, preWindow, postWindow
    {
      && Sized() && frameSize % 2 == 0
      && window != preWindow && window != postWindow && preWindow != postWindow
      && |inputWindow| == frameSize && NonNegative(inputWindow)
      && (normalizeWindow ==> Sum(inputWindow) != 0.0)
      && Windows(preWindow[..], window[..], postWindow[..])
         == Adapted(inputWindow, hopSize, mode, edgeCorrection, normalizeWindow, sqrt)
    }

    /** The body of the constructor after validation: clone, edge-correct, normalize, take roots. */
    constructor(frameSize: Shapes.Size, hopSize: Shapes.Size, w: seq<real>, mode: Mode, edgeCorrection: bool,
                normalizeWindow: bool, normalization: real, sqrt: real -> real)
      requires 1 <= hopSize <= frameSize && frameSize % 2 == 0 && |w| == frameSize && NonNegative(w)
      requires normalization == Sum(w) / (hopSize as real)
      requires normalizeWindow ==> Sum(w) != 0.0
      ensures Valid() && fresh(window) && fresh(preWindow) && fresh(postWindow)
      ensures this.frameSize == frameSize && this.hopSize == hopSize && this.mode == mode
      ensures this.edgeCorrection == edgeCorrection && this.normalizeWindow == normalizeWindow
      ensures this.sqrt == sqrt && inputWindow == w
    {
      this.frameSize := frameSize;
      this.hopSize := hopSize;
      this.mode := mode;
      this.edgeCorrection := edgeCorrection;
      this.normalizeWindow := normalizeWindow;
      this.sqrt := sqrt;
      inputWindow := w;
      window := new real[frameSize](i requires 0 <= i < frameSize => w[i]);
      preWindow := new real[frameSize](i requires 0 <= i < frameSize => w[i]);
      postWindow := new real[frameSize](i requires 0 <= i < frameSize => w[i]);
      new;
      assert window[..] == w && preWindow[..] == w && postWindow[..] == w;
      if edgeCorrection {
        ApplyEdgeCorrection();
      }
      assert Windows(preWindow[..], window[..], postWindow[..]) == EdgeCorrected(w, hopSize, edgeCorrection);
      if normalizeWindow {
        ApplyWindowNormalization(normalization);
      }
      assert Windows(preWindow[..], window[..], postWindow[..])
             == Normalized(EdgeCorrected(w, hopSize, edgeCorrection), normalization, normalizeWindow);
      if mode == WOLA {
        ApplyWOLANormalization();
      }
    }

    /**
     * `applyEdgeCorrection`: pass i = 1 .. S/H adds the window shifted by iH
     * into the first window and into the last window.
     */
    method ApplyEdgeCorrection()
      requires 1 <= hopSize <= frameSize
      requires window.Length == frameSize && preWindow.Length == frameSize && postWindow.Length == frameSize
      requires window != preWindow && window != postWindow && preWindow != postWindow
      requires preWindow[..] == window[..] && postWindow[..] == window[..]
      modifies preWindow, postWindow
      ensures preWindow[..] == Envelopes.PreWindow(window[..], hopSize)
      ensures postWindow[..] == Envelopes.PostWindow(window[..], hopSize)
    {
      ghost var w := window[..];
      var i := 1;
      while i < frameSize / hopSize + 1
        invariant 1 <= i <= frameSize / hopSize + 1
        invariant forall t :: 0 <= t < frameSize ==> preWindow[t] == Envelopes.ForwardUpTo(w, hopSize, t, i)
        invariant forall t :: 0 <= t < frameSize ==> postWindow[t] == Envelopes.BackwardUpTo(w, hopSize, t, i)
      {
        Frames.PassesWithin(i, hopSize, frameSize);
        AccumulateForward(preWindow, window, hopSize, i);
        AccumulateBackward(postWindow, window, hopSize, i);
        i := i + 1;
      }
      Frames.PassesWithin(i, hopSize, frameSize);
      forall t | 0 <= t < frameSize
        ensures preWindow[t] == Envelopes.PreWindow(w, hopSize)[t]
        ensures postWindow[t] == Envelopes.PostWindow(w, hopSize)[t]
      {
        Envelopes.ForwardUpToComplete(w, hopSize, t, i);
        Envelopes.BackwardUpToComplete(w, hopSize, t, i);
      }
    }

    /** `applyWindowNormalization(factor)`: all three windows divided by the factor. */
    method ApplyWindowNormalization(factor: real)
      requires factor != 0.0
      requires window != preWindow && window != postWindow && preWindow != postWindow
      modifies window, preWindow, postWindow
      ensures window[..] == Scale(old(window[..]), factor)
      ensures preWindow[..] == Scale(old(preWindow[..]), factor)
      ensures postWindow[..] == Scale(old(postWindow[..]), factor)
    {
      ScaleInPlace(window, factor);
      ScaleInPlace(preWindow, factor);
      ScaleInPlace(postWindow, factor);
    }

    /** `applyWOLANormalization`: every sample of all three windows replaced by its square root. */
    method ApplyWOLANormalization()
      requires window != preWindow && window != postWindow && preWindow != postWindow
      modifies window, preWindow, postWindow
      ensures window[..] == Roots(old(window[..]), sqrt)
      ensures preWindow[..] == Roots(old(preWindow[..]), sqrt)
      ensures postWindow[..] == Roots(old(postWindow[..]), sqrt)
    {
      RootInPlace(window, sqrt);
      RootInPlace(preWindow, sqrt);
      RootInPlace(postWindow, sqrt);
    }

    /**
     * The constructor `Segmenter(frameSize, hopSize, window, windowSize, mode,
     * edgeCorrection, normalizeWindow)`: the checks in order, the COLA test at
     * tolerance 1e-3, then the window adaptation.
     */
    static method Create(frameSize: Shapes.Size, hopSize: Shapes.Size, window: seq<real>, mode: Mode,
                         edgeCorrection: bool, normalizeWindow: bool, mag: seq<real>, sqrt: real -> real)
      returns (r: Construction)
      requires Cola.Magnitudes(mag, hopSize)
      requires normalizeWindow && Rejection(frameSize, hopSize, window, mag) == None ==> Sum(window) != 0.0
      ensures r.Thrown? <==> Rejection(frameSize, hopSize, window, mag).Some?
      ensures r.Thrown? ==> r.error == Rejection(frameSize, hopSize, window, mag).value
      ensures r.Built? ==>
                fresh(r.segmenter) && r.segmenter.Valid() && r.segmenter.inputWindow == window
                && r.segmenter.frameSize == frameSize && r.segmenter.hopSize == hopSize && r.segmenter.mode == mode
                && r.segmenter.edgeCorrection == edgeCorrection && r.segmenter.normalizeWindow == normalizeWindow
                && r.segmenter.sqrt == sqrt
    {
      if frameSize % 2 != 0 {
        return Thrown(OddFrameSize);
      }
      if hopSize > frameSize {
        return Thrown(HopTooLarge);
      }
      if |window| != frameSize {
        return Thrown(WindowSizeMismatch);
      }
      for i := 0 to |window|
        invariant forall j :: 0 <= j < i ==> window[j] >= 0.0
      {
        if window[i] < 0.0 {
          return Thrown(NegativeSample);
        }
      }
      if hopSize == 0 {
        return Thrown(NotCola);
      }
      var cola := Cola.CheckCola(window, hopSize, mag, ColaTolerance);
      if !cola.isCola {
        return Thrown(NotCola);
      }
      var s := new Segmenter(frameSize, hopSize, window, mode, edgeCorrection, normalizeWindow,
                             cola.normalizationValue, sqrt);
      r := Built(s);
    }

    /** The window segment applies to frame j of K: the last frame wins over the first. */
    function FrameWindowAt(j: nat, frames: nat, k: nat): real
      reads this, window, preWindow, postWindow
      requires Sized() && k < frameSize
    {
      if j == frames - 1 then postWindow[k] else if j == 0 then preWindow[k] else window[k]
    }

    /** The shape check segment and unsegment run, on the signal and frame buffer dimensions. */
    function ShapeCheck(batch: nat, samples: nat, batchOut: nat, frames: nat, width: nat): Shapes.Outcome
      requires hopSize >= 1
      requires batch < Shapes.SizeLimit && samples < Shapes.SizeLimit
      requires batchOut < Shapes.SizeLimit && frames < Shapes.SizeLimit && width < Shapes.SizeLimit
    {
      Shapes.ValidateSegmentationShape(frameSize, hopSize, Shapes.Shape2(batch, samples),
                                       Shapes.Shape3(batchOut, frames, width))
    }

    /** Sample j·H + k of row b of the signal: sample k of frame j before windowing. */
    function FrameSample(input: array2<real>, b: nat, j: nat, k: nat): real
      reads input
      requires hopSize >= 1 && frameSize % hopSize == 0 && input.Length1 % hopSize == 0
      requires b < input.Length0 && j < Frames.NumSegments(input.Length1, hopSize, frameSize) && k < frameSize
    {
      input[b, FrameIndex(j, k, input.Length1, hopSize, frameSize)]
    }

    /** Sample k of frame j of row b, as segment writes it. */
    function Segmented(input: array2<real>, b: nat, j: nat, frames: nat, k: nat): real
      reads this, window, preWindow, postWindow, input
      requires Sized() && frameSize % hopSize == 0 && input.Length1 % hopSize == 0
      requires b < input.Length0 && j < frames == Frames.NumSegments(input.Length1, hopSize, frameSize)
      requires k < frameSize
    {
      if mode == WOLA then FrameWindowAt(j, frames, k) * FrameSample(input, b, j, k) else FrameSample(input, b, j, k)
    }

    /** Writes frame j of row b: each sample times its window sample, or the plain sample. */
    method WriteFrame(input: array2<real>, output: array3<real>, b: nat, j: nat, win: array<real>, weighted: bool)
      requires 1 <= hopSize && frameSize % hopSize == 0 && input.Length1 % hopSize == 0
      requires output.Length1 == Frames.NumSegments(input.Length1, hopSize, frameSize)
      requires b < input.Length0 && b < output.Length0 && j < output.Length1 && output.Length2 == frameSize
      requires weighted ==> win.Length == frameSize
      modifies output
      ensures forall k :: 0 <= k < frameSize ==>
                output[b, j, k] == if weighted then win[k] * FrameSample(input, b, j, k) else FrameSample(input, b, j, k)
      ensures forall b', j', k' :: 0 <= b' < output.Length0 && 0 <= j' < output.Length1 && 0 <= k' < output.Length2 ==>
                (b' != b || j' != j) ==> output[b', j', k'] == old(output[b', j', k'])
    {
      for k := 0 to frameSize
        invariant forall k' :: 0 <= k' < k ==>
                    output[b, j, k'] == if weighted then win[k'] * FrameSample(input, b, j, k') else FrameSample(input, b, j, k')
        invariant forall b', j', k' :: 0 <= b' < output.Length0 && 0 <= j' < output.Length1 && 0 <= k' < output.Length2 ==>
                    (b' != b || j' != j) ==> output[b', j', k'] == old(output[b', j', k'])
      {
        var x := input[b, FrameIndex(j, k, input.Length1, hopSize, frameSize)];
        if weighted {
          output[b, j, k] := win[k] * x;
        } else {
          output[b, j, k] := x;
        }
      }
    }

    /** The interior frames 1 .. K−2 of one WOLA batch row, with the interior window. */
    method SegmentInterior(input: array2<real>, output: array3<real>, b: nat)
      requires Sized() && frameSize % hopSize == 0 && input.Length1 % hopSize == 0
      requires output.Length1 == Frames.NumSegments(input.Length1, hopSize, frameSize)
      requires b < input.Length0 && b < output.Length0 && output.Length2 == frameSize
      modifies output
      ensures forall j, k :: 1 <= j < output.Length1 - 1 && 0 <= k < frameSize ==>
                output[b, j, k] == window[k] * FrameSample(input, b, j, k)
      ensures forall b', j', k' :: 0 <= b' < output.Length0 && 0 <= j' < output.Length1 && 0 <= k' < output.Length2 ==>
                (b' != b || j' == 0 || j' == output.Length1 - 1) ==> output[b', j', k'] == old(output[b', j', k'])
    {
      var j := 1;
      while j < output.Length1 - 1
        invariant 1 <= j && (output.Length1 >= 2 ==> j <= output.Length1 - 1)
        invariant forall j', k :: 1 <= j' < j && j' < output.Length1 && 0 <= k < frameSize ==>
                    output[b, j', k] == window[k] * FrameSample(input, b, j', k)
        invariant forall b', j', k' :: 0 <= b' < output.Length0 && 0 <= j' < output.Length1 && 0 <= k' < output.Length2 ==>
                    (b' != b || j' == 0 || j' >= j) ==> output[b', j', k'] == old(output[b', j', k'])
      {
        WriteFrame(input, output, b, j, window, true);
        j := j + 1;
      }
    }

    /** One WOLA batch row: the first frame with the first window, the interior, then the last frame. */
    method SegmentRowWola(input: array2<real>, output: array3<real>, b: nat)
      requires Sized() && frameSize % hopSize == 0 && input.Length1 % hopSize == 0
      requires output.Length1 == Frames.NumSegments(input.Length1, hopSize, frameSize) >= 1
      requires b < input.Length0 && b < output.Length0 && output.Length2 == frameSize
      modifies output
      ensures forall j, k :: 0 <= j < output.Length1 && 0 <= k < frameSize ==>
                output[b, j, k] == FrameWindowAt(j, output.Length1, k) * FrameSample(input, b, j, k)
      ensures forall b', j', k' :: 0 <= b' < output.Length0 && 0 <= j' < output.Length1 && 0 <= k' < output.Length2 ==>
                b' != b ==> output[b', j', k'] == old(output[b', j', k'])
    {
      var frames := output.Length1;
      WriteFrame(input, output, b, 0, preWindow, true);
      SegmentInterior(input, output, b);
      label BeforeLast:
      WriteFrame(input, output, b, frames - 1, postWindow, true);
      forall j', k | 0 <= j' < frames && 0 <= k < frameSize
        ensures output[b, j', k] == FrameWindowAt(j', frames, k) * FrameSample(input, b, j', k)
      {
        if j' != frames - 1 {
          assert output[b, j', k] == old@BeforeLast(output[b, j', k]);
        }
      }
    }

    /** One OLA batch row: every frame a plain slice of the signal. */
    method SegmentRowOla(input: array2<real>, output: array3<real>, b: nat)
      requires 1 <= hopSize && frameSize % hopSize == 0 && input.Length1 % hopSize == 0
      requires output.Length1 == Frames.NumSegments(input.Length1, hopSize, frameSize)
      requires b < input.Length0 && b < output.Length0 && output.Length2 == frameSize
      modifies output
      ensures forall j, k :: 0 <= j < output.Length1 && 0 <= k < frameSize ==>
                output[b, j, k] == FrameSample(input, b, j, k)
      ensures forall b', j', k' :: 0 <= b' < output.Length0 && 0 <= j' < output.Length1 && 0 <= k' < output.Length2 ==>
                b' != b ==> output[b', j', k'] == old(output[b', j', k'])
    {
      for j := 0 to output.Length1
        invariant forall j', k :: 0 <= j' < j && 0 <= k < frameSize ==> output[b, j', k] == FrameSample(input, b, j', k)
        invariant forall b', j', k' :: 0 <= b' < output.Length0 && 0 <= j' < output.Length1 && 0 <= k' < output.Length2 ==>
                    b' != b ==> output[b', j', k'] == old(output[b', j', k'])
      {
        WriteFrame(input, output, b, j, window, false);
      }
    }

    /**
     * `segment(itensor, ishape, otensor, oshape)`: validates the shapes, then
     * writes every frame sample. The model demands that H divide the frame size
     * and that there be at least one frame; otherwise the source reads or writes
     * outside its buffers.
     */
    method Segment(input: array2<real>, output: array3<real>) returns (outcome: Shapes.Outcome)
      requires Valid() && frameSize % hopSize == 0
      requires input.Length0 < Shapes.SizeLimit && input.Length1 < Shapes.SizeLimit
      requires output.Length0 < Shapes.SizeLimit && output.Length1 < Shapes.SizeLimit && output.Length2 < Shapes.SizeLimit
      requires ShapeCheck(input.Length0, input.Length1, output.Length0, output.Length1, output.Length2) == Shapes.Pass
               ==> input.Length1 >= frameSize
      modifies output
      ensures outcome == ShapeCheck(input.Length0, input.Length1, output.Length0, output.Length1, output.Length2)
      ensures outcome.Fail? ==> unchanged(output)
      ensures outcome.Pass? ==>
                input.Length1 % hopSize == 0 && output.Length0 == input.Length0 && output.Length2 == frameSize
                && output.Length1 == Frames.NumSegments(input.Length1, hopSize, frameSize) >= 1
                && forall b, j, k :: 0 <= b < output.Length0 && 0 <= j < output.Length1 && 0 <= k < frameSize ==>
                     output[b, j, k] == Segmented(input, b, j, output.Length1, k)
    {
      outcome := ShapeCheck(input.Length0, input.Length1, output.Length0, output.Length1, output.Length2);
      if outcome.Fail? {
        return;
      }
      Frames.AtLeastOneSegment(input.Length1, hopSize, frameSize);
      if mode == WOLA {
        for b := 0 to output.Length0
          invariant forall b', j, k :: 0 <= b' < b && 0 <= j < output.Length1 && 0 <= k < frameSize ==>
                      output[b', j, k] == Segmented(input, b', j, output.Length1, k)
        {
          SegmentRowWola(input, output, b);
        }
      } else {
        for b := 0 to output.Length0
          invariant forall b', j, k :: 0 <= b' < b && 0 <= j < output.Length1 && 0 <= k < frameSize ==>
                      output[b', j, k] == Segmented(input, b', j, output.Length1, k)
        {
          SegmentRowOla(input, output, b);
        }
      }
    }

    /** The contribution of frame j of row b to output sample p: win[p − jH] · frame[p − jH] where defined. */
    function Term(input: array3<real>, b: nat, j: nat, win: array<real>, p: int): real
      reads this, input, win
      requires b < input.Length0 && j < input.Length1 && win.Length == input.Length2
    {
      var q := p - j * hopSize;
      if 0 <= q < win.Length then win[q] * input[b, j, q] else 0.0
    }

    /** The contributions of the frames lo .. hi−1 with one window. */
    function MidTerms(input: array3<real>, b: nat, win: array<real>, p: int, lo: nat, hi: nat): real
      reads this, input, win
      requires b < input.Length0 && hi <= input.Length1 && win.Length == input.Length2
      decreases hi - lo
    {
      if hi <= lo then 0.0 else MidTerms(input, b, win, p, lo, hi - 1) + Term(input, b, hi - 1, win, p)
    }

    /** What unsegment adds to output sample p of row b: first, interior and last frames. */
    function Overlap(input: array3<real>, b: nat, p: int): real
      reads this, input, window, preWindow, postWindow
      requires Sized() && b < input.Length0 && input.Length1 >= 1 && input.Length2 == frameSize
    {
      Term(input, b, 0, preWindow, p) + MidTerms(input, b, window, p, 1, input.Length1 - 1)
      + Term(input, b, input.Length1 - 1, postWindow, p)
    }

    /** Adds frame j of row b into the signal: only adds, never overwrites. */
    method AddFrame(input: array3<real>, output: array2<real>, b: nat, j: nat, win: array<real>)
      requires Sized() && frameSize % hopSize == 0 && output.Length1 % hopSize == 0
      requires input.Length1 == Frames.NumSegments(output.Length1, hopSize, frameSize)
      requires b < input.Length0 && b < output.Length0 && j < input.Length1 && input.Length2 == frameSize
      requires win.Length == frameSize
      modifies output
      ensures forall p :: 0 <= p < output.Length1 ==> output[b, p] == old(output[b, p]) + Term(input, b, j, win, p)
      ensures forall b', p :: 0 <= b' < output.Length0 && 0 <= p < output.Length1 && b' != b ==>
                output[b', p] == old(output[b', p])
    {
      var start := j * hopSize;
      for k := 0 to frameSize
        invariant forall p :: 0 <= p < output.Length1 ==>
                    output[b, p] == old(output[b, p]) + (if start <= p < start + k then win[p - start] * input[b, j, p - start] else 0.0)
        invariant forall b', p :: 0 <= b' < output.Length0 && 0 <= p < output.Length1 && b' != b ==>
                    output[b', p] == old(output[b', p])
      {
        var p := FrameIndex(j, k, output.Length1, hopSize, frameSize);
        output[b, p] := output[b, p] + win[k] * input[b, j, k];
      }
    }

    /** One batch row of unsegment. */
    method UnsegmentRow(input: array3<real>, output: array2<real>, b: nat)
      requires Sized() && frameSize % hopSize == 0 && output.Length1 % hopSize == 0
      requires input.Length1 == Frames.NumSegments(output.Length1, hopSize, frameSize) >= 1
      requires b < input.Length0 && b < output.Length0 && input.Length2 == frameSize
      modifies output
      ensures forall p :: 0 <= p < output.Length1 ==> output[b, p] == old(output[b, p]) + Overlap(input, b, p)
      ensures forall b', p :: 0 <= b' < output.Length0 && 0 <= p < output.Length1 && b' != b ==>
                output[b', p] == old(output[b', p])
    {
      var frames := input.Length1;
      AddFrame(input, output, b, 0, preWindow);
      var j := 1;
      while j < frames - 1
        invariant 1 <= j <= if frames >= 2 then frames - 1 else 1
        invariant forall p :: 0 <= p < output.Length1 ==>
                    output[b, p] == old(output[b, p]) + Term(input, b, 0, preWindow, p)
                                    + MidTerms(input, b, window, p, 1, j)
        invariant forall b', p :: 0 <= b' < output.Length0 && 0 <= p < output.Length1 && b' != b ==>
                    output[b', p] == old(output[b', p])
      {
        AddFrame(input, output, b, j, window);
        j := j + 1;
      }
      AddFrame(input, output, b, frames - 1, postWindow);
    }

    /**
     * `unsegment(itensor, ishape, otensor, oshape)`: validates the shapes, then
     * overlap-adds every frame into the output. The model demands that H divide
     * the frame size and that there be at least one frame.
     */
    method Unsegment(input: array3<real>, output: array2<real>) returns (outcome: Shapes.Outcome)
      requires Valid() && frameSize % hopSize == 0
      requires input.Length0 < Shapes.SizeLimit && input.Length1 < Shapes.SizeLimit && input.Length2 < Shapes.SizeLimit
      requires output.Length0 < Shapes.SizeLimit && output.Length1 < Shapes.SizeLimit
      requires ShapeCheck(output.Length0, output.Length1, input.Length0, input.Length1, input.Length2) == Shapes.Pass
               ==> output.Length1 >= frameSize
      modifies output
      ensures outcome == ShapeCheck(output.Length0, output.Length1, input.Length0, input.Length1, input.Length2)
      ensures outcome.Fail? ==> unchanged(output)
      ensures outcome.Pass? ==>
                output.Length1 % hopSize == 0 && input.Length0 == output.Length0 && input.Length2 == frameSize
                && input.Length1 == Frames.NumSegments(output.Length1, hopSize, frameSize) >= 1
                && forall b, p :: 0 <= b < output.Length0 && 0 <= p < output.Length1 ==>
                     output[b, p] == old(output[b, p]) + Overlap(input, b, p)
    {
      outcome := ShapeCheck(output.Length0, output.Length1, input.Length0, input.Length1, input.Length2);
      if outcome.Fail? {
        return;
      }
      Frames.AtLeastOneSegment(output.Length1, hopSize, frameSize);
      for b := 0 to output.Length0
        invariant forall b', p :: 0 <= b' < b && 0 <= p < output.Length1 ==>
                    output[b', p] == old(output[b', p]) + Overlap(input, b', p)
        invariant forall b', p :: b <= b' < output.Length0 && 0 <= p < output.Length1 ==>
                    output[b', p] == old(output[b', p])
      {
        UnsegmentRow(input, output, b);
      }
    }

    // -------------------------------------------------------------------
    // Perfect reconstruction: unsegment after segment.

    /** Every frame sample is what segment writes for the signal x. */
    ghost predicate SegmentedFrom(x: array2<real>, frames: array3<real>)
      reads this, window, preWindow, postWindow, x, frames
      requires Sized() && frameSize % hopSize == 0 && x.Length1 % hopSize == 0
    {
      && frames.Length0 == x.Length0 && frames.Length2 == frameSize
      && frames.Length1 == Frames.NumSegments(x.Length1, hopSize, frameSize)
      && forall b, j, k {:trigger Segmented(x, b, j, frames.Length1, k)} ::
           0 <= b < frames.Length0 && 0 <= j < frames.Length1 && 0 <= k < frameSize ==>
           frames[b, j, k] == Segmented(x, b, j, frames.Length1, k)
    }

    /** Frame j of row b, weighted once more by `win`, is signal x weighted by `u`. */
    ghost predicate WeightedFrame(x: array2<real>, frames: array3<real>, b: nat, j: nat, win: array<real>, u: seq<real>)
      reads this, x, frames, win
    {
      && hopSize >= 1 && frameSize % hopSize == 0 && x.Length1 % hopSize == 0
      && frames.Length1 == Frames.NumSegments(x.Length1, hopSize, frameSize) && j < frames.Length1
      && b < frames.Length0 && b < x.Length0 && win.Length == frames.Length2 == frameSize && |u| == frameSize
      && forall k {:trigger FrameSample(x, b, j, k)} :: 0 <= k < frameSize ==>
           win[k] * frames[b, j, k] == u[k] * FrameSample(x, b, j, k)
    }

    /** Such a frame contributes u(p − jH) · x[p] to sample p. */
    lemma TermOfFrame(x: array2<real>, frames: array3<real>, b: nat, j: nat, win: array<real>, u: seq<real>, p: int)
      requires WeightedFrame(x, frames, b, j, win, u) && 0 <= p < x.Length1
      ensures Term(frames, b, j, win, p) == Envelopes.At(u, p - j * hopSize) * x[b, p]
    {
      var q := p - j * hopSize;
      if 0 <= q < frameSize {
        assert FrameSample(x, b, j, q) == x[b, p];
      }
    }

    /** Interior frames lo .. hi−1 that each contribute u(p − jH) · v add up to the interior envelope times v. */
    lemma {:induction false} MidTermsOfFrames(frames: array3<real>, b: nat, win: array<real>, u: seq<real>,
                                              p: int, v: real, lo: nat, hi: nat)
      requires b < frames.Length0 && hi <= frames.Length1 && win.Length == frames.Length2
      requires forall j :: lo <= j < hi ==> Term(frames, b, j, win, p) == Envelopes.At(u, p - j * hopSize) * v
      ensures MidTerms(frames, b, win, p, lo, hi) == Envelopes.MidSum(u, hopSize, p, lo, hi) * v
      decreases hi - lo
    {
      if lo < hi {
        MidTermsOfFrames(frames, b, win, u, p, v, lo, hi - 1);
        var m := Envelopes.MidSum(u, hopSize, p, lo, hi - 1);
        var a := Envelopes.At(u, p - (hi - 1) * hopSize);
        assert Term(frames, b, hi - 1, win, p) == a * v;
        assert (m + a) * v == m * v + a * v;
      }
    }

    /** The window unsegment applies to frame j of K ≥ 2. */
    function UnsegmentWindow(j: nat, frames: nat): array<real>
      reads this, window, preWindow, postWindow
    {
      if j == 0 then preWindow else if j == frames - 1 then postWindow else window
    }

    /** The matching unrooted window of frame j of K ≥ 2. */
    ghost function UnrootedWindow(j: nat, frames: nat): seq<real>
      reads this
      requires hopSize >= 1 && (normalizeWindow ==> Sum(inputWindow) != 0.0)
    {
      var u := Unrooted(inputWindow, hopSize, edgeCorrection, normalizeWindow);
      if j == 0 then u.pre else if j == frames - 1 then u.post else u.mid
    }

    /** Frame j of row b is the signal weighted by `win` (WOLA) or a plain slice of it (OLA). */
    ghost predicate SegmentedFrame(x: array2<real>, frames: array3<real>, b: nat, j: nat, win: array<real>)
      reads this, x, frames, win
    {
      && hopSize >= 1 && frameSize % hopSize == 0 && x.Length1 % hopSize == 0
      && frames.Length1 == Frames.NumSegments(x.Length1, hopSize, frameSize) && j < frames.Length1
      && b < frames.Length0 && b < x.Length0 && win.Length == frames.Length2 == frameSize
      && forall k {:trigger FrameSample(x, b, j, k)} :: 0 <= k < frameSize ==>
           frames[b, j, k] == if mode == WOLA then win[k] * FrameSample(x, b, j, k) else FrameSample(x, b, j, k)
    }

    /** With K ≥ 2 frames segment weights frame j with the window unsegment applies to it. */
    lemma SegmentedWithUnsegmentWindow(x: array2<real>, frames: array3<real>, b: nat, j: nat)
      requires Valid() && frameSize % hopSize == 0 && x.Length1 % hopSize == 0
      requires SegmentedFrom(x, frames) && frames.Length1 >= 2 && b < frames.Length0 && j < frames.Length1
      ensures SegmentedFrame(x, frames, b, j, UnsegmentWindow(j, frames.Length1))
    {
      forall k | 0 <= k < frameSize
        ensures frames[b, j, k] == if mode == WOLA then UnsegmentWindow(j, frames.Length1)[k] * FrameSample(x, b, j, k)
                                   else FrameSample(x, b, j, k)
      {
        assert frames[b, j, k] == Segmented(x, b, j, frames.Length1, k);
      }
    }

    /**
     * The stored window of frame j multiplies with itself (WOLA) or is (OLA)
     * the unrooted window of frame j.
     */
    lemma StoredWindowSquares(j: nat, frames: nat)
      requires Valid() && IsSqrt(sqrt)
      ensures UnsegmentWindow(j, frames).Length == |UnrootedWindow(j, frames)| == frameSize
      ensures mode == WOLA ==>
                Mul(UnsegmentWindow(j, frames)[..], UnsegmentWindow(j, frames)[..]) == UnrootedWindow(j, frames)
      ensures mode == OLA ==> UnsegmentWindow(j, frames)[..] == UnrootedWindow(j, frames)
    {
      PassesMultiplyToUnrooted(inputWindow, hopSize, mode, edgeCorrection, normalizeWindow, sqrt);
    }

    /** Weighting a segmented frame once more by its window gives the signal weighted by the unrooted window. */
    lemma FrameWeights(x: array2<real>, frames: array3<real>, b: nat, j: nat, win: array<real>, u: seq<real>)
      requires SegmentedFrame(x, frames, b, j, win) && |u| == frameSize
      requires mode == WOLA ==> Mul(win[..], win[..]) == u
      requires mode == OLA ==> win[..] == u
      ensures WeightedFrame(x, frames, b, j, win, u)
    {
      forall k | 0 <= k < frameSize
        ensures win[k] * frames[b, j, k] == u[k] * FrameSample(x, b, j, k)
      {
        if mode == WOLA {
          assert Mul(win[..], win[..])[k] == u[k];
          Reweigh(win[k], frames[b, j, k], FrameSample(x, b, j, k), u[k]);
        }
      }
    }

    /** Frame j of K ≥ 2 after segment, weighted by unsegment. */
    lemma SegmentedFrameWeights(x: array2<real>, frames: array3<real>, b: nat, j: nat)
      requires Valid() && IsSqrt(sqrt) && frameSize % hopSize == 0 && x.Length1 % hopSize == 0
      requires SegmentedFrom(x, frames) && frames.Length1 >= 2 && b < frames.Length0 && j < frames.Length1
      ensures WeightedFrame(x, frames, b, j, UnsegmentWindow(j, frames.Length1), UnrootedWindow(j, frames.Length1))
    {
      SegmentedWithUnsegmentWindow(x, frames, b, j);
      StoredWindowSquares(j, frames.Length1);
      FrameWeights(x, frames, b, j, UnsegmentWindow(j, frames.Length1), UnrootedWindow(j, frames.Length1));
    }

    /** The three parts of the overlap-add, each the matching part of the envelope times v, add up. */
    lemma OverlapSum(frames: array3<real>, b: nat, p: int, v: real, first: seq<real>, mid: seq<real>, last: seq<real>)
      requires Sized() && frames.Length1 >= 2 && frames.Length2 == frameSize && b < frames.Length0
      requires Term(frames, b, 0, preWindow, p) == Envelopes.At(first, p) * v
      requires MidTerms(frames, b, window, p, 1, frames.Length1 - 1)
               == Envelopes.MidSum(mid, hopSize, p, 1, frames.Length1 - 1) * v
      requires Term(frames, b, frames.Length1 - 1, postWindow, p)
               == Envelopes.At(last, p - (frames.Length1 - 1) * hopSize) * v
      ensures Overlap(frames, b, p) == Envelopes.Envelope(first, mid, last, hopSize, frames.Length1, p) * v
    {
      var f := Envelopes.At(first, p);
      var m := Envelopes.MidSum(mid, hopSize, p, 1, frames.Length1 - 1);
      var l := Envelopes.At(last, p - (frames.Length1 - 1) * hopSize);
      assert (f + m + l) * v == f * v + m * v + l * v;
    }

    /** The interior frames of K ≥ 2 weighted frames contribute the interior envelope times the signal. */
    lemma InteriorOfWeighted(x: array2<real>, frames: array3<real>, b: nat, p: nat, mid: seq<real>)
      requires Sized() && frames.Length1 >= 2 && frames.Length2 == frameSize && b < frames.Length0
      requires b < x.Length0 && p < x.Length1
      requires forall j :: 1 <= j < frames.Length1 - 1 ==> WeightedFrame(x, frames, b, j, window, mid)
      ensures MidTerms(frames, b, window, p, 1, frames.Length1 - 1)
              == Envelopes.MidSum(mid, hopSize, p, 1, frames.Length1 - 1) * x[b, p]
    {
      forall j | 1 <= j < frames.Length1 - 1
        ensures Term(frames, b, j, window, p) == Envelopes.At(mid, p - j * hopSize) * x[b, p]
      {
        TermOfFrame(x, frames, b, j, window, mid, p);
      }
      MidTermsOfFrames(frames, b, window, mid, p, x[b, p], 1, frames.Length1 - 1);
    }

    /** The unrooted windows of the stored ones. */
    ghost function Target(): Windows
      reads this
      requires hopSize >= 1 && (normalizeWindow ==> Sum(inputWindow) != 0.0)
    {
      Unrooted(inputWindow, hopSize, edgeCorrection, normalizeWindow)
    }

    /** After segment, every one of K ≥ 2 frames weighted once more is the signal weighted by its unrooted window. */
    lemma FramesOfSegmented(x: array2<real>, frames: array3<real>, b: nat)
      requires Valid() && IsSqrt(sqrt) && frameSize % hopSize == 0 && x.Length1 % hopSize == 0
      requires SegmentedFrom(x, frames) && frames.Length1 >= 2 && b < x.Length0
      ensures WeightedFrame(x, frames, b, 0, preWindow, Target().pre)
      ensures WeightedFrame(x, frames, b, frames.Length1 - 1, postWindow, Target().post)
      ensures forall j :: 1 <= j < frames.Length1 - 1 ==> WeightedFrame(x, frames, b, j, window, Target().mid)
    {
      SegmentedFrameWeights(x, frames, b, 0);
      SegmentedFrameWeights(x, frames, b, frames.Length1 - 1);
      forall j | 1 <= j < frames.Length1 - 1
        ensures WeightedFrame(x, frames, b, j, window, Target().mid)
      {
        SegmentedFrameWeights(x, frames, b, j);
      }
    }

    /**
     * Overlap-add of K ≥ 2 weighted frames: every sample of the signal comes
     * back multiplied by the envelope of the weighting windows.
     */
    lemma OverlapOfWeighted(x: array2<real>, frames: array3<real>, b: nat, p: nat,
                            first: seq<real>, mid: seq<real>, last: seq<real>)
      requires Sized() && frames.Length1 >= 2 && frames.Length2 == frameSize && b < x.Length0 && p < x.Length1
      requires WeightedFrame(x, frames, b, 0, preWindow, first)
      requires WeightedFrame(x, frames, b, frames.Length1 - 1, postWindow, last)
      requires forall j :: 1 <= j < frames.Length1 - 1 ==> WeightedFrame(x, frames, b, j, window, mid)
      ensures Overlap(frames, b, p) == Envelopes.Envelope(first, mid, last, hopSize, frames.Length1, p) * x[b, p]
    {
      TermOfFrame(x, frames, b, 0, preWindow, first, p);
      TermOfFrame(x, frames, b, frames.Length1 - 1, postWindow, last, p);
      InteriorOfWeighted(x, frames, b, p, mid);
      OverlapSum(frames, b, p, x[b, p], first, mid, last);
    }

    /**
     * The headline property: with edge correction and normalization on and a
     * window that is exactly COLA, unsegment after segment returns every sample
     * of every signal, in both modes.
     */
    lemma PerfectReconstruction(x: array2<real>, frames: array3<real>, c: real, b: nat, p: nat)
      requires Valid() && IsSqrt(sqrt) && edgeCorrection && normalizeWindow
      requires Envelopes.ExactCola(inputWindow, hopSize, c)
      requires frameSize % hopSize == 0 && x.Length1 % hopSize == 0
      requires SegmentedFrom(x, frames) && frames.Length1 >= 2 && b < x.Length0 && p < x.Length1
      ensures Overlap(frames, b, p) == x[b, p]
    {
      FramesOfSegmented(x, frames, b);
      OverlapOfWeighted(x, frames, b, p, Target().pre, Target().mid, Target().post);
      Envelopes.ColaConstantIsMeanOverlap(inputWindow, hopSize, c);
      var K := frames.Length1;
      Frames.NumSamplesOfNumSegments(x.Length1, hopSize, frameSize);
      assert p < (K - 1) * hopSize + frameSize;
      Envelopes.NormalizedEnvelopeIsOne(inputWindow, hopSize, c, K, p);
    }

    /**
     * Segment into a fresh frame buffer, then unsegment into a zeroed signal
     * buffer, as the reconstruction test does: with edge correction and
     * normalization on and an exactly COLA window the signal comes back.
     */
    method RoundTrip(x: array2<real>, c: real) returns (y: array2<real>)
      requires Valid() && IsSqrt(sqrt) && edgeCorrection && normalizeWindow
      requires Envelopes.ExactCola(inputWindow, hopSize, c)
      requires frameSize % hopSize == 0 && x.Length1 % hopSize == 0
      requires x.Length0 < Shapes.SizeLimit && x.Length1 < Shapes.SizeLimit
      requires Frames.NumSegments(x.Length1, hopSize, frameSize) >= 2
      ensures y.Length0 == x.Length0 && y.Length1 == x.Length1
      ensures forall b, p :: 0 <= b < x.Length0 && 0 <= p < x.Length1 ==> y[b, p] == x[b, p]
    {
      var n := x.Length1;
      var count := Frames.NumSegments(n, hopSize, frameSize);
      Frames.AtLeastOneSegment(n, hopSize, frameSize);
      Frames.DivBounds(n, hopSize);
      var frames := new real[x.Length0, count, frameSize];
      var outcome := Segment(x, frames);
      y := new real[x.Length0, n]((b, p) => 0.0);
      outcome := Unsegment(frames, y);
      AllReconstructed(x, frames, y, c);
    }

    /** Every sample of an unsegment of segmented frames into a zeroed buffer is the input sample. */
    lemma AllReconstructed(x: array2<real>, frames: array3<real>, y: array2<real>, c: real)
      requires Valid() && IsSqrt(sqrt) && edgeCorrection && normalizeWindow
      requires Envelopes.ExactCola(inputWindow, hopSize, c)
      requires frameSize % hopSize == 0 && x.Length1 % hopSize == 0
      requires SegmentedFrom(x, frames) && frames.Length1 >= 2
      requires y.Length0 == x.Length0 && y.Length1 == x.Length1
      requires forall b, p :: 0 <= b < y.Length0 && 0 <= p < y.Length1 ==> y[b, p] == 0.0 + Overlap(frames, b, p)
      ensures forall b, p :: 0 <= b < x.Length0 && 0 <= p < x.Length1 ==> y[b, p] == x[b, p]
    {
      forall b, p | 0 <= b < x.Length0 && 0 <= p < x.Length1
        ensures y[b, p] == x[b, p]
      {
        PerfectReconstruction(x, frames, c, b, p);
      }
    }

    /**
     * A single WOLA frame: segment's last-frame write overwrites its first-frame
     * write, so the frame carries the last-frame window only, while unsegment
     * adds both the first-frame and the last-frame contribution.
     */
    lemma SingleFrame(x: array2<real>, frames: array3<real>, b: nat, p: nat)
      requires Sized() && frameSize % hopSize == 0 && x.Length1 % hopSize == 0 && mode == WOLA
      requires SegmentedFrom(x, frames) && frames.Length1 == 1 && b < x.Length0 && p < frameSize
      ensures x.Length1 == frameSize
      ensures frames[b, 0, p] == postWindow[p] * x[b, p]
      ensures Overlap(frames, b, p) == (preWindow[p] + postWindow[p]) * postWindow[p] * x[b, p]
    {
      assert x.Length1 == (x.Length1 / hopSize) * hopSize;
      assert frameSize == (frameSize / hopSize) * hopSize;
      assert x.Length1 / hopSize == frameSize / hopSize;
      assert frames[b, 0, p] == Segmented(x, b, 0, 1, p);
      assert FrameSample(x, b, 0, p) == x[b, p];
    }
  }
}
