/**
 * The header-only segmenter of libsegmenter/Segmenter.hpp, the predecessor of
 * the base library: `populateRectangularWindow` and the constructor, which
 * validates its arguments, runs the COLA test at the default tolerance 1e-5,
 * normalizes the window and builds the first-frame and last-frame windows
 * (its segment and unsegment bodies are empty).
 *
 * The constructor is modelled twice: `LegacySegmenter.AsWritten` follows the
 * loops as written, in which the last-frame window is never copied and the
 * edge-correction passes add each sample to itself instead of to its shifted
 * position; `LegacySegmenter.constructor` is the evidently intended version,
 * whose windows are those of the base library.
 */
module LegacyEngine {
  import opened Samples
  import opened Wrappers
  import Frames
  import Cola
  import Envelopes
  import Engine

  /** `populateRectangularWindow(vec, windowSize)`: ones at the first windowSize positions. */
  method PopulateRectangularWindow(vec: array<real>, windowSize: nat)
    requires windowSize <= vec.Length
    modifies vec
    ensures vec[..windowSize] == Ones(windowSize)
    ensures vec[windowSize..] == old(vec[windowSize..])
  {
    for i := 0 to windowSize
      invariant forall j :: 0 <= j < i ==> vec[j] == 1.0
      invariant vec[windowSize..] == old(vec[windowSize..])
    {
      vec[i] := 1.0;
    }
  }

  /**
   * Which exception the constructor throws, if any; the COLA test runs at the
   * default 1e-5. With hop 0 its floating-point bounds Σw/0 are NaN, the
   * verdict is false and the window is rejected as not COLA.
   */
  function Rejection(frameSize: nat, hop: nat, window: seq<real>, mag: seq<real>): (e: Option<Engine.CtorError>)
    requires Cola.Magnitudes(mag, hop)
    ensures e == None <==>
              frameSize % 2 == 0 && 1 <= hop <= frameSize && |window| == frameSize && NonNegative(window)
              && 2.0 * Cola.Leakage(mag, hop, hop) < Cola.LegacyTolerance
    ensures e == Some(Engine.OddFrameSize) <==> frameSize % 2 != 0
    ensures e == Some(Engine.NotCola) ==> !(hop >= 1 && 2.0 * Cola.Leakage(mag, hop, hop) < Cola.LegacyTolerance)
    ensures hop == 0 && frameSize % 2 == 0 && |window| == frameSize && NonNegative(window) ==>
              e == Some(Engine.NotCola)
  {
    if frameSize % 2 != 0 then Some(Engine.OddFrameSize)
    else if hop > frameSize then Some(Engine.HopTooLarge)
    else if |window| != frameSize then Some(Engine.WindowSizeMismatch)
    else if !NonNegative(window) then Some(Engine.NegativeSample)
    else if !(hop >= 1 && 2.0 * Cola.Leakage(mag, hop, hop) < Cola.LegacyTolerance) then Some(Engine.NotCola)
    else None
  }

  /** The window after the normalization step, which here comes before edge correction. */
  function NormalizedCopy(w: seq<real>, c: real, normalizeWindow: bool): (m: seq<real>)
    requires normalizeWindow ==> c != 0.0
    ensures |m| == |w|
    ensures forall i :: 0 <= i < |w| ==> m[i] == if normalizeWindow then w[i] / c else w[i]
  {
    if normalizeWindow then Scale(w, c) else w
  }

  // ---------------------------------------------------------------------
  // The constructor as written.

  /** The passes i = 1 .. passes with iH <= n: how often the first-window loop adds sample n to itself. */
  function Covered(n: nat, hop: nat, passes: nat): nat
  {
    if passes == 0 then 0 else Covered(n, hop, passes - 1) + (if passes * hop <= n then 1 else 0)
  }

  /** The passes i = 1 .. passes with n + iH < S: how often the last-window loop adds sample n to itself. */
  function Ahead(n: nat, hop: nat, size: nat, passes: nat): nat
  {
    if passes == 0 then 0 else Ahead(n, hop, size, passes - 1) + (if n + passes * hop < size then 1 else 0)
  }

  /** iH <= x exactly when i <= x div H. */
  lemma MulAtMostIff(i: nat, x: nat, hop: nat)
    requires hop >= 1
    ensures i * hop <= x <==> i <= x / hop
  {
    var q := x / hop;
    assert x == q * hop + x % hop;
    if i <= q {
      Frames.MulAtLeast(q - i, hop);
      assert q * hop - i * hop == (q - i) * hop;
    } else {
      Frames.MulAtLeast(i - q - 1, hop);
      assert i * hop - (q + 1) * hop == (i - q - 1) * hop;
    }
  }

  /** After p passes the first-window loop has added sample n to itself min(p, n div H) times. */
  lemma {:induction false} CoveredIsQuotient(n: nat, hop: nat, passes: nat)
    requires hop >= 1
    ensures Covered(n, hop, passes) == if passes <= n / hop then passes else n / hop
  {
    if passes > 0 {
      CoveredIsQuotient(n, hop, passes - 1);
      MulAtMostIff(passes, n, hop);
    }
  }

  /** After p passes the last-window loop has added sample n < S to itself min(p, (S − 1 − n) div H) times. */
  lemma {:induction false} AheadIsQuotient(n: nat, hop: nat, size: nat, passes: nat)
    requires hop >= 1 && n < size
    ensures Ahead(n, hop, size, passes) == if passes <= (size - 1 - n) / hop then passes else (size - 1 - n) / hop
  {
    if passes > 0 {
      AheadIsQuotient(n, hop, size, passes - 1);
      MulAtMostIff(passes, size - 1 - n, hop);
    }
  }

  /** The first-frame window as written: sample n added 1 + n div H times. */
  function UnshiftedPre(m: seq<real>, hop: nat): (r: seq<real>)
    requires hop >= 1
    ensures |r| == |m|
  {
    seq(|m|, n requires 0 <= n < |m| => Times(m[n], 1 + n / hop))
  }

  /** The last-frame window as written: zeros, plus sample n added (S − 1 − n) div H times. */
  function UnshiftedPost(m: seq<real>, hop: nat): (r: seq<real>)
    requires hop >= 1
    ensures |r| == |m|
  {
    seq(|m|, n requires 0 <= n < |m| => Times(m[n], (|m| - 1 - n) / hop))
  }

  /**
   * The windows the constructor stores as written: the first-frame window is
   * copied twice and the last-frame window never, and edge correction adds
   * every sample to itself.
   */
  function AsWrittenWindows(w: seq<real>, hop: nat, mode: Engine.Mode, edgeCorrection: bool, normalizeWindow: bool,
                            c: real, sqrt: real -> real): Engine.Windows
    requires hop >= 1 && (normalizeWindow ==> c != 0.0)
  {
    var m := NormalizedCopy(w, c, normalizeWindow);
    var ws := if edgeCorrection then Engine.Windows(UnshiftedPre(m, hop), m, UnshiftedPost(m, hop))
              else Engine.Windows(m, m, Zeros(|m|));
    Engine.Rooted(ws, mode, sqrt)
  }

  /** `a[n] += w[n]` for start <= n < S: one unshifted first-window pass. */
  method AddFromStart(a: array<real>, w: array<real>, start: nat)
    requires a != w && a.Length == w.Length && start <= a.Length
    modifies a
    ensures forall n :: 0 <= n < a.Length ==> a[n] == old(a[n]) + (if start <= n then w[n] else 0.0)
  {
    for n := start to a.Length
      invariant forall t :: 0 <= t < a.Length ==> a[t] == old(a[t]) + (if start <= t < n then w[t] else 0.0)
    {
      a[n] := a[n] + w[n];
    }
  }

  /** `a[n] += w[n]` for 0 <= n < end: one unshifted last-window pass. */
  method AddBelowEnd(a: array<real>, w: array<real>, end: nat)
    requires a != w && a.Length == w.Length && end <= a.Length
    modifies a
    ensures forall n :: 0 <= n < a.Length ==> a[n] == old(a[n]) + (if n < end then w[n] else 0.0)
  {
    for n := 0 to end
      invariant forall t :: 0 <= t < a.Length ==> a[t] == old(a[t]) + (if t < n then w[t] else 0.0)
    {
      a[n] := a[n] + w[n];
    }
  }

  /** a added to itself k times. */
  function Times(a: real, k: nat): real
  {
    if k == 0 then 0.0 else Times(a, k - 1) + a
  }

  /** Repeated addition is multiplication by the count. */
  lemma {:induction false} TimesIsProduct(a: real, k: nat)
    ensures Times(a, k) == a * (k as real)
  {
    if k > 0 {
      TimesIsProduct(a, k - 1);
      assert a * ((k - 1) as real) + a == a * (k as real);
    }
  }

  /** `a[i] = w[i]` for every i. */
  method CopyInto(a: array<real>, w: array<real>)
    requires a != w && a.Length == w.Length
    modifies a
    ensures a[..] == w[..]
  {
    for i := 0 to a.Length
      invariant forall j :: 0 <= j < i ==> a[j] == w[j]
    {
      a[i] := w[i];
    }
  }

  /** The normalization loop: `m[i] = w[i] / c` or `m[i] = w[i]`, into a fresh buffer. */
  method NormalizeInto(w: seq<real>, c: real, normalizeWindow: bool) returns (m: array<real>)
    requires normalizeWindow ==> c != 0.0
    ensures fresh(m) && m[..] == NormalizedCopy(w, c, normalizeWindow)
  {
    m := new real[|w|];
    for i := 0 to |w|
      invariant forall j :: 0 <= j < i ==> m[j] == NormalizedCopy(w, c, normalizeWindow)[j]
    {
      m[i] := if normalizeWindow then w[i] / c else w[i];
    }
  }

  /** Pass i of the unshifted edge correction: each covered sample is added to itself once more. */
  method UnshiftedPass(pre: array<real>, post: array<real>, m: array<real>, hop: nat, i: nat)
    requires pre != m && post != m && pre != post
    requires pre.Length == post.Length == m.Length && hop >= 1 && 1 <= i && i * hop <= m.Length
    requires forall n :: 0 <= n < m.Length ==> pre[n] == Times(m[n], 1 + Covered(n, hop, i - 1))
    requires forall n :: 0 <= n < m.Length ==> post[n] == Times(m[n], Ahead(n, hop, m.Length, i - 1))
    modifies pre, post
    ensures forall n :: 0 <= n < m.Length ==> pre[n] == Times(m[n], 1 + Covered(n, hop, i))
    ensures forall n :: 0 <= n < m.Length ==> post[n] == Times(m[n], Ahead(n, hop, m.Length, i))
  {
    AddFromStart(pre, m, i * hop);
    AddBelowEnd(post, m, m.Length - i * hop);
    forall n | 0 <= n < m.Length
      ensures pre[n] == Times(m[n], 1 + Covered(n, hop, i))
      ensures post[n] == Times(m[n], Ahead(n, hop, m.Length, i))
    {
      var c := Covered(n, hop, i - 1);
      if i * hop <= n {
        assert Covered(n, hop, i) == c + 1;
      } else {
        assert Covered(n, hop, i) == c;
      }
      var d := Ahead(n, hop, m.Length, i - 1);
      if n + i * hop < m.Length {
        assert Ahead(n, hop, m.Length, i) == d + 1;
      } else {
        assert Ahead(n, hop, m.Length, i) == d;
      }
    }
  }

  /** After all S/H passes the counts are those of the closed forms. */
  lemma UnshiftedComplete(m: seq<real>, hop: nat, n: nat)
    requires hop >= 1 && n < |m|
    ensures Times(m[n], 1 + Covered(n, hop, |m| / hop)) == UnshiftedPre(m, hop)[n]
    ensures Times(m[n], Ahead(n, hop, |m|, |m| / hop)) == UnshiftedPost(m, hop)[n]
  {
    UnshiftedPreComplete(m, hop, n, |m| / hop);
    UnshiftedPostComplete(m, hop, n, |m| / hop);
  }

  lemma UnshiftedPreComplete(m: seq<real>, hop: nat, n: nat, passes: nat)
    requires hop >= 1 && n < |m| && passes == |m| / hop
    ensures Times(m[n], 1 + Covered(n, hop, passes)) == UnshiftedPre(m, hop)[n]
  {
    var q := n / hop;
    Frames.DivMonotone(n, |m|, hop);
    CoveredIsQuotient(n, hop, passes);
    assert Covered(n, hop, passes) == q;
    assert UnshiftedPre(m, hop)[n] == Times(m[n], 1 + q);
  }

  lemma UnshiftedPostComplete(m: seq<real>, hop: nat, n: nat, passes: nat)
    requires hop >= 1 && n < |m| && passes == |m| / hop
    ensures Times(m[n], Ahead(n, hop, |m|, passes)) == UnshiftedPost(m, hop)[n]
  {
    var q := (|m| - 1 - n) / hop;
    Frames.DivMonotone(|m| - 1 - n, |m|, hop);
    AheadIsQuotient(n, hop, |m|, passes);
    assert Ahead(n, hop, |m|, passes) == q;
    assert UnshiftedPost(m, hop)[n] == Times(m[n], q);
  }

  /** The unshifted edge-correction loop over the passes i = 1 .. S/H. */
  method UnshiftedEdgeCorrection(pre: array<real>, post: array<real>, m: array<real>, hop: nat)
    requires pre != m && post != m && pre != post
    requires pre.Length == post.Length == m.Length && 1 <= hop <= m.Length
    requires pre[..] == m[..] && post[..] == Zeros(m.Length)
    modifies pre, post
    ensures pre[..] == UnshiftedPre(m[..], hop) && post[..] == UnshiftedPost(m[..], hop)
  {
    var size := m.Length;
    var i := 1;
    while i < size / hop + 1
      invariant 1 <= i <= size / hop + 1
      invariant forall n :: 0 <= n < size ==> pre[n] == Times(m[n], 1 + Covered(n, hop, i - 1))
      invariant forall n :: 0 <= n < size ==> post[n] == Times(m[n], Ahead(n, hop, size, i - 1))
    {
      Frames.PassesWithin(i, hop, size);
      UnshiftedPass(pre, post, m, hop, i);
      i := i + 1;
    }
    UnshiftedLoopDone(pre[..], post[..], m[..], hop);
  }

  /** Once the loop has made all S/H passes, the buffers hold the closed forms. */
  lemma UnshiftedLoopDone(pre: seq<real>, post: seq<real>, m: seq<real>, hop: nat)
    requires |pre| == |post| == |m| && hop >= 1
    requires forall n :: 0 <= n < |m| ==> pre[n] == Times(m[n], 1 + Covered(n, hop, |m| / hop))
    requires forall n :: 0 <= n < |m| ==> post[n] == Times(m[n], Ahead(n, hop, |m|, |m| / hop))
    ensures pre == UnshiftedPre(m, hop) && post == UnshiftedPost(m, hop)
  {
    forall n | 0 <= n < |m|
      ensures pre[n] == UnshiftedPre(m, hop)[n] && post[n] == UnshiftedPost(m, hop)[n]
    {
      UnshiftedComplete(m, hop, n);
    }
  }

  /** The shifted edge-correction loop of the base library over the passes i = 1 .. S/H. */
  method ShiftedEdgeCorrection(pre: array<real>, post: array<real>, m: array<real>, hop: nat)
    requires pre != m && post != m && pre != post
    requires pre.Length == post.Length == m.Length && 1 <= hop <= m.Length
    requires pre[..] == m[..] && post[..] == m[..]
    modifies pre, post
    ensures pre[..] == Envelopes.PreWindow(m[..], hop) && post[..] == Envelopes.PostWindow(m[..], hop)
  {
    var size := m.Length;
    var i := 1;
    while i < size / hop + 1
      invariant 1 <= i <= size / hop + 1
      invariant forall t :: 0 <= t < size ==> pre[t] == Envelopes.ForwardUpTo(m[..], hop, t, i)
      invariant forall t :: 0 <= t < size ==> post[t] == Envelopes.BackwardUpTo(m[..], hop, t, i)
    {
      Frames.PassesWithin(i, hop, size);
      Engine.AccumulateForward(pre, m, hop, i);
      Engine.AccumulateBackward(post, m, hop, i);
      i := i + 1;
    }
    Frames.PassesWithin(i, hop, size);
    forall t | 0 <= t < size
      ensures pre[t] == Envelopes.PreWindow(m[..], hop)[t] && post[t] == Envelopes.PostWindow(m[..], hop)[t]
    {
      Envelopes.ForwardUpToComplete(m[..], hop, t, i);
      Envelopes.BackwardUpToComplete(m[..], hop, t, i);
    }
  }

  // ---------------------------------------------------------------------
  // The intended constructor.

  /** The windows the constructor evidently means to store: normalize, edge-correct, take roots. */
  function IntendedWindows(w: seq<real>, hop: nat, mode: Engine.Mode, edgeCorrection: bool, normalizeWindow: bool,
                           c: real, sqrt: real -> real): Engine.Windows
    requires hop >= 1 && (normalizeWindow ==> c != 0.0)
  {
    Engine.Rooted(Engine.EdgeCorrected(NormalizedCopy(w, c, normalizeWindow), hop, edgeCorrection), mode, sqrt)
  }

  /**
   * Normalizing before edge correction, as this header does, gives the windows
   * of the base library, which corrects first: the corrected legacy
   * constructor builds the windows for which unsegment inverts segment.
   */
  lemma IntendedIsBaseLibrary(w: seq<real>, hop: nat, mode: Engine.Mode, edgeCorrection: bool,
                              normalizeWindow: bool, sqrt: real -> real)
    requires hop >= 1 && (normalizeWindow ==> Sum(w) != 0.0)
    ensures IntendedWindows(w, hop, mode, edgeCorrection, normalizeWindow, Sum(w) / (hop as real), sqrt)
            == Engine.Adapted(w, hop, mode, edgeCorrection, normalizeWindow, sqrt)
  {
    var c := Sum(w) / (hop as real);
    if normalizeWindow && edgeCorrection {
      assert c != 0.0;
      forall t | 0 <= t < |w|
        ensures Envelopes.PreWindow(Scale(w, c), hop)[t] == Scale(Envelopes.PreWindow(w, hop), c)[t]
        ensures Envelopes.PostWindow(Scale(w, c), hop)[t] == Scale(Envelopes.PostWindow(w, hop), c)[t]
      {
        Envelopes.ForwardScale(w, c, hop, t);
        Envelopes.BackwardScale(w, c, hop, t);
      }
    }
  }

  /** What Create returns, or the exception the constructor throws. */
  datatype Construction = Built(segmenter: LegacySegmenter) | Thrown(error: Engine.CtorError)

  class LegacySegmenter {
    const frameSize: nat
    const hopSize: nat
    const mode: Engine.Mode
    const edgeCorrection: bool
    const normalizeWindow: bool
    const window: array<real>
    const preWindow: array<real>
    const postWindow: array<real>

    /** The three stored windows. */
    function Stored(): Engine.Windows
      reads this, window, preWindow, postWindow
    {
      Engine.Windows(preWindow[..], window[..], postWindow[..])
    }

    /**
     * The constructor body after its checks, as written: normalize into the
     * window, copy it into the first-frame window twice (the last-frame window
     * keeps its zero initialization), run the unshifted edge-correction
     * passes, then take roots in WOLA mode.
     */
    constructor AsWritten(frameSize: nat, hopSize: nat, w: seq<real>, mode: Engine.Mode, edgeCorrection: bool,
                          normalizeWindow: bool, normalization: real, sqrt: real -> real)
      requires 1 <= hopSize <= frameSize && |w| == frameSize && (normalizeWindow ==> normalization != 0.0)
      ensures Stored() == AsWrittenWindows(w, hopSize, mode, edgeCorrection, normalizeWindow, normalization, sqrt)
      ensures this.frameSize == frameSize && this.hopSize == hopSize && this.mode == mode
      ensures this.edgeCorrection == edgeCorrection && this.normalizeWindow == normalizeWindow
    {
      var m := NormalizeInto(w, normalization, normalizeWindow);
      var pre := new real[frameSize];
      CopyInto(pre, m);
      var post := new real[frameSize](i => 0.0);
      assert post[..] == Zeros(frameSize);
      // the second copy loop writes the first-frame window again
      CopyInto(pre, m);
      if edgeCorrection {
        UnshiftedEdgeCorrection(pre, post, m, hopSize);
      }
      if mode == Engine.WOLA {
        Engine.RootInPlace(m, sqrt);
        Engine.RootInPlace(pre, sqrt);
        Engine.RootInPlace(post, sqrt);
      }
      this.frameSize := frameSize;
      this.hopSize := hopSize;
      this.mode := mode;
      this.edgeCorrection := edgeCorrection;
      this.normalizeWindow := normalizeWindow;
      window := m;
      preWindow := pre;
      postWindow := post;
    }

    /**
     * The constructor body after its checks, corrected: the last-frame window is
     * copied from the window and the passes add the window shifted by iH.
     */
    constructor(frameSize: nat, hopSize: nat, w: seq<real>, mode: Engine.Mode, edgeCorrection: bool,
                normalizeWindow: bool, normalization: real, sqrt: real -> real)
      requires 1 <= hopSize <= frameSize && |w| == frameSize && (normalizeWindow ==> normalization != 0.0)
      ensures Stored() == IntendedWindows(w, hopSize, mode, edgeCorrection, normalizeWindow, normalization, sqrt)
      ensures this.frameSize == frameSize && this.hopSize == hopSize && this.mode == mode
      ensures this.edgeCorrection == edgeCorrection && this.normalizeWindow == normalizeWindow
    {
      var m := NormalizeInto(w, normalization, normalizeWindow);
      var pre := new real[frameSize];
      CopyInto(pre, m);
      var post := new real[frameSize];
      CopyInto(post, m);
      if edgeCorrection {
        ShiftedEdgeCorrection(pre, post, m, hopSize);
      }
      if mode == Engine.WOLA {
        Engine.RootInPlace(m, sqrt);
        Engine.RootInPlace(pre, sqrt);
        Engine.RootInPlace(post, sqrt);
      }
      this.frameSize := frameSize;
      this.hopSize := hopSize;
      this.mode := mode;
      this.edgeCorrection := edgeCorrection;
      this.normalizeWindow := normalizeWindow;
      window := m;
      preWindow := pre;
      postWindow := post;
    }

    /**
     * The constructor `Segmenter(frameSize, hopSize, window, windowSize, mode,
     * edgeCorrection, normalizeWindow)`: the checks in order, the COLA test of
     * the given window at the default tolerance, then the corrected body with
     * the normalization Σw/H. Frame size 0 with hop 0 and an empty window
     * passes every check and makes the COLA test read an empty buffer, which
     * is undefined behaviour; that one input is excluded.
     */
    static method Create(frameSize: nat, hopSize: nat, window: seq<real>, mode: Engine.Mode,
                         edgeCorrection: bool, normalizeWindow: bool, mag: seq<real>, sqrt: real -> real)
      returns (r: Construction)
      requires Cola.Magnitudes(mag, hopSize) && (frameSize >= 1 || hopSize >= 1 || |window| >= 1)
      requires normalizeWindow && Rejection(frameSize, hopSize, window, mag) == None ==> Sum(window) != 0.0
      ensures r.Thrown? <==> Rejection(frameSize, hopSize, window, mag).Some?
      ensures r.Thrown? ==> r.error == Rejection(frameSize, hopSize, window, mag).value
      ensures r.Built? ==>
                fresh(r.segmenter) && r.segmenter.frameSize == frameSize && r.segmenter.hopSize == hopSize
                && r.segmenter.Stored() == Engine.Adapted(window, hopSize, mode, edgeCorrection, normalizeWindow, sqrt)
    {
      if frameSize % 2 != 0 {
        return Thrown(Engine.OddFrameSize);
      }
      if hopSize > frameSize {
        return Thrown(Engine.HopTooLarge);
      }
      if |window| != frameSize {
        return Thrown(Engine.WindowSizeMismatch);
      }
      for i := 0 to |window|
        invariant forall j :: 0 <= j < i ==> window[j] >= 0.0
      {
        if window[i] < 0.0 {
          return Thrown(Engine.NegativeSample);
        }
      }
      var cola := Cola.CheckColaLegacy(window, hopSize, mag, Cola.LegacyTolerance);
      if !cola.isCola {
        return Thrown(Engine.NotCola);
      }
      var s := new LegacySegmenter(frameSize, hopSize, window, mode, edgeCorrection, normalizeWindow,
                                   cola.normalizationValue, sqrt);
      IntendedIsBaseLibrary(window, hopSize, mode, edgeCorrection, normalizeWindow, sqrt);
      r := Built(s);
    }
  }

  // ---------------------------------------------------------------------
  // The two defects, on concrete windows.

  /** Without edge correction the last-frame window as written is all zeros instead of the window. */
  lemma PostWindowNeverCopied(sqrt: real -> real)
    ensures AsWrittenWindows([1.0, 1.0], 1, Engine.OLA, false, false, 1.0, sqrt).post == [0.0, 0.0]
    ensures IntendedWindows([1.0, 1.0], 1, Engine.OLA, false, false, 1.0, sqrt).post == [1.0, 1.0]
  {
  }

  /**
   * S = 4, H = 2, w = [0, 1, 1, 0]: the unshifted passes give the first-frame
   * window [0, 1, 2, 0] and the last-frame window [0, 1, 0, 0], while the
   * shift sums are [1, 1, 1, 0] and [0, 1, 1, 1].
   */
  lemma EdgeCorrectionUnshifted(sqrt: real -> real)
    ensures AsWrittenWindows([0.0, 1.0, 1.0, 0.0], 2, Engine.OLA, true, false, 1.0, sqrt)
            == Engine.Windows([0.0, 1.0, 2.0, 0.0], [0.0, 1.0, 1.0, 0.0], [0.0, 1.0, 0.0, 0.0])
    ensures IntendedWindows([0.0, 1.0, 1.0, 0.0], 2, Engine.OLA, true, false, 1.0, sqrt)
            == Engine.Windows([1.0, 1.0, 1.0, 0.0], [0.0, 1.0, 1.0, 0.0], [0.0, 1.0, 1.0, 1.0])
  {
    ExampleUnshifted();
    ExampleShifted();
  }

  lemma ExampleUnshifted()
    ensures UnshiftedPre([0.0, 1.0, 1.0, 0.0], 2) == [0.0, 1.0, 2.0, 0.0]
    ensures UnshiftedPost([0.0, 1.0, 1.0, 0.0], 2) == [0.0, 1.0, 0.0, 0.0]
  {
    var w := [0.0, 1.0, 1.0, 0.0];
    assert UnshiftedPre(w, 2)[2] == Times(1.0, 2) == 2.0;
    assert UnshiftedPost(w, 2)[1] == Times(1.0, 1) == 1.0;
  }

  lemma ExampleShifted()
    ensures Envelopes.PreWindow([0.0, 1.0, 1.0, 0.0], 2) == [1.0, 1.0, 1.0, 0.0]
    ensures Envelopes.PostWindow([0.0, 1.0, 1.0, 0.0], 2) == [0.0, 1.0, 1.0, 1.0]
  {
    var w := [0.0, 1.0, 1.0, 0.0];
    assert Envelopes.Forward(w, 2, 0) == 1.0;
    assert Envelopes.Forward(w, 2, 1) == 1.0;
    assert Envelopes.Forward(w, 2, 2) == 1.0;
    assert Envelopes.Forward(w, 2, 3) == 0.0;
    assert Envelopes.Backward(w, 2, 0) == 0.0;
    assert Envelopes.Backward(w, 2, 1) == 1.0;
    assert Envelopes.Backward(w, 2, 2) == 1.0;
    assert Envelopes.Backward(w, 2, 3) == 1.0;
  }
}
