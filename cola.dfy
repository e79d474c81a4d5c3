/**
 * The Constant OverLap-Add (COLA) bound computation shared by every port:
 * libsegmenter/base/Cola.hpp, src/libsegmenter/util/check_cola.py,
 * checkCola.py and the checkCola of the legacy libsegmenter/Segmenter.hpp.
 *
 * The magnitude |W(k/H)| of the window's discrete-time Fourier transform at
 * each partial frame rate is taken as an input `mag` (mag[k] for 1 <= k < H,
 * all non-negative); the complex sinusoid buffers that produce it are not
 * modelled.
 */
module Cola {
  import opened Samples
  import opened Wrappers

  /** The result record of the C++ base library and of check_cola. */
  datatype ColaResult = ColaResult(isCola: bool, normalizationValue: real, epsilon: real)

  /** The result record of the legacy header: no epsilon field. */
  datatype LegacyColaResult = LegacyColaResult(isCola: bool, normalizationValue: real)

  /** Admissible transform magnitudes for a hop: one non-negative value per partial rate. */
  predicate Magnitudes(mag: seq<real>, hop: nat)
  {
    |mag| == hop && forall k :: 0 <= k < |mag| ==> mag[k] >= 0.0
  }

  /** Half-width accumulated by the bounds after the harmonics 1 .. k-1: the sum of mag[j]/H. */
  function Leakage(mag: seq<real>, hop: nat, k: nat): real
    requires hop >= 1 && k <= |mag|
  {
    if k <= 1 then 0.0 else Leakage(mag, hop, k - 1) + mag[k - 1] / (hop as real)
  }

  /** The half-width never shrinks: it is non-negative and grows with every harmonic. */
  lemma {:induction false} LeakageGrows(mag: seq<real>, hop: nat, k: nat)
    requires hop >= 1 && Magnitudes(mag, hop) && k <= hop
    ensures Leakage(mag, hop, k) >= 0.0
    ensures k >= 2 ==> Leakage(mag, hop, k) >= Leakage(mag, hop, k - 1)
  {
    if k >= 2 {
      LeakageGrows(mag, hop, k - 1);
      assert mag[k - 1] / (hop as real) >= 0.0;
    }
  }

  /**
   * checkCola of libsegmenter/base/Cola.hpp: the upper and lower bound start at
   * the mean overlap Σw/H and move apart by |W_k|/H per harmonic. With hop 0
   * the mean overlap Σw/0 is infinite or NaN, so ub − lb is NaN and the strict
   * comparison with eps fails. An empty window, whose accumulator has no
   * first entry to read, is excluded.
   */
  method CheckCola(window: seq<real>, hop: nat, mag: seq<real>, eps: real) returns (r: ColaResult)
    requires |window| >= 1 && Magnitudes(mag, hop)
    ensures hop == 0 ==> !r.isCola
    ensures hop >= 1 ==> r.normalizationValue == Sum(window) / (hop as real)
    ensures hop >= 1 ==> r.epsilon == 2.0 * Leakage(mag, hop, hop) && r.epsilon >= 0.0
    ensures hop >= 1 ==> (r.isCola <==> r.epsilon < eps)
    ensures hop == 1 ==> r.epsilon == 0.0 && (eps > 0.0 ==> r.isCola)
  {
    if hop == 0 {
      // the NaN bounds are not real numbers: only the verdict is modelled
      return ColaResult(false, 0.0, 0.0);
    }
    var h := hop as real;
    var factor := 0.0;
    for i := 0 to |window|
      invariant factor == Sum(window[..i])
    {
      assert window[..i + 1][..i] == window[..i];
      factor := factor + window[i];
    }
    assert window[..|window|] == window;
    factor := factor / h;

    // the accumulator is filled with the mean overlap; only its first entry is read
    var n := 6 * |window|;
    var sp := new real[n];
    for i := 0 to n
      invariant forall j :: 0 <= j < i ==> sp[j] == factor
    {
      sp[i] := factor;
    }
    var ubound := sp[0];
    var lbound := sp[0];

    for k := 1 to hop
      invariant ubound == factor + Leakage(mag, hop, k)
      invariant lbound == factor - Leakage(mag, hop, k)
    {
      var wfb := mag[k];
      ubound := ubound + wfb / h;
      lbound := lbound - wfb / h;
    }
    LeakageGrows(mag, hop, hop);
    r := ColaResult(ubound - lbound < eps, (ubound + lbound) / 2.0, ubound - lbound);
  }

  /** The exceptions the Python COLA tests raise. */
  datatype ColaError =
    | ZeroDivision  // ZeroDivisionError: the window sum divided by hop_size 0
    | EmptyWindow   // IndexError: sp[0] of the empty accumulator of an empty window

  /**
   * check_cola of src/libsegmenter/util/check_cola.py: the same bounds as a
   * triple. Dividing the window sum by hop 0 raises first; an empty window then
   * raises when the first entry of its empty accumulator is read.
   */
  method CheckColaTriple(window: seq<real>, hop: nat, mag: seq<real>, eps: real)
    returns (err: Option<ColaError>, isCola: bool, normalization: real, epsilon: real)
    requires Magnitudes(mag, hop)
    ensures err == Some(ZeroDivision) <==> hop == 0
    ensures err == Some(EmptyWindow) <==> hop >= 1 && |window| == 0
    ensures err.None? ==> normalization == Sum(window) / (hop as real)
    ensures err.None? ==> epsilon == 2.0 * Leakage(mag, hop, hop) && epsilon >= 0.0
    ensures err.None? ==> (isCola <==> epsilon < eps)
    ensures err.None? && hop == 1 ==> isCola == (0.0 < eps) && normalization == Sum(window) && epsilon == 0.0
  {
    if hop == 0 {
      return Some(ZeroDivision), false, 0.0, 0.0;
    }
    if |window| == 0 {
      return Some(EmptyWindow), false, 0.0, 0.0;
    }
    var r := CheckCola(window, hop, mag, eps);
    err, isCola, normalization, epsilon := None, r.isCola, r.normalizationValue, r.epsilon;
  }

  /** The fixed strict tolerance of checkCola.py. */
  const LegacyTolerance: real := 0.00001

  /**
   * checkCola of checkCola.py: a plain boolean at the fixed tolerance 1e-5.
   * numpy divides by a float32 hop 0 without raising, so hop 0 gives NaN
   * bounds and False; an empty window raises when sp[0] is read.
   */
  method CheckColaBool(window: seq<real>, hop: nat, mag: seq<real>) returns (err: Option<ColaError>, ok: bool)
    requires Magnitudes(mag, hop)
    ensures err.Some? <==> |window| == 0
    ensures err.Some? ==> err == Some(EmptyWindow)
    ensures err.None? ==> (ok <==> hop >= 1 && 2.0 * Leakage(mag, hop, hop) < LegacyTolerance)
    ensures err.None? && hop == 1 ==> ok
  {
    if |window| == 0 {
      return Some(EmptyWindow), false;
    }
    var r := CheckCola(window, hop, mag, LegacyTolerance);
    err, ok := None, r.isCola;
  }

  /**
   * checkCola of the legacy libsegmenter/Segmenter.hpp: the verdict and the
   * normalization only; hop 0 makes the bounds NaN and the verdict false.
   */
  method CheckColaLegacy(window: seq<real>, hop: nat, mag: seq<real>, eps: real) returns (r: LegacyColaResult)
    requires |window| >= 1 && Magnitudes(mag, hop)
    ensures hop == 0 ==> !r.isCola
    ensures hop >= 1 ==> r.normalizationValue == Sum(window) / (hop as real)
    ensures hop >= 1 ==> (r.isCola <==> 2.0 * Leakage(mag, hop, hop) < eps)
    ensures hop == 1 && eps > 0.0 ==> r.isCola
  {
    var full := CheckCola(window, hop, mag, eps);
    r := LegacyColaResult(full.isCola, full.normalizationValue);
  }
}
