/**
 * `windowObjectNumpy.__init__` of libsegmenter/windowObjectNumpy.py: the
 * analysis and synthesis windows of a window scheme and a reconstruction
 * scheme.
 *
 * Hop size 0 asks for a symmetric scheme (Hann or rectangular window, derived
 * hop, window divided by its check_cola normalization Σw/H); a non-zero hop
 * asks for the asymmetric Hann pair. The Hann samples are an input:
 * `hann(n)` stands for the n samples 0.5·(1 − cos(2πm/n)), m < n, which both
 * `_hann` and `_inlineHann` evaluate.
 */
module WindowObjects {
  import opened Samples
  import opened Wrappers
  import Envelopes
  import RectangularWindows

  /** The exceptions the constructor raises, and the window it cannot make finite. */
  datatype WindowError =
    | OddLength                  // ValueError: hann50 with odd S
    | NotMultipleOf4             // ValueError: hann75 with S not divisible by 4
    | UnknownWindowScheme        // ValueError: no valid window_name
    | UnknownReconstruction      // ValueError: only analysisonly, ola and wola
    | ZeroHop                    // ZeroDivisionError inside check_cola
    | EmptyWindow                // IndexError inside check_cola: sp[0] of an empty buffer
    | NotDivisibleByHop          // ValueError: S mod hop != 0
    | SynthesisNotDivisibleByHop // ValueError: synthesis size mod hop != 0
    | SynthesisTooLong           // ValueError: synthesis size > S
    | UndefinedHann              // NameError: asymmetric ola calls an unimported `hann`
    | NonFiniteWindow            // a zero divisor: numpy yields inf/nan samples

  datatype Result<T> = Ok(value: T) | Err(error: WindowError)

  /**
   * The attributes the constructor sets. A window is None here both when the
   * constructor sets it to None (the analysisonly synthesis window; using it
   * raises TypeError) and when it never sets it (an unknown asymmetric
   * scheme; reading it raises AttributeError).
   */
  datatype WindowObject = WindowObject(analysis: Option<seq<real>>, synthesis: Option<seq<real>>, hop: nat)

  /** The Hann formula yields n samples for length n. */
  ghost predicate HannLengths(hann: nat -> seq<real>)
  {
    forall n: nat :: |hann(n)| == n
  }

  /** The Hann formula's samples are non-negative. */
  ghost predicate HannNonNegative(hann: nat -> seq<real>)
  {
    forall n: nat :: NonNegative(hann(n))
  }

  /** The window and hop of a symmetric window scheme. */
  function SymmetricWindow(size: nat, scheme: string, hann: nat -> seq<real>): (r: Result<(seq<real>, nat)>)
    ensures scheme == "hann50" ==> (r.Ok? <==> size % 2 == 0) && (r.Err? ==> r.error == OddLength)
    ensures scheme == "hann75" ==> (r.Ok? <==> size % 4 == 0) && (r.Err? ==> r.error == NotMultipleOf4)
    ensures (scheme == "hann50" || scheme == "hann75") && r.Ok? ==>
              r.value.0 == hann(size) && r.value.1 * (if scheme == "hann50" then 2 else 4) == size
    ensures scheme == "rectangular0" ==> r == Ok((RectangularWindows.Rectangular(size), size))
    ensures scheme == "rectangular50" ==> r == Ok(RectangularWindows.Rectangular50(size))
    ensures scheme !in {"hann50", "hann75", "rectangular0", "rectangular50"} ==> r == Err(UnknownWindowScheme)
  {
    if scheme == "hann50" then
      if size % 2 != 0 then Err(OddLength) else Ok((hann(size), size / 2))
    else if scheme == "hann75" then
      if size % 4 != 0 then Err(NotMultipleOf4) else Ok((hann(size), size / 4))
    else if scheme == "rectangular0" then
      Ok((Ones(size), size))
    else if scheme == "rectangular50" then
      Ok((Ones(size), size / 2))
    else
      Err(UnknownWindowScheme)
  }

  predicate KnownReconstruction(scheme: string)
  {
    scheme == "analysisonly" || scheme == "ola" || scheme == "wola"
  }

  /** The window divided by its check_cola normalization Σw/H: its samples then sum to H. */
  function Normalized(w: seq<real>, hop: nat): (r: seq<real>)
    requires hop >= 1 && Sum(w) != 0.0
    ensures |r| == |w| && Sum(r) == hop as real
  {
    var c := Sum(w) / (hop as real);
    SumScale(w, c);
    assert Sum(w) / c == hop as real;
    Scale(w, c)
  }

  /** A window that is exactly COLA at some constant is exactly COLA at one once normalized. */
  lemma NormalizedIsCola(w: seq<real>, hop: nat, k: real)
    requires hop >= 1 && Sum(w) != 0.0 && Envelopes.ExactCola(w, hop, k)
    ensures Envelopes.ExactCola(Normalized(w, hop), hop, 1.0)
  {
    var c := Sum(w) / (hop as real);
    Envelopes.ColaConstantIsMeanOverlap(w, hop, k);
    Envelopes.ColaScale(w, hop, k, c);
    assert k / c == 1.0;
  }

  /** The windows of each reconstruction scheme, given the normalized window. */
  function Assign(size: nat, normalized: seq<real>, hop: nat, reconstruction: string, sqrt: real -> real): (o: WindowObject)
    requires KnownReconstruction(reconstruction)
    ensures o.hop == hop
    ensures reconstruction == "analysisonly" ==> o.analysis == Some(normalized) && o.synthesis == None
    ensures reconstruction == "ola" ==> o.analysis == Some(Ones(size)) && o.synthesis == Some(normalized)
    ensures reconstruction == "wola" ==> o.analysis == o.synthesis == Some(Roots(normalized, sqrt))
  {
    if reconstruction == "analysisonly" then WindowObject(Some(normalized), None, hop)
    else if reconstruction == "ola" then WindowObject(Some(Ones(size)), Some(normalized), hop)
    else WindowObject(Some(Roots(normalized, sqrt)), Some(Roots(normalized, sqrt)), hop)
  }

  /** The symmetric branch: derive the hop, normalize by Σw/H, then assign the windows. */
  function Symmetric(size: nat, windowScheme: string, reconstruction: string,
                     hann: nat -> seq<real>, sqrt: real -> real): (r: Result<WindowObject>)
    ensures var s := SymmetricWindow(size, windowScheme, hann);
            r.Ok? <==> s.Ok? && s.value.1 >= 1 && KnownReconstruction(reconstruction) && Sum(s.value.0) != 0.0
    ensures var s := SymmetricWindow(size, windowScheme, hann);
            r.Err? ==> r.error == (if s.Err? then s.error
                                   else if s.value.1 == 0 then ZeroHop
                                   else if !KnownReconstruction(reconstruction) then UnknownReconstruction
                                   else NonFiniteWindow)
    ensures var s := SymmetricWindow(size, windowScheme, hann);
            r.Ok? ==> r.value == Assign(size, Normalized(s.value.0, s.value.1), s.value.1, reconstruction, sqrt)
  {
    var s := SymmetricWindow(size, windowScheme, hann);
    if s.Err? then Err(s.error)
    else
      var (w, hop) := s.value;
      if hop == 0 then Err(ZeroHop)
      else if !KnownReconstruction(reconstruction) then Err(UnknownReconstruction)
      else if Sum(w) == 0.0 then Err(NonFiniteWindow)
      else Ok(Assign(size, Normalized(w, hop), hop, reconstruction, sqrt))
  }

  /** The analysis pair over the long Hann samples (length 2KM) and the short ones (length 2M). */
  function AnalysisOf(long: seq<real>, short: seq<real>, m: nat, km: nat, sqrt: real -> real): (a: seq<real>)
    requires |long| == 2 * km && |short| == 2 * m && m <= km
    ensures |a| == km + m
  {
    Roots(long[..km - m], sqrt) + Roots(long[km..km + m], sqrt) + Roots(short[m..], sqrt)
  }

  /** The denominators √long[KM + j] of the rising synthesis part are all non-zero. */
  predicate RisingFinite(long: seq<real>, m: nat, km: nat, sqrt: real -> real)
    requires |long| == 2 * km && m <= km
  {
    forall i :: km <= i < km + m ==> sqrt(long[i]) != 0.0
  }

  /** The synthesis pair before normalization: zeros, short/√long, then √ of the short falling half. */
  function SynthesisOf(long: seq<real>, short: seq<real>, m: nat, km: nat, sqrt: real -> real): (f: seq<real>)
    requires |long| == 2 * km && |short| == 2 * m && m <= km && RisingFinite(long, m, km, sqrt)
    ensures |f| == km + m
    ensures forall i :: 0 <= i < km - m ==> f[i] == 0.0
  {
    var rising := seq(m, j requires 0 <= j < m => short[j] / sqrt(long[km + j]));
    Zeros(km - m) + rising + Roots(short[m..], sqrt)
  }

  /** M = synthesis size div 2. */
  function HalfSynthesis(synthesisSize: nat): nat
  {
    synthesisSize / 2
  }

  /** The asymmetric analysis window of `windowObjectNumpy`. */
  function AsymmetricAnalysis(size: nat, synthesisSize: nat, hann: nat -> seq<real>, sqrt: real -> real): (a: seq<real>)
    requires HannLengths(hann) && synthesisSize <= size
    ensures |a| == size
  {
    var m := HalfSynthesis(synthesisSize);
    AnalysisOf(hann(2 * (size - m)), hann(2 * m), m, size - m, sqrt)
  }

  predicate FiniteSynthesis(size: nat, synthesisSize: nat, hann: nat -> seq<real>, sqrt: real -> real)
    requires HannLengths(hann) && synthesisSize <= size
  {
    var m := HalfSynthesis(synthesisSize);
    RisingFinite(hann(2 * (size - m)), m, size - m, sqrt)
  }

  /** The asymmetric synthesis window of `windowObjectNumpy` before normalization; its first S − 2M samples are zero. */
  function AsymmetricSynthesis(size: nat, synthesisSize: nat, hann: nat -> seq<real>, sqrt: real -> real): (f: seq<real>)
    requires HannLengths(hann) && synthesisSize <= size && FiniteSynthesis(size, synthesisSize, hann, sqrt)
    ensures |f| == size
    ensures forall i :: 0 <= i < size - 2 * HalfSynthesis(synthesisSize) ==> f[i] == 0.0
  {
    var m := HalfSynthesis(synthesisSize);
    SynthesisOf(hann(2 * (size - m)), hann(2 * m), m, size - m, sqrt)
  }

  /** The asymmetric branch. */
  function Asymmetric(size: nat, reconstruction: string, hop: nat, synthesisSize: nat,
                      hann: nat -> seq<real>, sqrt: real -> real): (r: Result<WindowObject>)
    requires hop >= 1 && HannLengths(hann)
    ensures size % hop != 0 ==> r == Err(NotDivisibleByHop)
    ensures size % hop == 0 && synthesisSize % hop != 0 ==> r == Err(SynthesisNotDivisibleByHop)
    ensures size % hop == 0 && synthesisSize % hop == 0 && size < synthesisSize ==> r == Err(SynthesisTooLong)
    ensures r.Ok? ==> size % hop == 0 && synthesisSize % hop == 0 && synthesisSize <= size && r.value.hop == hop
    ensures size % hop == 0 && synthesisSize % hop == 0 && synthesisSize <= size ==>
              (reconstruction == "ola" ==> r == Err(UndefinedHann))
              && (reconstruction != "ola" && reconstruction != "wola" ==> r == Ok(WindowObject(None, None, hop)))
    ensures r.Ok? && reconstruction == "wola" ==>
              FiniteSynthesis(size, synthesisSize, hann, sqrt) && size >= 1
              && var product := Mul(AsymmetricAnalysis(size, synthesisSize, hann, sqrt),
                                    AsymmetricSynthesis(size, synthesisSize, hann, sqrt));
                 Sum(product) != 0.0
                 && r.value == WindowObject(Some(AsymmetricAnalysis(size, synthesisSize, hann, sqrt)),
                                            Some(Scale(AsymmetricSynthesis(size, synthesisSize, hann, sqrt),
                                                       Sum(product) / (hop as real))), hop)
  {
    if size % hop != 0 then Err(NotDivisibleByHop)
    else if synthesisSize % hop != 0 then Err(SynthesisNotDivisibleByHop)
    else if size < synthesisSize then Err(SynthesisTooLong)
    else if reconstruction == "ola" then Err(UndefinedHann)
    else if reconstruction != "wola" then Ok(WindowObject(None, None, hop))
    else if !FiniteSynthesis(size, synthesisSize, hann, sqrt) then Err(NonFiniteWindow)
    else
      var analysis := AsymmetricAnalysis(size, synthesisSize, hann, sqrt);
      var synthesis := AsymmetricSynthesis(size, synthesisSize, hann, sqrt);
      var total := Sum(Mul(analysis, synthesis));
      if size == 0 then Err(EmptyWindow)
      else if total == 0.0 then Err(NonFiniteWindow)
      else Ok(WindowObject(Some(analysis), Some(Scale(synthesis, total / (hop as real))), hop))
  }

  /** `windowObjectNumpy(segment_size, window_scheme, reconstruction_scheme, hop_size, synthesis_segment_size)`. */
  function WindowObjectNumpy(size: nat, windowScheme: string, reconstruction: string, hop: nat, synthesisSize: nat,
                             hann: nat -> seq<real>, sqrt: real -> real): (r: Result<WindowObject>)
    requires HannLengths(hann)
    ensures hop == 0 ==> r == Symmetric(size, windowScheme, reconstruction, hann, sqrt)
    ensures hop != 0 ==> r == Asymmetric(size, reconstruction, hop, synthesisSize, hann, sqrt)
    ensures r.Ok? ==> r.value.hop >= 1 && (hop != 0 ==> r.value.hop == hop)
  {
    if hop == 0 then Symmetric(size, windowScheme, reconstruction, hann, sqrt)
    else Asymmetric(size, reconstruction, hop, synthesisSize, hann, sqrt)
  }

  // ---------------------------------------------------------------------
  // What the windows multiply to.

  /** The window that analysis·synthesis multiply to, when both are present. */
  function Product(o: WindowObject): seq<real>
    requires o.analysis.Some? && o.synthesis.Some? && |o.analysis.value| == |o.synthesis.value|
  {
    Mul(o.analysis.value, o.synthesis.value)
  }

  /** In ola and wola the two windows multiply to the normalized window, whose samples sum to the hop. */
  lemma SymmetricProduct(size: nat, windowScheme: string, reconstruction: string,
                         hann: nat -> seq<real>, sqrt: real -> real)
    requires HannLengths(hann) && HannNonNegative(hann) && IsSqrt(sqrt)
    requires reconstruction == "ola" || reconstruction == "wola"
    requires Symmetric(size, windowScheme, reconstruction, hann, sqrt).Ok?
    ensures var o := Symmetric(size, windowScheme, reconstruction, hann, sqrt).value;
            var s := SymmetricWindow(size, windowScheme, hann).value;
            o.analysis.Some? && o.synthesis.Some? && |o.analysis.value| == |o.synthesis.value| == size
            && Product(o) == Normalized(s.0, s.1) && Sum(Product(o)) == o.hop as real
  {
    var (w, hop) := SymmetricWindow(size, windowScheme, hann).value;
    var normalized := Normalized(w, hop);
    assert |w| == size;
    if reconstruction == "ola" {
      MulOnes(normalized);
    } else {
      assert NonNegative(w) by {
        if windowScheme == "hann50" || windowScheme == "hann75" {
          assert NonNegative(hann(size));
        }
      }
      SumNonNegative(w);
      var c := Sum(w) / (hop as real);
      assert c > 0.0;
      assert NonNegative(normalized);
      RootsSquare(normalized, sqrt);
    }
  }

  /**
   * The rectangular schemes are exactly COLA after normalization: rectangular0
   * always, rectangular50 for even S. With ola or wola their windows overlap-add to one.
   */
  lemma RectangularObjectsAreCola(size: nat, windowScheme: string, reconstruction: string,
                                  hann: nat -> seq<real>, sqrt: real -> real)
    requires HannLengths(hann) && HannNonNegative(hann) && IsSqrt(sqrt)
    requires reconstruction == "ola" || reconstruction == "wola"
    requires windowScheme == "rectangular0" || (windowScheme == "rectangular50" && size % 2 == 0)
    requires size >= 2
    ensures Symmetric(size, windowScheme, reconstruction, hann, sqrt).Ok?
    ensures var o := Symmetric(size, windowScheme, reconstruction, hann, sqrt).value;
            o.analysis.Some? && o.synthesis.Some? && |o.analysis.value| == |o.synthesis.value|
            && Envelopes.ExactCola(Product(o), o.hop, 1.0)
  {
    var (w, hop) := SymmetricWindow(size, windowScheme, hann).value;
    assert w == Ones(size);
    SumOnes(size);
    if windowScheme == "rectangular0" {
      RectangularWindows.Rectangular0IsCola(size);
      NormalizedIsCola(w, hop, 1.0);
    } else {
      RectangularWindows.Rectangular50Cola(size, 0.0);
      NormalizedIsCola(w, hop, 2.0);
    }
    SymmetricProduct(size, windowScheme, reconstruction, hann, sqrt);
  }

  lemma ConcatAt(x: seq<real>, y: seq<real>, z: seq<real>, i: int)
    requires 0 <= i < |x| + |y| + |z|
    ensures (x + y + z)[i] == if i < |x| then x[i] else if i < |x| + |y| then y[i - |x|] else z[i - |x| - |y|]
  {
  }

  lemma SqrtSquare(sqrt: real -> real, a: real)
    requires IsSqrt(sqrt) && a >= 0.0
    ensures sqrt(a) * sqrt(a) == a
  {
  }

  lemma CancelRoot(sqrt: real -> real, a: real, b: real)
    requires IsSqrt(sqrt) && a >= 0.0 && sqrt(a) != 0.0
    ensures sqrt(a) * (b / sqrt(a)) == b
  {
  }

  /** Sample i of the analysis pair: √long on the first KM samples, then √ of the short falling half. */
  lemma AnalysisAt(long: seq<real>, short: seq<real>, m: nat, km: nat, sqrt: real -> real, i: int)
    requires |long| == 2 * km && |short| == 2 * m && m <= km && 0 <= i < km + m
    ensures AnalysisOf(long, short, m, km, sqrt)[i]
            == if i < km - m then sqrt(long[i]) else if i < km then sqrt(long[i + m]) else sqrt(short[i - km + m])
  {
    ConcatAt(Roots(long[..km - m], sqrt), Roots(long[km..km + m], sqrt), Roots(short[m..], sqrt), i);
  }

  /** Sample i of the synthesis pair: zero, then short/√long, then √ of the short falling half. */
  lemma SynthesisAt(long: seq<real>, short: seq<real>, m: nat, km: nat, sqrt: real -> real, i: int)
    requires |long| == 2 * km && |short| == 2 * m && m <= km && RisingFinite(long, m, km, sqrt) && 0 <= i < km + m
    ensures SynthesisOf(long, short, m, km, sqrt)[i]
            == if i < km - m then 0.0 else if i < km then short[i - km + m] / sqrt(long[i + m]) else sqrt(short[i - km + m])
  {
    var rising := seq(m, j requires 0 <= j < m => short[j] / sqrt(long[km + j]));
    ConcatAt(Zeros(km - m), rising, Roots(short[m..], sqrt), i);
  }

  /** Pointwise: each analysis·synthesis sample is the corresponding sample of zeros ++ short. */
  lemma ProductOfAt(long: seq<real>, short: seq<real>, m: nat, km: nat, sqrt: real -> real, i: int)
    requires |long| == 2 * km && |short| == 2 * m && m <= km && RisingFinite(long, m, km, sqrt)
    requires IsSqrt(sqrt) && NonNegative(long) && NonNegative(short) && 0 <= i < km + m
    ensures AnalysisOf(long, short, m, km, sqrt)[i] * SynthesisOf(long, short, m, km, sqrt)[i]
            == (Zeros(km - m) + short)[i]
  {
    AnalysisAt(long, short, m, km, sqrt, i);
    SynthesisAt(long, short, m, km, sqrt, i);
    if i < km - m {
    } else if i < km {
      assert long[i + m] >= 0.0;
      CancelRoot(sqrt, long[i + m], short[i - km + m]);
    } else {
      assert short[i - km + m] >= 0.0;
      SqrtSquare(sqrt, short[i - km + m]);
    }
  }

  lemma ProductOf(long: seq<real>, short: seq<real>, m: nat, km: nat, sqrt: real -> real)
    requires |long| == 2 * km && |short| == 2 * m && m <= km && RisingFinite(long, m, km, sqrt)
    requires IsSqrt(sqrt) && NonNegative(long) && NonNegative(short)
    ensures Mul(AnalysisOf(long, short, m, km, sqrt), SynthesisOf(long, short, m, km, sqrt)) == Zeros(km - m) + short
  {
    var a := AnalysisOf(long, short, m, km, sqrt);
    var f := SynthesisOf(long, short, m, km, sqrt);
    var expected := Zeros(km - m) + short;
    assert |Mul(a, f)| == |expected|;
    forall i | 0 <= i < km + m
      ensures Mul(a, f)[i] == expected[i]
    {
      ProductOfAt(long, short, m, km, sqrt, i);
    }
  }

  /**
   * Asymmetric wola: analysis·synthesis is zero on the first S − 2M samples and
   * then the short Hann window of length 2M (M = synthesis size div 2).
   */
  lemma AsymmetricProduct(size: nat, synthesisSize: nat, hann: nat -> seq<real>, sqrt: real -> real)
    requires HannLengths(hann) && HannNonNegative(hann) && IsSqrt(sqrt)
    requires synthesisSize <= size && FiniteSynthesis(size, synthesisSize, hann, sqrt)
    ensures var m := HalfSynthesis(synthesisSize);
            Mul(AsymmetricAnalysis(size, synthesisSize, hann, sqrt), AsymmetricSynthesis(size, synthesisSize, hann, sqrt))
            == Zeros(size - 2 * m) + hann(2 * m)
  {
    var m := HalfSynthesis(synthesisSize);
    var km := size - m;
    assert NonNegative(hann(2 * km)) && NonNegative(hann(2 * m));
    ProductOf(hann(2 * km), hann(2 * m), m, km, sqrt);
    assert km - m == size - 2 * m;
  }
}
