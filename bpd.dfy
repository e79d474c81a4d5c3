/**
 * The baseband phase difference (BPD) of a phase spectrogram, its inverse,
 * and the assembly of a complex spectrogram from magnitude and phase
 * (`bpd_transform`, `inverse_bpd_transform` and
 * `assemble_spectrogram_magnitude_phase` of libsegmenter/SegmenterTorch.py).
 *
 * A spectrogram is a (batch, segments, bins) array; an unbatched one is a
 * batch of one row and `rank` is the number of axes the caller's tensor has.
 * `angle(exp(iθ))` is the wrap of θ into (−π, π]; π is the double `torch.pi`.
 */
module Bpd {
  import opened Wrappers

  /** `torch.pi`. */
  const Pi: real := 3.141592653589793

  // ---------------------------------------------------------------------
  // Wrapping an angle into (−π, π].

  /** The number of whole turns that bring θ into (−π, π]. */
  function Turns(theta: real): int
  {
    ((Pi - theta) / (2.0 * Pi)).Floor
  }

  /** `angle(exp(iθ))`: θ shifted by whole turns into (−π, π]. */
  function Wrap(theta: real): (r: real)
    ensures -Pi < r <= Pi
  {
    theta + 2.0 * Pi * (Turns(theta) as real)
  }

  /** An angle in (−π, π] a whole number of turns from θ is the wrap of θ. */
  lemma WrapUnique(theta: real, r: real, n: int)
    requires -Pi < r <= Pi && r == theta + 2.0 * Pi * (n as real)
    ensures Wrap(theta) == r
  {
    var d := Turns(theta) - n;
    assert Wrap(theta) - r == 2.0 * Pi * (d as real);
  }

  /** Whole turns do not change the wrap. */
  lemma WrapPeriodic(theta: real, n: int)
    ensures Wrap(theta + 2.0 * Pi * (n as real)) == Wrap(theta)
  {
    WrapUnique(theta + 2.0 * Pi * (n as real), Wrap(theta), Turns(theta) - n);
  }

  /** The wrap leaves an angle of (−π, π] alone, so wrapping twice is wrapping once. */
  lemma WrapFixes(theta: real)
    requires -Pi < theta <= Pi
    ensures Wrap(theta) == theta
  {
    WrapUnique(theta, theta, 0);
  }

  // ---------------------------------------------------------------------
  // bpd_transform.

  /** The phase advance 2π·f/F·H of bin f over one hop. */
  function Modulation(frameSize: nat, hop: nat, f: nat): real
    requires frameSize >= 1
  {
    2.0 * Pi * (f as real) / (frameSize as real) * (hop as real)
  }

  /** The bin count F//2 + 1 of a real spectrum of F samples. */
  function Bins(frameSize: nat): nat
  {
    frameSize / 2 + 1
  }

  datatype BpdError =
    | UnboundShape  // UnboundLocalError: a tensor of neither 2 nor 3 axes leaves the sizes unset
    | BinMismatch   // Exception: the bin count is not frame_size//2 + 1
    | IndexError    // IndexError: segment 0 of a spectrogram with none

  /**
   * The first exception `bpd_transform` raises: the rank, the bin count, and
   * the write of segment 0 when there are rows but no segments.
   */
  function TransformError(frameSize: nat, rank: nat, rows: nat, segments: nat, bins: nat): (e: Option<BpdError>)
  {
    if rank != 2 && rank != 3 then Some(UnboundShape)
    else if bins != Bins(frameSize) then Some(BinMismatch)
    else if segments == 0 && rows >= 1 then Some(IndexError)
    else None
  }

  /** The phase change into segment s: p_0 for the first, p_s − p_{s−1} after it. */
  function Difference(P: array3<real>, b: nat, s: nat, f: nat): real
    reads P
    requires b < P.Length0 && s < P.Length1 && f < P.Length2
  {
    if s == 0 then P[b, 0, f] else P[b, s, f] - P[b, s - 1, f]
  }

  /** BPD sample: the phase change less the advance of the bin, wrapped. */
  function BpdAt(P: array3<real>, frameSize: nat, hop: nat, b: nat, s: nat, f: nat): real
    reads P
    requires frameSize >= 1 && b < P.Length0 && s < P.Length1 && f < P.Length2
  {
    Wrap(Difference(P, b, s, f) - Modulation(frameSize, hop, f))
  }

  /** `bpd[b, s, :] = angle(exp(i(p_s − p_{s−1} − m)))` for one segment, bin by bin. */
  method TransformSegment(P: array3<real>, D: array3<real>, frameSize: nat, hop: nat, b: nat, s: nat)
    requires frameSize >= 1 && P != D
    requires D.Length0 == P.Length0 && D.Length1 == P.Length1 && D.Length2 == P.Length2
    requires b < D.Length0 && s < D.Length1
    modifies D
    ensures forall b', s', f :: 0 <= b' < D.Length0 && 0 <= s' < D.Length1 && 0 <= f < D.Length2 ==>
              D[b', s', f] == if b' == b && s' == s then BpdAt(P, frameSize, hop, b, s, f) else old(D[b', s', f])
  {
    for f := 0 to D.Length2
      invariant forall b', s', g :: 0 <= b' < D.Length0 && 0 <= s' < D.Length1 && 0 <= g < D.Length2 ==>
                  D[b', s', g] == if b' == b && s' == s && g < f then BpdAt(P, frameSize, hop, b, s, g) else old(D[b', s', g])
    {
      D[b, s, f] := BpdAt(P, frameSize, hop, b, s, f);
    }
  }

  /** All segments of row b, in order. */
  method TransformRow(P: array3<real>, D: array3<real>, frameSize: nat, hop: nat, b: nat)
    requires frameSize >= 1 && P != D
    requires D.Length0 == P.Length0 && D.Length1 == P.Length1 && D.Length2 == P.Length2 && b < D.Length0
    modifies D
    ensures forall b', s, f :: 0 <= b' < D.Length0 && 0 <= s < D.Length1 && 0 <= f < D.Length2 ==>
              D[b', s, f] == if b' == b then BpdAt(P, frameSize, hop, b, s, f) else old(D[b', s, f])
  {
    for s := 0 to D.Length1
      invariant forall b', s', f :: 0 <= b' < D.Length0 && 0 <= s' < D.Length1 && 0 <= f < D.Length2 ==>
                  D[b', s', f] == if b' == b && s' < s then BpdAt(P, frameSize, hop, b, s', f) else old(D[b', s', f])
    {
      TransformSegment(P, D, frameSize, hop, b, s);
    }
  }

  /**
   * `bpd_transform`: a zeroed spectrogram, then every segment of every row
   * replaced by its wrapped, demodulated phase change.
   */
  method Transform(frameSize: nat, hop: nat, P: array3<real>, rank: nat) returns (err: Option<BpdError>, D: array3<real>)
    requires frameSize >= 1 && (rank == 2 ==> P.Length0 == 1)
    ensures err == TransformError(frameSize, rank, P.Length0, P.Length1, P.Length2)
    ensures err.None? ==>
              && fresh(D) && D.Length0 == P.Length0 && D.Length1 == P.Length1 && D.Length2 == P.Length2
              && forall b, s, f :: 0 <= b < D.Length0 && 0 <= s < D.Length1 && 0 <= f < D.Length2 ==>
                   D[b, s, f] == BpdAt(P, frameSize, hop, b, s, f)
  {
    err := TransformError(frameSize, rank, P.Length0, P.Length1, P.Length2);
    if err.Some? {
      D := new real[0, 0, 0];
      return;
    }
    D := new real[P.Length0, P.Length1, P.Length2]((b, s, f) => 0.0);
    for b := 0 to D.Length0
      invariant forall b', s, f :: 0 <= b' < b && 0 <= s < D.Length1 && 0 <= f < D.Length2 ==>
                  D[b', s, f] == BpdAt(P, frameSize, hop, b', s, f)
    {
      TransformRow(P, D, frameSize, hop, b);
    }
  }

  // ---------------------------------------------------------------------
  // inverse_bpd_transform.

  /** The first exception `inverse_bpd_transform` raises: the rank and the bin count. */
  function InverseError(frameSize: nat, rank: nat, bins: nat): (e: Option<BpdError>)
  {
    if rank != 2 && rank != 3 then Some(UnboundShape)
    else if bins != Bins(frameSize) then Some(BinMismatch)
    else None
  }

  /** Σ_{t < s} (bpd[b, t, f] + m_f), the cumulative sum along the segments. */
  function RunningSum(D: array3<real>, frameSize: nat, hop: nat, b: nat, f: nat, s: nat): real
    reads D
    requires frameSize >= 1 && b < D.Length0 && s <= D.Length1 && f < D.Length2
  {
    if s == 0 then 0.0 else RunningSum(D, frameSize, hop, b, f, s - 1) + D[b, s - 1, f] + Modulation(frameSize, hop, f)
  }

  /** The recovered phase: the wrap of the cumulative sum through segment s. */
  function InverseAt(D: array3<real>, frameSize: nat, hop: nat, b: nat, s: nat, f: nat): real
    reads D
    requires frameSize >= 1 && b < D.Length0 && s < D.Length1 && f < D.Length2
  {
    Wrap(RunningSum(D, frameSize, hop, b, f, s + 1))
  }

  /** `phase[b, :, f] = angle(exp(i·cumsum(bpd[b, :, f] + m_f)))`, the sum kept in a running total. */
  method InverseColumn(D: array3<real>, Q: array3<real>, frameSize: nat, hop: nat, b: nat, f: nat)
    requires frameSize >= 1 && D != Q
    requires Q.Length0 == D.Length0 && Q.Length1 == D.Length1 && Q.Length2 == D.Length2
    requires b < Q.Length0 && f < Q.Length2
    modifies Q
    ensures forall b', s, g :: 0 <= b' < Q.Length0 && 0 <= s < Q.Length1 && 0 <= g < Q.Length2 ==>
              Q[b', s, g] == if b' == b && g == f then InverseAt(D, frameSize, hop, b, s, f) else old(Q[b', s, g])
  {
    var m := Modulation(frameSize, hop, f);
    var total := 0.0;
    for s := 0 to Q.Length1
      invariant total == RunningSum(D, frameSize, hop, b, f, s)
      invariant forall b', s', g :: 0 <= b' < Q.Length0 && 0 <= s' < Q.Length1 && 0 <= g < Q.Length2 ==>
                  Q[b', s', g] == if b' == b && g == f && s' < s then InverseAt(D, frameSize, hop, b, s', f) else old(Q[b', s', g])
    {
      total := total + D[b, s, f] + m;
      Q[b, s, f] := Wrap(total);
    }
  }

  /** All bins of row b. */
  method InverseRow(D: array3<real>, Q: array3<real>, frameSize: nat, hop: nat, b: nat)
    requires frameSize >= 1 && D != Q
    requires Q.Length0 == D.Length0 && Q.Length1 == D.Length1 && Q.Length2 == D.Length2 && b < Q.Length0
    modifies Q
    ensures forall b', s, g :: 0 <= b' < Q.Length0 && 0 <= s < Q.Length1 && 0 <= g < Q.Length2 ==>
              Q[b', s, g] == if b' == b then InverseAt(D, frameSize, hop, b, s, g) else old(Q[b', s, g])
  {
    for f := 0 to Q.Length2
      invariant forall b', s, g :: 0 <= b' < Q.Length0 && 0 <= s < Q.Length1 && 0 <= g < Q.Length2 ==>
                  Q[b', s, g] == if b' == b && g < f then InverseAt(D, frameSize, hop, b, s, g) else old(Q[b', s, g])
    {
      InverseColumn(D, Q, frameSize, hop, b, f);
    }
  }

  /** `inverse_bpd_transform`: every bin of every row rebuilt from its cumulative sum. */
  method Inverse(frameSize: nat, hop: nat, D: array3<real>, rank: nat) returns (err: Option<BpdError>, Q: array3<real>)
    requires frameSize >= 1 && (rank == 2 ==> D.Length0 == 1)
    ensures err == InverseError(frameSize, rank, D.Length2)
    ensures err.None? ==>
              && fresh(Q) && Q.Length0 == D.Length0 && Q.Length1 == D.Length1 && Q.Length2 == D.Length2
              && forall b, s, f :: 0 <= b < Q.Length0 && 0 <= s < Q.Length1 && 0 <= f < Q.Length2 ==>
                   Q[b, s, f] == InverseAt(D, frameSize, hop, b, s, f)
  {
    err := InverseError(frameSize, rank, D.Length2);
    if err.Some? {
      Q := new real[0, 0, 0];
      return;
    }
    Q := new real[D.Length0, D.Length1, D.Length2]((b, s, f) => 0.0);
    for b := 0 to Q.Length0
      invariant forall b', s, f :: 0 <= b' < b && 0 <= s < Q.Length1 && 0 <= f < Q.Length2 ==>
                  Q[b', s, f] == InverseAt(D, frameSize, hop, b', s, f)
    {
      InverseRow(D, Q, frameSize, hop, b);
    }
  }

  // ---------------------------------------------------------------------
  // The inverse undoes the transform modulo 2π.

  /** D holds the BPD of P. */
  ghost predicate IsBpdOf(D: array3<real>, P: array3<real>, frameSize: nat, hop: nat)
    reads D, P
    requires frameSize >= 1
  {
    && D.Length0 == P.Length0 && D.Length1 == P.Length1 && D.Length2 == P.Length2
    && forall b, s, f :: 0 <= b < D.Length0 && 0 <= s < D.Length1 && 0 <= f < D.Length2 ==>
         D[b, s, f] == BpdAt(P, frameSize, hop, b, s, f)
  }

  /** The whole turns the wraps of segments 0 .. s − 1 of one bin added. */
  ghost function TurnsUpTo(P: array3<real>, frameSize: nat, hop: nat, b: nat, f: nat, s: nat): int
    reads P
    requires frameSize >= 1 && b < P.Length0 && s <= P.Length1 && f < P.Length2
  {
    if s == 0 then 0
    else TurnsUpTo(P, frameSize, hop, b, f, s - 1) + Turns(Difference(P, b, s - 1, f) - Modulation(frameSize, hop, f))
  }

  /** The cumulative sum of the BPD through segment s − 1 is p_{s−1} plus whole turns. */
  lemma {:induction false} RunningSumTelescopes(D: array3<real>, P: array3<real>, frameSize: nat, hop: nat, b: nat, f: nat, s: nat)
    requires frameSize >= 1 && IsBpdOf(D, P, frameSize, hop)
    requires b < D.Length0 && 1 <= s <= D.Length1 && f < D.Length2
    ensures RunningSum(D, frameSize, hop, b, f, s) == P[b, s - 1, f] + 2.0 * Pi * (TurnsUpTo(P, frameSize, hop, b, f, s) as real)
  {
    var m := Modulation(frameSize, hop, f);
    var e := Difference(P, b, s - 1, f) - m;
    assert D[b, s - 1, f] == e + 2.0 * Pi * (Turns(e) as real);
    if s > 1 {
      RunningSumTelescopes(D, P, frameSize, hop, b, f, s - 1);
    }
  }

  /** Each recovered sample is the wrap of the original phase. */
  lemma InverseOfBpd(D: array3<real>, P: array3<real>, frameSize: nat, hop: nat, b: nat, s: nat, f: nat)
    requires frameSize >= 1 && IsBpdOf(D, P, frameSize, hop)
    requires b < D.Length0 && s < D.Length1 && f < D.Length2
    ensures InverseAt(D, frameSize, hop, b, s, f) == Wrap(P[b, s, f])
  {
    RunningSumTelescopes(D, P, frameSize, hop, b, f, s + 1);
    WrapPeriodic(P[b, s, f], TurnsUpTo(P, frameSize, hop, b, f, s + 1));
  }

  /**
   * `inverse_bpd_transform(bpd_transform(P))`: the phase comes back modulo
   * 2π, and exactly when it is an angle in (−π, π] as `angle()` returns.
   */
  method RoundTrip(frameSize: nat, hop: nat, P: array3<real>, rank: nat) returns (err: Option<BpdError>, Q: array3<real>)
    requires frameSize >= 1 && (rank == 2 ==> P.Length0 == 1)
    ensures err == TransformError(frameSize, rank, P.Length0, P.Length1, P.Length2)
    ensures err.None? ==>
              && Q.Length0 == P.Length0 && Q.Length1 == P.Length1 && Q.Length2 == P.Length2
              && forall b, s, f :: 0 <= b < Q.Length0 && 0 <= s < Q.Length1 && 0 <= f < Q.Length2 ==>
                   Q[b, s, f] == Wrap(P[b, s, f])
                   && (-Pi < P[b, s, f] <= Pi ==> Q[b, s, f] == P[b, s, f])
  {
    var D;
    err, D := Transform(frameSize, hop, P, rank);
    if err.Some? {
      Q := new real[0, 0, 0];
      return;
    }
    err, Q := Inverse(frameSize, hop, D, rank);
    assert err.None?;
    forall b, s, f | 0 <= b < Q.Length0 && 0 <= s < Q.Length1 && 0 <= f < Q.Length2
      ensures Q[b, s, f] == Wrap(P[b, s, f]) && (-Pi < P[b, s, f] <= Pi ==> Q[b, s, f] == P[b, s, f])
    {
      InverseOfBpd(D, P, frameSize, hop, b, s, f);
      if -Pi < P[b, s, f] <= Pi {
        WrapFixes(P[b, s, f]);
      }
    }
  }

  // ---------------------------------------------------------------------
  // assemble_spectrogram_magnitude_phase.

  datatype Complex = Complex(re: real, im: real)

  /** mag · e^{i·phase}, with the cosine and sine supplied by the caller. */
  function Polar(mag: real, phase: real, cos: real -> real, sin: real -> real): Complex
  {
    Complex(mag * cos(phase), mag * sin(phase))
  }

  /** The first and the last bin, whose imaginary part the assembly drops. */
  predicate EdgeBin(rank: nat, bins: nat, f: nat)
  {
    (rank == 2 || rank == 3) && (f == 0 || f + 1 == bins)
  }

  /** Bin f of the assembled spectrogram. */
  function AssembledAt(M: array3<real>, Ph: array3<real>, rank: nat, cos: real -> real, sin: real -> real,
                       b: nat, s: nat, f: nat): (z: Complex)
    reads M, Ph
    requires Ph.Length0 == M.Length0 && Ph.Length1 == M.Length1 && Ph.Length2 == M.Length2
    requires b < M.Length0 && s < M.Length1 && f < M.Length2
  {
    var z := Polar(M[b, s, f], Ph[b, s, f], cos, sin);
    if EdgeBin(rank, M.Length2, f) then Complex(z.re, 0.0) else z
  }

  /** Rank 2 and 3 index the first and the last bin, which an empty bin axis lacks. */
  function AssembleError(rank: nat, bins: nat): (e: Option<BpdError>)
  {
    if (rank == 2 || rank == 3) && bins == 0 then Some(IndexError) else None
  }

  /** `tmp[b, s, 0]` and `tmp[b, s, -1]` keep only their real part. */
  method KeepRealEdges(T: array3<Complex>, b: nat, s: nat)
    requires b < T.Length0 && s < T.Length1 && T.Length2 >= 1
    modifies T
    ensures forall b', s', f :: 0 <= b' < T.Length0 && 0 <= s' < T.Length1 && 0 <= f < T.Length2 ==>
              T[b', s', f] == if b' == b && s' == s && (f == 0 || f + 1 == T.Length2)
                              then Complex(old(T[b', s', f]).re, 0.0) else old(T[b', s', f])
  {
    T[b, s, 0] := Complex(T[b, s, 0].re, 0.0);
    var last := T.Length2 - 1;
    T[b, s, last] := Complex(T[b, s, last].re, 0.0);
  }

  /** The real edges of every segment of row b. */
  method KeepRealEdgesOfRow(T: array3<Complex>, b: nat)
    requires b < T.Length0 && T.Length2 >= 1
    modifies T
    ensures forall b', s, f :: 0 <= b' < T.Length0 && 0 <= s < T.Length1 && 0 <= f < T.Length2 ==>
              T[b', s, f] == if b' == b && (f == 0 || f + 1 == T.Length2)
                             then Complex(old(T[b', s, f]).re, 0.0) else old(T[b', s, f])
  {
    for s := 0 to T.Length1
      invariant forall b', s', f :: 0 <= b' < T.Length0 && 0 <= s' < T.Length1 && 0 <= f < T.Length2 ==>
                  T[b', s', f] == if b' == b && s' < s && (f == 0 || f + 1 == T.Length2)
                                  then Complex(old(T[b', s', f]).re, 0.0) else old(T[b', s', f])
    {
      KeepRealEdges(T, b, s);
    }
  }

  /**
   * `assemble_spectrogram_magnitude_phase`: mag · e^{i·phase} everywhere,
   * then, for a 2-D or 3-D spectrogram, the first and the last bin replaced
   * by their real part.
   */
  method Assemble(M: array3<real>, Ph: array3<real>, rank: nat, cos: real -> real, sin: real -> real)
    returns (err: Option<BpdError>, T: array3<Complex>)
    requires Ph.Length0 == M.Length0 && Ph.Length1 == M.Length1 && Ph.Length2 == M.Length2
    ensures err == AssembleError(rank, M.Length2)
    ensures err.None? ==>
              && fresh(T) && T.Length0 == M.Length0 && T.Length1 == M.Length1 && T.Length2 == M.Length2
              && forall b, s, f :: 0 <= b < T.Length0 && 0 <= s < T.Length1 && 0 <= f < T.Length2 ==>
                   T[b, s, f] == AssembledAt(M, Ph, rank, cos, sin, b, s, f)
  {
    err := AssembleError(rank, M.Length2);
    if err.Some? {
      T := new Complex[0, 0, 0];
      return;
    }
    T := new Complex[M.Length0, M.Length1, M.Length2]((b, s, f)
           requires 0 <= b < M.Length0 && 0 <= s < M.Length1 && 0 <= f < M.Length2 reads M, Ph =>
           Polar(M[b, s, f], Ph[b, s, f], cos, sin));
    if rank == 2 || rank == 3 {
      for b := 0 to T.Length0
        invariant forall b', s, f :: 0 <= b' < T.Length0 && 0 <= s < T.Length1 && 0 <= f < T.Length2 ==>
                    T[b', s, f] == if b' < b then AssembledAt(M, Ph, rank, cos, sin, b', s, f)
                                   else Polar(M[b', s, f], Ph[b', s, f], cos, sin)
      {
        KeepRealEdgesOfRow(T, b);
      }
    }
  }

  /**
   * The assembly changes nothing where the edge bins are already real, as
   * the DC and Nyquist bins of a real signal are (phase 0 or π).
   */
  lemma RealEdgesUnchanged(M: array3<real>, Ph: array3<real>, rank: nat, cos: real -> real, sin: real -> real,
                           b: nat, s: nat, f: nat)
    requires Ph.Length0 == M.Length0 && Ph.Length1 == M.Length1 && Ph.Length2 == M.Length2
    requires b < M.Length0 && s < M.Length1 && f < M.Length2
    requires EdgeBin(rank, M.Length2, f) ==> sin(Ph[b, s, f]) == 0.0
    ensures AssembledAt(M, Ph, rank, cos, sin, b, s, f) == Polar(M[b, s, f], Ph[b, s, f], cos, sin)
  {
  }

  /** The edge bins of an assembled 2-D or 3-D spectrogram are real, with the real part of mag · e^{i·phase}. */
  lemma EdgesAreReal(M: array3<real>, Ph: array3<real>, rank: nat, cos: real -> real, sin: real -> real,
                     b: nat, s: nat)
    requires Ph.Length0 == M.Length0 && Ph.Length1 == M.Length1 && Ph.Length2 == M.Length2
    requires b < M.Length0 && s < M.Length1 && M.Length2 >= 1 && (rank == 2 || rank == 3)
    ensures AssembledAt(M, Ph, rank, cos, sin, b, s, 0).im == 0.0
    ensures AssembledAt(M, Ph, rank, cos, sin, b, s, M.Length2 - 1).im == 0.0
    ensures AssembledAt(M, Ph, rank, cos, sin, b, s, 0).re == M[b, s, 0] * cos(Ph[b, s, 0])
  {
  }
}
