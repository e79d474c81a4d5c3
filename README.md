# libsegmenter in Dafny

libsegmenter splits a real-valued signal into overlapping frames of S samples,
H samples apart, and rebuilds a signal from frames by overlap-add. Each frame
is weighted by a window. With a window whose shifted copies add up to a
constant (the COLA condition), and with the first and last frames weighted by
edge-corrected windows, `unsegment(segment(x))` gives back x. The repository
holds several ports of this idea:

- the C++ base library (libsegmenter/base): shape arithmetic, array views, the
  COLA test and the segmenter engine;
- an older header-only C++ segmenter (libsegmenter/Segmenter.hpp);
- legacy Python segmenters for torch, numpy and TensorFlow, a single-file
  torch segmenter, window objects and window selectors;
- the newer Python backends (src/libsegmenter/backends) for numpy, torch and
  TensorFlow, which share frame-count helpers and a window record.

This project models these ports and proves what they promise. Frame counts
and shapes are integers. Windows and signals are `real` samples: signals are
(batch, samples) arrays and frames are (batch, frames, size) arrays. The
square root, the transform magnitudes |W_k| of the COLA test, cosine and sine
are parameters, constrained where a proof needs them (`Samples.IsSqrt` says a
function is a non-negative square root). The headline theorems are:

- `Engine.Segmenter.PerfectReconstruction` and `Engine.Segmenter.RoundTrip`: with exact COLA, H
  dividing S, two frames or more, edge correction and normalization on, the
  C++ engine's `unsegment(segment(x))` equals x at every sample, in both modes;
- `Backends.ReconstructionEnvelope`: the newer backends rebuild x times the
  analysis·synthesis envelope;
- `LegacyTorch.RoundTrip`, `LegacyTensorFlow.RoundTrip`,
  `SingleFile.RoundTrip` and `LegacyNumpy.RoundTrip`: the same results for
  the legacy ports, each on its corrected constructor and, for TensorFlow, its
  corrected shape test;
- `Bpd.RoundTrip`: the baseband phase difference transform is undone by its
  inverse modulo 2π.

Modules, one per file:

| file | module | models |
|---|---|---|
| wrappers.dfy | Wrappers | the Option type |
| samples.dfy | Samples | element-wise window arithmetic, sums, square roots |
| frames.dfy | Frames | `compute_num_segments` and `compute_num_samples` (src/libsegmenter/backends/common.py) |
| shapes.dfy | Shapes | shape derivation and validation (libsegmenter/base/Parameters.hpp) |
| spans.dfy | Spans | row-major views `Span` and `MutableSpan` (libsegmenter/base/Span.hpp) |
| cola.dfy | Cola | the four COLA tests (Cola.hpp, check_cola.py, checkCola.py, the legacy header) |
| envelopes.dfy | Envelopes | shift sums, edge-corrected windows and exact COLA |
| rectangular.dfy | RectangularWindows | src/libsegmenter/windows/rectangular.py |
| selectors.dfy | Selectors | both default window selectors |
| windowobject.dfy | WindowObjects | libsegmenter/windowObjectNumpy.py |
| framing.dfy | Framing | framing and overlap-add over arrays, shared by the ports |
| engine.dfy | Engine | the C++ base segmenter (libsegmenter/base/Segmenter.hpp) |
| legacyengine.dfy | LegacyEngine | the header-only segmenter (libsegmenter/Segmenter.hpp) |
| backends.dfy | Backends | the three src/ backends |
| legacytorch.dfy | LegacyTorch | libsegmenter/SegmenterTorch.py |
| legacytf.dfy | LegacyTensorFlow | segmenterTensorFlow.py |
| singlefile.dfy | SingleFile | segmenter.py |
| legacynumpy.dfy | LegacyNumpy | libsegmenter/SegmenterNumpy.py |
| bpd.dfy | Bpd | the baseband phase difference transform and spectrogram assembly |

Where the code and its documentation disagree, the model follows the code.
Where the code is evidently wrong, the model has both the code as written and
the evident intent; see "## Findings".

## Model

| member | source | states |
|---|---|---|
| Frames.NumSegmentsOfExactLength | src/libsegmenter/backends/common.py:1-2 | a signal of S + m·H samples holds exactly m + 1 frames |
| Frames.NumSegmentsOfNumSamples | src/libsegmenter/backends/common.py:1-6 | counting the frames of the span of K frames gives back K, for every K |
| Frames.NumSamplesOfNumSegments | src/libsegmenter/backends/common.py:1-6 | the span of the frames of n samples is (n div H)·H + (S mod H), and it equals n iff n ≡ S (mod H) |
| Frames.NumSamplesGrowth | src/libsegmenter/backends/common.py:5-6 | K ≥ 1 frames span at least S samples, and each extra frame adds exactly H |
| Frames.NumSegmentsGrowth | src/libsegmenter/backends/common.py:1-2 | the frame count is non-decreasing in the length and rises by exactly 1 for every H extra samples |
| Frames.AtLeastOneSegment | src/libsegmenter/backends/common.py:1-2 | when H divides S, there is at least one frame iff n ≥ S |
| Frames.LegacyAgrees | segmenter.py:123 | the legacy count (N − S) div H + 1 equals the shared count iff S mod H ≤ N mod H |
| Frames.LegacyFramesFit | segmenter.py:121-136 | the legacy count is positive iff N ≥ S, and then the last frame ends inside the N samples |
| Frames.FrameInside | libsegmenter/base/Segmenter.hpp:196-219 | when H divides S and N, every read index jH + k of every frame lies in [0, N) |
| Frames.PassesWithin | libsegmenter/base/Segmenter.hpp:66-84 | the edge-correction passes i = 1 .. S div H start inside the frame and the pass after them starts past its end |
| Shapes.FrameCountNoWrap | libsegmenter/base/Parameters.hpp:76-77 | the size_t frame count equals samples/hop − frameSize/hop + 1 when that is not negative, and is that value plus 2^64 otherwise |
| Shapes.ShapeFromUnsegmented | libsegmenter/base/Parameters.hpp:66-79 | fails exactly when samples mod hop ≠ 0, with the not-a-multiple error; otherwise copies the batch, sets the width and, without wrap-around, the shared frame count |
| Shapes.SampleCountNoWrap | libsegmenter/base/Parameters.hpp:88-89 | without overflow the size_t sample count is (frames − 1)·hop + frameSize and keeps frameSize's residue mod hop |
| Shapes.ShapeFromSegmented | libsegmenter/base/Parameters.hpp:82-94 | copies the batch; without overflow it succeeds iff hop divides frameSize, with sample count (frames − 1)·hop + frameSize |
| Shapes.SegmentationShapeFromUnsegmented | libsegmenter/base/Parameters.hpp:66-79 | succeeds iff hop divides the sample count, and then the last dimension is frameSize |
| Shapes.SpectrogramShapeFromUnsegmented | libsegmenter/base/Parameters.hpp:120-133 | succeeds iff hop divides the sample count, and then the last dimension is frameSize/2 + 1 |
| Shapes.SpectrogramDiffersInWidthOnly | libsegmenter/base/Parameters.hpp:66-133 | spectrogram and segmentation shapes succeed together and differ only in the last dimension |
| Shapes.SegmentationShapeRoundTrip | libsegmenter/base/Parameters.hpp:66-94 | if hop divides frameSize and the sample count and samples ≥ frameSize ≥ 1, FromSegmented(FromUnsegmented(shape)) returns the shape |
| Shapes.CompareShape | libsegmenter/base/Parameters.hpp:105-116 | passes iff the shapes are equal; otherwise it reports the first mismatching field, batch before frame count before frame size |
| Shapes.ValidateSegmentationShape | libsegmenter/base/Parameters.hpp:97-117 | fails with the not-a-multiple error when hop does not divide the sample count; without wrap-around it passes iff all three dimensions equal the derived shape |
| Shapes.BitAndSelf | libsegmenter/base/Parameters.hpp:156-157 | the bitwise AND of a number with itself is the number |
| Shapes.Radix2Test | libsegmenter/base/Parameters.hpp:156-157 | `n && !(n & (n − 1))` holds iff n is a power of two |
| Shapes.Radix2Guard | libsegmenter/base/Parameters.hpp:156-161 | the guard holds iff frameSize is a power of two |
| Shapes.ValidateSpectrogramShape | libsegmenter/base/Parameters.hpp:150-177 | fails with the radix-2 error unless frameSize is a power of two, then with the not-a-multiple error; without wrap-around it passes iff all dimensions match, the last being frameSize/2 + 1 |
| Shapes.SpectrogramShapeFromSegmented | libsegmenter/base/Parameters.hpp:135-148 | copies the batch; without overflow it succeeds iff hop divides frameSize, with the same sample count as the segmentation shape |
| Spans.HornerIsRowMajor | libsegmenter/base/Span.hpp:54-58 | the loop's fold offset·shape[i] + idx[i] equals Σ_i idx[i]·Π_{j>i} shape[j], the row-major layout |
| Spans.RowMajorSnoc | libsegmenter/base/Span.hpp:56-58 | appending a dimension multiplies the offset by its size and adds the new index, which is one step of the loop |
| Spans.RowMajorBound | libsegmenter/base/Span.hpp:54-60 | if every idx[i] < shape[i], the offset is below Π shape |
| Spans.RowMajorInjective | libsegmenter/base/Span.hpp:54-58 | distinct in-range index tuples give distinct offsets |
| Spans.RowMajorStride | libsegmenter/base/Span.hpp:56-58 | incrementing idx[i] by one moves the offset by Π_{j>i} shape[j], which is 1 for the last index |
| Spans.Offset | libsegmenter/base/Span.hpp:54-58 | the offset loop returns the row-major offset of the indices |
| Spans.Span.constructor | libsegmenter/base/Span.hpp:46-49 | the view keeps the given data buffer and shape |
| Spans.Span.At | libsegmenter/base/Span.hpp:51-60 | reads the element at the row-major offset |
| Spans.MutableSpan.constructor | libsegmenter/base/Span.hpp:68-71 | the view keeps the given data buffer and shape |
| Spans.MutableSpan.At | libsegmenter/base/Span.hpp:73-82 | reads the element at the same row-major offset as Span does |
| Spans.MutableSpan.Set | libsegmenter/base/Span.hpp:73-82 | a write through the returned reference sets data[offset] and changes no other element |
| Cola.LeakageGrows | libsegmenter/base/Cola.hpp:83-89 | the half-width Σ_{j<k} mag[j]/H added to the bounds is non-negative and never shrinks from one harmonic to the next |
| Cola.CheckCola | libsegmenter/base/Cola.hpp:46-94 | with H = 0 the bounds Σw/0 are not finite and isCola is false; with H ≥ 1 the normalization is Σwindow/H for any non-empty window; epsilon = 2·Σ_{k=1}^{H−1} \|W_k\|/H ≥ 0; isCola iff epsilon < eps (strict); with H = 1 epsilon is 0 and isCola holds for every eps > 0 |
| Cola.CheckColaTriple | src/libsegmenter/util/check_cola.py:27-68 | raises ZeroDivisionError exactly when hop_size = 0 and otherwise IndexError exactly on an empty window; else returns (is_cola, normalization, epsilon) with normalization = sum/H, epsilon ≥ 0 from 2\|Wf\|/H per harmonic, is_cola iff epsilon < eps; H = 1 gives (0 < eps, sum(window), 0) |
| Cola.CheckColaBool | checkCola.py:4-27 | raises IndexError exactly on an empty window; otherwise returns only a bool: False for hopSize = 0, and True iff ubound − lbound = 2·Σ\|Wf\|/H < 1e-5; hopSize = 1 returns True |
| Cola.CheckColaLegacy | libsegmenter/Segmenter.hpp:105-158 | hopSize = 0 gives isCola false; otherwise returns isCola iff ub − lb < eps and normalizationValue = Σwindow/H, with no epsilon field; hopSize = 1 gives isCola for eps > 0 |
| RectangularWindows.Rectangular | src/libsegmenter/windows/rectangular.py:23-24 | S samples, every one equal to 1 |
| RectangularWindows.Rectangular50 | src/libsegmenter/windows/rectangular.py:27-39 | the all-ones window with hop S div 2, so the hop is at most S |
| RectangularWindows.Rectangular0 | src/libsegmenter/windows/rectangular.py:42-54 | the all-ones window with hop equal to its length, i.e. no overlap |
| RectangularWindows.ForwardOnes | src/libsegmenter/windows/rectangular.py:23-24 | the shift sum of an all-ones window at residue r counts the samples r, r + H, … below S |
| RectangularWindows.OnesColaWhenDivisible | src/libsegmenter/windows/rectangular.py:23-24 | an all-ones window whose length is a multiple of H overlap-adds exactly to S/H |
| RectangularWindows.OnesNotColaOtherwise | src/libsegmenter/windows/rectangular.py:23-24 | an all-ones window whose length is not a multiple of H overlap-adds to no constant |
| RectangularWindows.ResidueCounts | src/libsegmenter/windows/rectangular.py:23-24 | with S = qH + m and 0 < m < H, residue 0 holds q + 1 samples and residue H − 1 holds q |
| RectangularWindows.Rectangular0IsCola | src/libsegmenter/windows/rectangular.py:42-54 | rectangular0 overlap-adds to exactly 1 |
| RectangularWindows.Rectangular50Cola | src/libsegmenter/windows/rectangular.py:27-39 | rectangular50 overlap-adds to exactly 2 for even S and to no constant for odd S ≥ 5 |
| Samples.SumScale | libsegmenter/windowObjectNumpy.py:60-64 | dividing every sample by the normalization divides the window's sum by it |
| Samples.SumOnes | src/libsegmenter/windows/rectangular.py:23-24 | a window of n ones sums to n |
| Samples.RootsSquare | libsegmenter/windowObjectNumpy.py:72-74 | the WOLA square roots of a non-negative window are non-negative and multiply back to the window |
| Samples.ClampProperties | libsegmenter/default_window_selector.py:23-24 | after the clamp no sample is negative, non-negative samples are kept, and a non-negative window is unchanged |
| Samples.ClampInPlace | libsegmenter/default_window_selector.py:24 | the in-place clamp leaves the array equal to the clamped old contents |
| Selectors.KaiserHop | libsegmenter/default_window_selector.py:101-103 | the Kaiser hop is floor(1.7·(L − 1)/(β + 1)), stated as the bracketing inequalities |
| Selectors.DefaultWindowSelector | libsegmenter/default_window_selector.py:65-164 | unknown names raise; the 50 % schemes raise iff L is odd, the 75 % schemes iff 4 ∤ L, blackman iff 3 ∤ L, and otherwise hop·divisor = L; blackman is clamped and non-negative; Kaiser uses its floor hop; rectangular0 gives L ones with hop L, rectangular50 L ones with hop L div 2 |
| Selectors.CheckedHopDivides | libsegmenter/default_window_selector.py:67-152 | for every divisibility-checked scheme with L > 0 the hop divides L and 1 ≤ hop ≤ L |
| Selectors.LegacyWindowSelector | defaultWindowSelector.py:41-121 | the same divisibility table, errors and hops without a clamp; rectangular0 gives L ones with hop L; rectangular50 returns nothing; unknown names raise |
| Selectors.LegacyWindowSelectorCorrected | defaultWindowSelector.py:116-119 | the rectangular50 branch returns L ones with hop L div 2, and every other name behaves as in the legacy selector |
| Selectors.SelectorsAgree | defaultWindowSelector.py:43-115 | apart from blackman and rectangular50 the two selectors return the same result for the same formulas |
| Selectors.CorrectedSelectorsAgree | defaultWindowSelector.py:116-119 | with the rectangular50 branch corrected, the selectors agree on every name but blackman |
| Selectors.LegacyRectangular50ReturnsNothing | defaultWindowSelector.py:116-119 | for L = 4 the legacy rectangular50 yields nothing while the new selector yields four ones with hop 2 |
| Selectors.BlackmanClampDiffers | defaultWindowSelector.py:10-66 | both blackman branches share hop and divisibility; the new one is the clamp of the legacy one, so a negative formula sample survives only in the legacy window |
| WindowObjects.SymmetricWindow | libsegmenter/windowObjectNumpy.py:31-58 | hann50 raises iff S is odd and otherwise gives hop S/2; hann75 raises unless 4 divides S and otherwise gives hop S/4; rectangular0 gives S ones with hop S; rectangular50 gives S ones with hop S div 2; any other scheme raises |
| WindowObjects.Normalized | libsegmenter/windowObjectNumpy.py:60-63 | the window divided by its check_cola normalization Σw/H has the same length and sums to H |
| WindowObjects.NormalizedIsCola | libsegmenter/windowObjectNumpy.py:60-63 | a window exactly COLA at some constant is exactly COLA at 1 after the normalization |
| WindowObjects.Assign | libsegmenter/windowObjectNumpy.py:64-74 | analysisonly: analysis = normalized and no synthesis; ola: all-ones analysis and normalized synthesis; wola: both windows the square root of the normalized window; the hop is the derived hop |
| WindowObjects.Symmetric | libsegmenter/windowObjectNumpy.py:29-77 | succeeds iff the scheme is known, the derived hop is non-zero, the reconstruction is known and the window sum is non-zero; each failure has its own error, with the window-scheme error first; on success the windows are those of Assign for the normalized window |
| WindowObjects.AnalysisAt | libsegmenter/windowObjectNumpy.py:97-105 | analysis sample i is √long[i] on the first KM − M samples, √long[i + M] up to KM, then √ of the short falling half |
| WindowObjects.SynthesisAt | libsegmenter/windowObjectNumpy.py:107-112 | synthesis sample i is 0 on the first KM − M samples, short[i − KM + M]/√long[i + M] up to KM, then √ of the short falling half |
| WindowObjects.ProductOf | libsegmenter/windowObjectNumpy.py:97-114 | the unnormalized analysis·synthesis pair is KM − M zeros followed by the short Hann window |
| WindowObjects.AsymmetricAnalysis | libsegmenter/windowObjectNumpy.py:97-105 | the asymmetric analysis window has S samples |
| WindowObjects.AsymmetricSynthesis | libsegmenter/windowObjectNumpy.py:107-112 | the asymmetric synthesis window has S samples, the first S − 2·(syn div 2) of them zero |
| WindowObjects.Asymmetric | libsegmenter/windowObjectNumpy.py:79-118 | raises unless hop divides S, then unless hop divides the synthesis size, then unless synthesis size ≤ S; ola raises the undefined-hann NameError; any other scheme sets no windows; wola keeps the analysis window and divides only the synthesis window by the normalization Σ(a·s)/H |
| WindowObjects.WindowObjectNumpy | libsegmenter/windowObjectNumpy.py:6-118 | hop 0 selects the symmetric branch and a non-zero hop the asymmetric one; every object built has hop ≥ 1, and the given hop when it is non-zero |
| WindowObjects.SymmetricProduct | libsegmenter/windowObjectNumpy.py:60-74 | in ola and wola both windows are present with S samples, and analysis·synthesis is the normalized window, whose samples sum to the hop |
| WindowObjects.RectangularObjectsAreCola | libsegmenter/windowObjectNumpy.py:49-74 | with ola or wola, rectangular0 (and rectangular50 for even S) yields windows whose product overlap-adds to exactly 1 |
| WindowObjects.AsymmetricProduct | libsegmenter/windowObjectNumpy.py:96-114 | asymmetric wola: analysis·synthesis before normalization is S − 2M zeros followed by the short Hann window of 2M samples |
| Envelopes.PreWindow | libsegmenter/base/Segmenter.hpp:66-84 | the edge-corrected first-frame window has the window's length |
| Envelopes.PostWindow | libsegmenter/base/Segmenter.hpp:66-84 | the edge-corrected last-frame window has the window's length |
| Envelopes.AtPreWindow | libsegmenter/base/Segmenter.hpp:76-78 | a definitional unfolding of the shifted partial sum into its forward sum: preWindow[n] = w[n] + Σ_{i≥1, n+iH<F} w[n + iH] |
| Envelopes.AtPostWindow | libsegmenter/base/Segmenter.hpp:80-82 | a definitional unfolding of the shifted partial sum into its backward sum: postWindow[m] = w[m] + Σ_{i≥1, iH≤m} w[m − iH] |
| Envelopes.ForwardAbsorbsFrames | libsegmenter/base/Segmenter.hpp:302-312 | the pre-window sum at p plus the interior frames 1 .. m equals the pre-window sum at p − mH |
| Envelopes.ForwardMeetsBackward | libsegmenter/base/Segmenter.hpp:66-84 | the forward sum from t and the backward sum from t − H together cover the whole residue class of t |
| Envelopes.EdgeCorrectedEnvelope | libsegmenter/base/Segmenter.hpp:302-318 | with edge correction, K ≥ 2 frames overlap-add at every rebuilt sample p to the shift sum of p's residue class |
| Envelopes.ForwardUpToSplit | libsegmenter/base/Segmenter.hpp:68-78 | the first i passes of the pre-window loop and the remaining terms make up the whole shift sum |
| Envelopes.BackwardUpToSplit | libsegmenter/base/Segmenter.hpp:68-82 | the first i passes of the post-window loop and the remaining terms make up the whole backward shift sum |
| Envelopes.ForwardUpToComplete | libsegmenter/base/Segmenter.hpp:68-69 | once the passes run past the window the truncated pre-window sum is complete |
| Envelopes.BackwardUpToComplete | libsegmenter/base/Segmenter.hpp:68-69 | once the passes run below zero the truncated post-window sum is complete |
| Envelopes.ForwardNonNegative | libsegmenter/base/Segmenter.hpp:146-151 | the shift sums of a non-negative window are non-negative |
| Envelopes.BackwardNonNegative | libsegmenter/base/Segmenter.hpp:146-151 | the backward shift sums of a non-negative window are non-negative |
| Envelopes.EdgeWindowsNonNegative | libsegmenter/base/Segmenter.hpp:146-174 | the edge-corrected windows of a non-negative window are non-negative, so the WOLA square roots are defined |
| Envelopes.ShiftSumsTotal | libsegmenter/base/Cola.hpp:53-57 | the H shift sums of a window add up to its sum |
| Envelopes.ColaConstantIsMeanOverlap | libsegmenter/base/Cola.hpp:53-91 | an exactly COLA window overlap-adds to its mean overlap Σw/H, the normalization checkCola returns |
| Envelopes.MidSumScale | libsegmenter/base/Segmenter.hpp:101-112 | dividing the window by c divides every partial overlap sum by c |
| Envelopes.ForwardScale | libsegmenter/base/Segmenter.hpp:101-112 | dividing a window by c divides each of its shift sums by c |
| Envelopes.BackwardScale | libsegmenter/base/Segmenter.hpp:101-112 | dividing a window by c divides each of its backward shift sums by c |
| Envelopes.ColaScale | libsegmenter/base/Segmenter.hpp:101-112 | a window COLA at constant k, divided by c, is COLA at k/c |
| Envelopes.EnvelopeScale | libsegmenter/base/Segmenter.hpp:101-112 | dividing the three windows by c divides the overlap-add envelope by c |
| Envelopes.NormalizedEnvelopeIsOne | libsegmenter/base/Segmenter.hpp:160-318 | edge-corrected and divided by the normalization Σw/H, the windows of an exactly COLA window overlap-add to one at every rebuilt sample |
| Framing.StartIsProduct | src/libsegmenter/backends/SegmenterNumpy.py:90 | frame j starts at j·H |
| Framing.UniformIsEdged | libsegmenter/SegmenterTorch.py:125-148 | one window for every frame is the edge-corrected framing with that window at both edges |
| Framing.WeightIsProduct | src/libsegmenter/backends/SegmenterNumpy.py:91-143 | the two windows a frame meets, at an offset, weigh it with their product window |
| Framing.FrameEndsWithin | src/libsegmenter/backends/SegmenterNumpy.py:139-143 | every frame of K ends no later than (K − 1)·H + S |
| Framing.FitsWhenLastFits | src/libsegmenter/backends/SegmenterNumpy.py:89-94 | all frames lie inside the signal as soon as the last one does |
| Framing.FrameRow | src/libsegmenter/backends/SegmenterNumpy.py:91-94 | writes X[b, j, q] = w[q]·x[b, jH + q] for row b and changes no other frame sample |
| Framing.FrameAllRows | src/libsegmenter/backends/SegmenterNumpy.py:91-94 | writes frame j of every row as the windowed slice and changes no other frame |
| Framing.Frame | src/libsegmenter/backends/SegmenterNumpy.py:79-94 | returns a fresh (B, K, S) buffer in which every frame sample is the signal sample jH + q times the frame's window sample q |
| Framing.AddFrameRow | src/libsegmenter/backends/SegmenterNumpy.py:141-143 | adds w_j(p − jH)·X[b, j, p − jH] to every sample p of row b that frame j covers, and leaves the other rows alone: it only adds, never overwrites |
| Framing.AddFrame | src/libsegmenter/backends/SegmenterNumpy.py:139-143 | adds frame j's windowed samples into every row |
| Framing.OverlapAdd | src/libsegmenter/backends/SegmenterNumpy.py:134-143 | returns a fresh zero-initialized (B, (K − 1)·H + S) signal whose sample p is Σ over the covering frames of w_j(p − jH)·X[b, j, p − jH]; rows never interact |
| Framing.ContributionOfFramed | src/libsegmenter/backends/SegmenterNumpy.py:91-143 | a frame cut from x adds x[b, p] weighted by both of its windows at p − jH |
| Framing.OverlapOfContributions | src/libsegmenter/backends/SegmenterNumpy.py:139-143 | overlap-add sums the frames' contributions, so per-frame factors add up to the coverage |
| Framing.OverlapOfFramed | src/libsegmenter/backends/SegmenterNumpy.py:89-143 | frames cut with windows a and overlap-added with windows s give back every sample times Σ_j a_j(p − jH)·s_j(p − jH) |
| Framing.CoverageUniform | src/libsegmenter/backends/SegmenterNumpy.py:91-143 | with one pair of windows for all frames the coverage is Σ_k (analysis·synthesis)(p − kH) |
| Framing.CoverageEdgedPrefix | libsegmenter/base/Segmenter.hpp:302-312 | the first m < K edge-corrected frames cover p with the first product window plus interior product windows |
| Framing.CoverageEdged | libsegmenter/base/Segmenter.hpp:302-318 | K ≥ 2 edge-corrected frames cover p with the envelope of the first, interior and last product windows |
| Framing.MidSumFirst | src/libsegmenter/backends/SegmenterNumpy.py:139-143 | the sum over frames 0 .. K−1 is frame 0's term plus the sum over frames 1 .. K−1 |
| Framing.UniformCola | src/libsegmenter/backends/SegmenterNumpy.py:100-143 | away from the first S − H samples and the tail, K frames of an exactly COLA window sum to the COLA constant |
| Engine.Rejection | libsegmenter/base/Segmenter.hpp:131-158 | no exception only if the frame size is even, 1 ≤ hop ≤ frame size, the window has frame-size samples and none is negative; the checks come in that order and end with the COLA test at tolerance 1e-3 |
| Engine.PassesMultiplyToUnrooted | libsegmenter/base/Segmenter.hpp:86-184 | the stored windows are the unrooted ones in OLA mode and square to them in WOLA mode; all have frame-size samples and are non-negative |
| Engine.UnrootedNonNegative | libsegmenter/base/Segmenter.hpp:146-179 | edge correction and division by a positive mean overlap keep a non-negative window non-negative |
| Engine.FrameIndex | libsegmenter/base/Segmenter.hpp:206-219 | the read index j·H + k lies inside the N samples when H divides S and N |
| Engine.ReadsInBoundsIffHopDividesFrame | libsegmenter/base/Segmenter.hpp:196-219 | after shape validation the last read index (K − 1)·H + S − 1 stays below N iff H divides S |
| Engine.ScaleInPlace | libsegmenter/base/Segmenter.hpp:103-105 | every sample is divided by the factor in place |
| Engine.RootInPlace | libsegmenter/base/Segmenter.hpp:88-90 | every sample is replaced by its square root in place |
| Engine.Copy | libsegmenter/base/Segmenter.hpp:161-169 | the clone is a fresh array with the same samples |
| Engine.AccumulateForward | libsegmenter/base/Segmenter.hpp:76-78 | one pass `pre[n] += w[n + iH]` extends every truncated forward sum by one term |
| Engine.AccumulateBackward | libsegmenter/base/Segmenter.hpp:80-82 | one pass `post[n + iH] += w[n]` extends every truncated backward sum by one term |
| Engine.Segmenter.constructor | libsegmenter/base/Segmenter.hpp:160-184 | clones the window into the three buffers, edge-corrects if asked, divides by the normalization if asked, takes roots in WOLA mode; the stored windows are Adapted(window) |
| Engine.Segmenter.ApplyEdgeCorrection | libsegmenter/base/Segmenter.hpp:66-84 | the passes i = 1 .. S/H turn the first buffer into PreWindow and the last into PostWindow, leaving the window untouched and every index within [0, F) |
| Engine.Segmenter.ApplyWindowNormalization | libsegmenter/base/Segmenter.hpp:101-112 | all three windows are divided by the factor |
| Engine.Segmenter.ApplyWOLANormalization | libsegmenter/base/Segmenter.hpp:86-99 | every sample of all three windows is replaced by its square root |
| Engine.Segmenter.Create | libsegmenter/base/Segmenter.hpp:116-189 | throws exactly when Rejection names an error, and that error; otherwise builds a valid segmenter with the given parameters |
| Engine.Segmenter.WriteFrame | libsegmenter/base/Segmenter.hpp:206-228 | frame j of row b becomes the windowed (or plain) slice and nothing else changes |
| Engine.Segmenter.SegmentInterior | libsegmenter/base/Segmenter.hpp:210-215 | interior frames 1 .. K − 2 of row b are weighted by the interior window, first and last frames and other rows untouched |
| Engine.Segmenter.SegmentRowWola | libsegmenter/base/Segmenter.hpp:204-221 | WOLA row b: frame 0 with the first window, interior frames with the window, the last frame with the last window (which wins when K = 1) |
| Engine.Segmenter.SegmentRowOla | libsegmenter/base/Segmenter.hpp:224-230 | OLA row b: every frame is the plain slice in[b, jH + k] |
| Engine.Segmenter.Segment | libsegmenter/base/Segmenter.hpp:193-233 | returns the shape-check outcome; on failure the output is unchanged, on success every output sample is win_j[k]·in[b, jH + k] (WOLA) or in[b, jH + k] (OLA) |
| Engine.Segmenter.AddFrame | libsegmenter/base/Segmenter.hpp:304-316 | adds win[p − jH]·in[b, j, p − jH] into every covered sample of row b; only adds, never overwrites |
| Engine.Segmenter.UnsegmentRow | libsegmenter/base/Segmenter.hpp:302-318 | row b ends as its initial value plus the first, interior and last frames' contributions |
| Engine.Segmenter.Unsegment | libsegmenter/base/Segmenter.hpp:293-319 | returns the shape-check outcome; on failure the output is unchanged, on success out[b, p] = old out[b, p] + Σ_j win_j(p − jH)·in[b, j, p − jH], with the same window choice in both modes |
| Engine.Segmenter.TermOfFrame | libsegmenter/base/Segmenter.hpp:305-316 | a frame weighted once more by its window adds u(p − jH)·x[b, p] to sample p |
| Engine.Segmenter.MidTermsOfFrames | libsegmenter/base/Segmenter.hpp:308-312 | interior frames that each contribute u(p − jH)·v add up to the interior envelope times v |
| Engine.Segmenter.SegmentedWithUnsegmentWindow | libsegmenter/base/Segmenter.hpp:204-318 | with K ≥ 2, segment weights frame j with the same window unsegment applies to it |
| Engine.Segmenter.StoredWindowSquares | libsegmenter/base/Segmenter.hpp:182-184 | the stored window of frame j squares to the unrooted window (WOLA) or is it (OLA) |
| Engine.Segmenter.FrameWeights | libsegmenter/base/Segmenter.hpp:207-305 | a segmented frame weighted once more by its window is the signal weighted by the unrooted window |
| Engine.Segmenter.SegmentedFrameWeights | libsegmenter/base/Segmenter.hpp:202-318 | frame j of K ≥ 2 after segment, weighted by unsegment, is the signal weighted by the unrooted window of frame j |
| Engine.Segmenter.OverlapSum | libsegmenter/base/Segmenter.hpp:302-318 | the first, interior and last parts of the overlap-add add up to the envelope times v |
| Engine.Segmenter.InteriorOfWeighted | libsegmenter/base/Segmenter.hpp:308-312 | the interior frames contribute the interior envelope times the signal sample |
| Engine.Segmenter.FramesOfSegmented | libsegmenter/base/Segmenter.hpp:202-231 | after segment, every one of K ≥ 2 frames weighted once more is the signal weighted by its unrooted window |
| Engine.Segmenter.OverlapOfWeighted | libsegmenter/base/Segmenter.hpp:302-318 | overlap-add of K ≥ 2 weighted frames returns every sample times the envelope of the weighting windows |
| Engine.Segmenter.PerfectReconstruction | libsegmenter/base/Segmenter.hpp:160-318 | with edge correction and normalization on, H dividing S and N, K ≥ 2 and an exactly COLA window, unsegment(segment(x)) = x at every sample, in both modes |
| Engine.Segmenter.RoundTrip | libsegmenter/base/Segmenter.hpp:193-319 | segment into a fresh buffer, then unsegment into a zeroed one, returns a signal equal to x at every sample |
| Engine.Segmenter.AllReconstructed | tests/reconstruction.py:129-135 | every sample of an unsegment of segmented frames into a zeroed buffer is the input sample |
| Engine.Segmenter.SingleFrame | libsegmenter/base/Segmenter.hpp:204-317 | with one WOLA frame, segment keeps only the last-frame window's write while unsegment adds the first- and last-frame contributions, giving (pre + post)·post·x |
| LegacyEngine.PopulateRectangularWindow | libsegmenter/Segmenter.hpp:89-95 | writes 1 at every index below windowSize and leaves the rest of the buffer alone |
| LegacyEngine.Rejection | libsegmenter/Segmenter.hpp:185-219 | no exception iff the frame size is even, 1 ≤ hop ≤ frame size, the window has frame-size samples, none is negative and the COLA bound is below the default 1e-5; odd frame size is reported first; hop 0 with a window that passes the size and sign checks is rejected as not COLA, the NaN bounds failing the comparison |
| LegacyEngine.NormalizedCopy | libsegmenter/Segmenter.hpp:221-231 | with normalizeWindow each stored sample is window[i]/normalizationValue, otherwise an exact copy |
| LegacyEngine.CoveredIsQuotient | libsegmenter/Segmenter.hpp:244-249 | after p passes the first-window loop as written has added sample n to itself min(p, n div H) times |
| LegacyEngine.AheadIsQuotient | libsegmenter/Segmenter.hpp:244-255 | after p passes the last-window loop as written has added sample n to itself min(p, (S − 1 − n) div H) times |
| LegacyEngine.UnshiftedPre | libsegmenter/Segmenter.hpp:243-250 | the first-frame window as written has the window's length |
| LegacyEngine.UnshiftedPost | libsegmenter/Segmenter.hpp:239-256 | the last-frame window as written has the window's length |
| LegacyEngine.AddFromStart | libsegmenter/Segmenter.hpp:247-249 | one unshifted pass adds w[n] to a[n] for start ≤ n < S and leaves the other samples alone |
| LegacyEngine.AddBelowEnd | libsegmenter/Segmenter.hpp:253-255 | one unshifted pass adds w[n] to a[n] for n < end and leaves the other samples alone |
| LegacyEngine.TimesIsProduct | libsegmenter/Segmenter.hpp:244-256 | adding a sample to itself k times multiplies it by k |
| LegacyEngine.CopyInto | libsegmenter/Segmenter.hpp:235-242 | the copy loop leaves the buffer equal to the source |
| LegacyEngine.NormalizeInto | libsegmenter/Segmenter.hpp:222-231 | the normalization loop fills a fresh buffer with the normalized copy |
| LegacyEngine.UnshiftedPass | libsegmenter/Segmenter.hpp:245-255 | pass i adds each covered sample to itself once more in both edge windows |
| LegacyEngine.UnshiftedComplete | libsegmenter/Segmenter.hpp:244 | after all S/H passes the counts are those of the closed forms |
| LegacyEngine.UnshiftedEdgeCorrection | libsegmenter/Segmenter.hpp:243-257 | the loop as written leaves the closed forms UnshiftedPre and UnshiftedPost in the buffers |
| LegacyEngine.UnshiftedLoopDone | libsegmenter/Segmenter.hpp:244-256 | once all S/H passes are made the buffers hold the closed forms |
| LegacyEngine.ShiftedEdgeCorrection | libsegmenter/Segmenter.hpp:243-257 | the loop with the shift restored leaves PreWindow and PostWindow of the window in the buffers |
| LegacyEngine.IntendedIsBaseLibrary | libsegmenter/Segmenter.hpp:221-272 | normalizing before edge correction gives the same three windows as the base library, which corrects first |
| LegacyEngine.LegacySegmenter.AsWritten | libsegmenter/Segmenter.hpp:221-272 | the stored windows are those of the code as written: the post window keeps its zero initialization and the edge passes are unshifted |
| LegacyEngine.LegacySegmenter.constructor | libsegmenter/Segmenter.hpp:221-272 | the stored windows are normalized, then edge-corrected with the shift, then rooted in WOLA mode |
| LegacyEngine.LegacySegmenter.Create | libsegmenter/Segmenter.hpp:185-273 | throws exactly when Rejection names an error, and that error; otherwise stores the base library's adapted windows |
| LegacyEngine.PostWindowNeverCopied | libsegmenter/Segmenter.hpp:239-242 | for w = [1, 1], H = 1 and no edge correction, the last-frame window as written is [0, 0], and the window when corrected |
| LegacyEngine.EdgeCorrectionUnshifted | libsegmenter/Segmenter.hpp:247-255 | for S = 4, H = 2, w = [0, 1, 1, 0] the windows as written are [0, 1, 2, 0] and [0, 1, 0, 0] instead of [1, 1, 1, 0] and [0, 1, 1, 1] |
| LegacyEngine.ExampleUnshifted | libsegmenter/Segmenter.hpp:244-256 | the unshifted closed forms of [0, 1, 1, 0] at H = 2 are [0, 1, 2, 0] and [0, 1, 0, 0] |
| LegacyEngine.ExampleShifted | libsegmenter/base/Segmenter.hpp:66-84 | the shifted sums of [0, 1, 1, 0] at H = 2 are [1, 1, 1, 0] and [0, 1, 1, 1] |
| Backends.SegmentError | src/libsegmenter/backends/SegmenterNumpy.py:57-94 | raises the rank error iff the input has neither 1 nor 2 axes; when nothing is raised the hop is positive, K ≥ 1 and the last frame ends inside the signal |
| Backends.SegmentSucceedsIff | src/libsegmenter/backends/SegmenterNumpy.py:60-94 | segment succeeds iff the input is a batch (or an unbatched numpy signal), H ≥ 1, n ≥ S and S mod H ≤ n mod H |
| Backends.LastFrameFits | src/libsegmenter/backends/common.py:1-6 | the last of the K frames ends inside the n samples iff S mod H ≤ n mod H, and then K ≥ 1 iff n ≥ S |
| Backends.Segment | src/libsegmenter/backends/SegmenterNumpy.py:43-98 | returns exactly SegmentError's exception; on success a fresh (B, K, S) buffer with X[b, k, j] = x[b, kH + j]·analysis[j] and one more axis than the input |
| Backends.UnsegmentError | src/libsegmenter/backends/SegmenterNumpy.py:111-131 | raises the rank error iff the input has neither 2 nor 3 axes; when nothing is raised compute_num_samples ≥ 1 and the frame width matches the synthesis window |
| Backends.Unsegment | src/libsegmenter/backends/SegmenterNumpy.py:100-147 | returns exactly UnsegmentError's exception; on success a fresh zeroed signal of compute_num_samples(K, H, S) samples with x[b, p] = Σ_{k: 0≤p−kH<S} X[b, k, p − kH]·synthesis[p − kH], one axis fewer than the input |
| Backends.TensorFlowUnsegmentError | src/libsegmenter/backends/SegmenterTensorFlow.py:81-113 | the numpy and torch exceptions, except that an unbatched input with frames fails on range(batch_size) |
| Backends.TensorFlowUnsegment | src/libsegmenter/backends/SegmenterTensorFlow.py:71-115 | as written: every frame is added at positions 0 .. S − 1, the overlap-add with hop 0, into a zeroed signal of compute_num_samples samples |
| Backends.OverlapRowLocal | src/libsegmenter/backends/SegmenterNumpy.py:139-143 | the overlap-add of a row reads only that row of the frames: different batch rows never interact |
| Backends.ReconstructionEnvelope | src/libsegmenter/backends/SegmenterNumpy.py:89-143 | unsegment(segment(x))[b, p] = x[b, p]·Σ_k analysis[p − kH]·synthesis[p − kH] |
| Backends.ColaReconstruction | src/libsegmenter/backends/SegmenterNumpy.py:100-143 | where analysis·synthesis is exactly COLA with constant c, every sample past the first S − H and before the tail comes back times c |
| Backends.RebuiltSamples | src/libsegmenter/backends/SegmenterNumpy.py:139-143 | every sample of the overlap-add of framed frames is the input sample times the envelope |
| Backends.UnsegmentFramed | src/libsegmenter/backends/SegmenterNumpy.py:100-147 | unsegment of frames cut from x returns the unsegment errors and otherwise x times the envelope at every sample |
| Backends.RoundTrip | src/libsegmenter/backends/SegmenterNumpy.py:43-147 | segment then unsegment (numpy or torch): the exceptions of each step, else a signal of (K − 1)·H + S ≤ n samples, all n iff n ≡ S (mod H), each the input sample times the analysis·synthesis envelope |
| Backends.BackendsAgreeOnBatches | tests/consistency.py:53-89 | on a batch the three backends raise the same exception for the same input, and tensorflow's unsegment agrees with numpy's on a single batched frame |
| Backends.UnbatchedOnlyOnNumpy | src/libsegmenter/backends/SegmenterTorch.py:47-67 | torch and tensorflow fail on batch_size None for every unbatched signal that numpy frames |
| Backends.TensorFlowAgreesForOneFrame | src/libsegmenter/backends/SegmenterTensorFlow.py:107-113 | with a single frame the missing frame start makes no difference |
| Backends.TensorFlowLeavesTailZero | src/libsegmenter/backends/SegmenterTensorFlow.py:107-113 | without the frame start no sample at or past S ever receives anything |
| Backends.LastSampleFromLastFrame | src/libsegmenter/backends/SegmenterNumpy.py:139-143 | only the last frame covers the last sample (K − 1)·H + S − 1 of the overlap-add |
| Backends.TensorFlowDiffersFromOverlapAdd | src/libsegmenter/backends/SegmenterTensorFlow.py:107-113 | with K ≥ 2 frames the tensorflow result differs from the overlap-add at the last sample whenever the last frame's last weighted sample is non-zero |
| LegacyTorch.ModeOf | libsegmenter/SegmenterTorch.py:88-96 | the mode string maps to WOLA exactly when it is "wola" and to OLA exactly when it is "ola"; anything else has no mode |
| LegacyTorch.AcceptedArguments | libsegmenter/SegmenterTorch.py:43-59 | the constructor raises nothing exactly when the frame size is even, 1 ≤ H ≤ S, the window has S non-negative samples, its COLA leakage bound is below 1e-5 and the mode is ola or wola |
| LegacyTorch.StricterThanBaseEngine | libsegmenter/SegmenterTorch.py:43-59 | every argument set the torch constructor accepts the base C++ constructor accepts too; whatever the base rejects the torch class rejects, with the same odd-size and negative-sample errors |
| LegacyTorch.Create | libsegmenter/SegmenterTorch.py:7-96 | the constructor raises exactly the first failing check; otherwise it keeps S, H and the mode and holds the pre/interior/post windows edge-corrected, divided by Σw/H and square-rooted in wola mode |
| LegacyTorch.AdaptWindows | libsegmenter/SegmenterTorch.py:62-86 | the three cloned buffers end as the edge-corrected pre and post windows and the plain window, all divided by the normalization when asked |
| LegacyTorch.WolaWithoutFramesBroadcasts | libsegmenter/SegmenterTorch.py:125-130 | in wola mode with no frames the signal is shorter than a frame, so frame 0's product `x[:, 0:S] * self.prewindow` raises the broadcast error before the write into the missing frame; S = 4, H = 2 on a (2, 3) input is such a case |
| LegacyTorch.SegmentSucceedsIff | libsegmenter/SegmenterTorch.py:98-148 | with H dividing S, `_segment` raises nothing exactly on a 1-D input or a 2-D one of more than one column with n + H ≥ S samples, and n ≥ S in wola mode |
| LegacyTorch.Segment | libsegmenter/SegmenterTorch.py:98-157 | `_segment` raises exactly SegmentError (in wola mode without frames the broadcast error of frame 0's product with the pre-window); otherwise it returns n//H − S//H + 1 frames per row, frame k being slice kH .. kH + S times its pre/interior/post weight (plain in ola mode), with a batch axis iff the input had one |
| LegacyTorch.OlaFramesArePlain | libsegmenter/SegmenterTorch.py:144-148 | in ola mode every frame sample is the input sample it was cut from |
| LegacyTorch.UnsegmentSucceedsIff | libsegmenter/SegmenterTorch.py:159-197 | `_unsegment` raises nothing exactly for rank 2 or 3, at least two frames and frames as wide as the window; one frame always raises |
| LegacyTorch.Unsegment | libsegmenter/SegmenterTorch.py:159-202 | `_unsegment` raises exactly UnsegmentError; otherwise it returns (K − 1)·H + S samples per row, each the overlap-add of the frames times their pre/interior/post weights |
| LegacyTorch.CoverageIsOne | libsegmenter/SegmenterTorch.py:61-96 | with edge correction and normalization of an exactly COLA non-negative window, the segment and unsegment weights of K ≥ 2 frames add up to one at every rebuilt sample, in both modes |
| LegacyTorch.CoverageIsCola | libsegmenter/SegmenterTorch.py:61-79 | with edge correction but no normalization those weights add up to the COLA constant |
| LegacyTorch.CoverageIsGain | libsegmenter/SegmenterTorch.py:61-96 | the weights add up to the gain: one when normalized, the COLA constant otherwise |
| LegacyTorch.BuiltReconstructs | libsegmenter/SegmenterTorch.py:61-96 | a segmenter built with edge correction from a non-negative exactly COLA window reconstructs with that gain wherever two or more frames reach |
| LegacyTorch.SampleRebuilt | libsegmenter/SegmenterTorch.py:180-197 | each overlap-added sample of framed frames is the input sample times the gain |
| LegacyTorch.AllRebuilt | libsegmenter/SegmenterTorch.py:180-202 | every sample of the rebuilt signal is the input sample times the gain |
| LegacyTorch.RoundTrip | libsegmenter/SegmenterTorch.py:98-202 | `unsegment(segment(x))` raises the first error of the two calls; otherwise it returns at most n samples per row, all n exactly when n mod H = S mod H, each the input times the gain |
| LegacyTorch.RoundTripSucceedsIff | libsegmenter/SegmenterTorch.py:98-197 | with H dividing S the round trip raises nothing exactly on supported shapes of at least S + H samples |
| LegacyTorch.TwoFramesIff | libsegmenter/SegmenterTorch.py:115-118 | with H dividing S there are at least two frames exactly from S + H samples on |
| LegacyTensorFlow.AcceptedArguments | segmenterTensorFlow.py:13-20 | with normalization out of account, the constructor raises nothing exactly when S is even, 1 ≤ H ≤ S, the window has S samples and the mode is ola or wola; no sign and no COLA check |
| LegacyTensorFlow.NormalizeAlwaysRaises | segmenterTensorFlow.py:40-42 | as written every normalizing constructor raises, and the one that passes the size checks raises the subscript error; without normalization it is the corrected constructor |
| LegacyTensorFlow.DefaultArgumentsRaise | segmenterTensorFlow.py:6-42 | the default arguments with a two-sample rectangular window pass every check yet raise the subscript error |
| LegacyTensorFlow.Create | segmenterTensorFlow.py:6-63 | the corrected constructor raises exactly the first failing check; otherwise it keeps S, H and the mode and holds the edge-corrected windows (the plain one when correction is off) divided by Σw/H and square-rooted in wola mode |
| LegacyTensorFlow.CreateAsWritten | segmenterTensorFlow.py:6-63 | the constructor as written raises exactly its first failure, the subscript error included; whatever it builds does not normalize |
| LegacyTensorFlow.AdaptWindows | segmenterTensorFlow.py:22-49 | the buffers end as the shifted partial sums, normalized when asked, with pre and post replaced by the window when edge correction is off |
| LegacyTensorFlow.LayoutAsWrittenVersusCorrected | segmenterTensorFlow.py:65-73 | as written `segment` reads a shape only at rank two with a column or more, raises IndexError exactly below rank two and ValueError otherwise; at rank two it agrees with the corrected layout, and the two differ exactly on 1-D signals |
| LegacyTensorFlow.SegmentErrorAsWritten | segmenterTensorFlow.py:65-73 | as written `segment` raises IndexError on every input of rank below two and otherwise raises what the corrected `segment` raises |
| LegacyTensorFlow.OneDimensionalSignalRaises | segmenterTensorFlow.py:66 | a four-sample 1-D signal with S = 2, H = 1 is framed by the corrected `segment` and raises IndexError as written |
| LegacyTensorFlow.SegmentWindows | segmenterTensorFlow.py:79-92 | there is one weight of S samples per frame |
| LegacyTensorFlow.AgreesWithTorch | segmenterTensorFlow.py:65-112 | on the shapes torch accepts, with a non-empty batch, torch and the corrected `segment` accept the same signals and weight frames alike, except one wola frame, weighted pre + post here; a column vector is one signal here and rejected by torch; a 1-D signal, which torch accepts, raises IndexError as written |
| LegacyTensorFlow.Segment | segmenterTensorFlow.py:65-112 | `segment` with the corrected layout (a 1-D signal is one signal) raises exactly SegmentError; otherwise it returns n//H − S//H + 1 frames, each the slice kH .. kH + S times its weight, per row of a non-empty batch; an empty batch yields no frames |
| LegacyTensorFlow.UnsegmentSucceedsIff | segmenterTensorFlow.py:116-154 | `unsegment` raises nothing exactly for rank 2, or rank 3 with a row, at least two frames and frames as wide as the window; with a row it fails exactly where torch's fails |
| LegacyTensorFlow.Unsegment | segmenterTensorFlow.py:116-155 | `unsegment` raises exactly UnsegmentError; otherwise it returns (K − 1)·H + S samples per row, each the overlap-add of the frames times their pre/interior/post weights |
| LegacyTensorFlow.RoundTrip | segmenterTensorFlow.py:65-155 | with the corrected layout, `unsegment(segment(x))` raises the first error of the two (always on an empty batch); otherwise at most n samples per row come back, all n exactly when n mod H = S mod H, each g times the input |
| LegacyTensorFlow.LastFrameFits | segmenterTensorFlow.py:75-88 | once `segment` succeeds with frames, the last frame ends within the signal |
| LegacyTensorFlow.AllRebuilt | segmenterTensorFlow.py:125-154 | from two frames on, the overlap-add of the frames rebuilds at most n samples, all of them exactly when n mod H = S mod H, each g times the input |
| LegacyTensorFlow.RoundTripSucceedsIff | segmenterTensorFlow.py:65-154 | with H dividing S the round trip with the corrected layout raises nothing exactly on supported shapes (1-D, or 2-D with a column or more) with a row and at least S + H samples |
| SingleFile.BeginWindow | segmenter.py:13-18 | with its result returned, the begin window is the clone of w with w[n + H] + w[n + 2H] + … added to each sample n: the first-frame partial sums |
| SingleFile.EndWindow | segmenter.py:20-25 | with its result returned, the end window is the clone of w with w[n − H] + w[n − 2H] + … added to each sample n: the last-frame partial sums |
| SingleFile.BeginWindowAsWritten | segmenter.py:13-18 | as written the begin-window helper returns nothing |
| SingleFile.EndWindowAsWritten | segmenter.py:20-25 | as written the end-window helper returns nothing |
| SingleFile.Synthesis | segmenter.py:76-96 | the stored synthesis windows have the length of the output window |
| SingleFile.RectangularHasDc | segmenter.py:100-104 | a rectangular window scaled by any factor below 10^8 fails the DC check |
| SingleFile.ValidWindowStillRaises | segmenter.py:6-8 | a tensor window of the right length passes the intended window check, yet the constructor as written raises a NameError on it |
| SingleFile.GuardsAgree | segmenter.py:49-74 | the constructor as written and the corrected one raise the same error on an odd size, on a hop above the size and on a window argument that is not a tensor |
| SingleFile.Create | segmenter.py:31-104 | the corrected constructor raises exactly its first failing check; otherwise it keeps S and H, the analysis windows corrected at the boundaries (or clones), and the synthesis windows corrected and divided by the first sample of the first-frame window |
| SingleFile.CorrectedWindows | segmenter.py:76-87 | the three buffers are the begin window, the window and the end window when boundary corrections are on, and three clones otherwise |
| SingleFile.NormalizeWindows | segmenter.py:92-96 | each of the three windows is divided by the factor in place |
| SingleFile.SegmentSucceedsIff | segmenter.py:121-138 | `segment` raises nothing exactly on a 1-D or 2-D signal of at least S − H samples, and then every frame it cuts lies inside the signal |
| SingleFile.PlainWindows | segmenter.py:127-135 | there is one all-ones weight of S samples per frame |
| SingleFile.Segment | segmenter.py:121-138 | `segment` raises exactly SegmentError; otherwise it returns (N − S)//H + 1 frames per row, frame k being the slice kH .. kH + S |
| SingleFile.FramesArePlain | segmenter.py:127-135 | every frame sample is the signal sample it was cut from |
| SingleFile.UnsegmentAsWrittenRaises | segmenter.py:140-165 | the intended `unsegment` succeeds exactly for rank 2 or 3, two frames or more and frames of S samples, and wherever it does the one as written raises AttributeError |
| SingleFile.Unsegment | segmenter.py:140-165 | once the window attributes exist, `unsegment` raises exactly UnsegmentError; otherwise it returns (K − 1)·H + S samples per row, each the overlap-add of the frames times prewindow, window and postwindow |
| SingleFile.FactorIsCola | segmenter.py:92-93 | the normalization factor of a boundary-corrected exactly COLA window is its COLA constant |
| SingleFile.BuiltReconstructs | segmenter.py:76-96 | a segmenter built with boundary corrections and normalization from an exactly COLA window weighs K ≥ 2 plain frames to one at every sample |
| SingleFile.CoverageIsOne | segmenter.py:76-96 | at each sample the synthesis weights of K ≥ 2 plain frames add up to one |
| SingleFile.AllRebuilt | segmenter.py:140-163 | every sample that K ≥ 2 plain frames rebuild is the input sample |
| SingleFile.RoundTrip | segmenter.py:121-165 | `unsegment(segment(x))` raises the first error of the two calls; otherwise every rebuilt sample is the input sample, and all N come back exactly when H divides N − S |
| SingleFile.RebuiltLength | segmenter.py:123 | the (K − 1)·H + S rebuilt samples are all of the input exactly when H divides N − S |
| LegacyNumpy.WindowObjectsAreValid | libsegmenter/SegmenterNumpy.py:6-15 | every window object `windowObjectNumpy` builds gives a segmenter with a positive hop and windows of S samples |
| LegacyNumpy.WindowOr | libsegmenter/SegmenterNumpy.py:45-50 | a window that is present is used as is |
| LegacyNumpy.SegmentSucceedsIff | libsegmenter/SegmenterNumpy.py:17-50 | with an analysis window, `_segment` raises nothing exactly on 1-D and 2-D signals with a non-negative frame count whose last frame, if any, ends inside them (S mod H ≤ n mod H) |
| LegacyNumpy.AnalysisWindows | libsegmenter/SegmenterNumpy.py:45-50 | there is one weight per frame |
| LegacyNumpy.Segment | libsegmenter/SegmenterNumpy.py:17-59 | `_segment` raises exactly SegmentError; otherwise it returns n//H − S//H + 1 frames per row, frame k being slice kH .. kH + S times the analysis window, with one more axis than the input |
| LegacyNumpy.RankMessageRaises | libsegmenter/SegmenterNumpy.py:61-78 | `_unsegment` as written differs from the intended one exactly on unsupported ranks, where the intended ValueError becomes an AttributeError |
| LegacyNumpy.SynthesisWindows | libsegmenter/SegmenterNumpy.py:87-90 | there is one weight per frame |
| LegacyNumpy.Unsegment | libsegmenter/SegmenterNumpy.py:61-95 | with its message corrected, `_unsegment` raises exactly UnsegmentError; otherwise it returns (K − 1)·H + S samples per row, each the overlap-add of the frames times the synthesis window, with one axis fewer |
| LegacyNumpy.RoundTrip | libsegmenter/SegmenterNumpy.py:17-95 | `_unsegment(_segment(x))` raises the first error of the two; without frames it returns S − H zeros; with frames all n samples come back exactly when n mod H = S mod H, each the input sample times the analysis·synthesis envelope of the K frames |
| LegacyNumpy.EnvelopeRebuilt | libsegmenter/SegmenterNumpy.py:83-90 | the overlap-add of K ≥ 1 framed frames is all of the input exactly when n mod H = S mod H, and each sample is the input times the analysis·synthesis envelope |
| LegacyNumpy.RectangularRebuilt | libsegmenter/SegmenterNumpy.py:45-90 | with the ola or wola window object of a rectangular scheme, every sample from S − H on that a further frame covers comes back unchanged |
| LegacyNumpy.SpectralHelpersAlwaysRaise | libsegmenter/SegmenterNumpy.py:115-199 | even on well-shaped spectrograms, on which the torch helpers raise nothing, the numpy helpers raise AttributeError |
| Bpd.Wrap | libsegmenter/SegmenterTorch.py:247-251 | `angle(exp(iθ))` is an angle in (−π, π] |
| Bpd.WrapUnique | libsegmenter/SegmenterTorch.py:247-251 | the angle in (−π, π] a whole number of turns from θ is the wrap of θ |
| Bpd.WrapPeriodic | libsegmenter/SegmenterTorch.py:247-251 | whole turns do not change the wrap |
| Bpd.WrapFixes | libsegmenter/SegmenterTorch.py:247-251 | the wrap leaves an angle of (−π, π] alone |
| Bpd.TransformSegment | libsegmenter/SegmenterTorch.py:247-251 | one segment of one row becomes the wrapped phase change less the bin's advance 2π·f·H/F; nothing else changes |
| Bpd.TransformRow | libsegmenter/SegmenterTorch.py:246-251 | every segment of row b becomes its BPD; other rows are unchanged |
| Bpd.Transform | libsegmenter/SegmenterTorch.py:222-265 | `bpd_transform` raises exactly TransformError (no rank 2 or 3, a bin count other than F//2 + 1, segment 0 of none); otherwise bpd[0] = wrap(p_0 − m_f) and bpd[s] = wrap(p_s − p_{s−1} − m_f) everywhere |
| Bpd.InverseColumn | libsegmenter/SegmenterTorch.py:290-292 | one bin of one row becomes the wrap of the running sum of bpd + m_f; nothing else changes |
| Bpd.InverseRow | libsegmenter/SegmenterTorch.py:289-292 | every bin of row b is rebuilt; other rows are unchanged |
| Bpd.Inverse | libsegmenter/SegmenterTorch.py:267-301 | `inverse_bpd_transform` raises exactly InverseError (the rank, the bin count); otherwise phase[s, f] = wrap(Σ_{t ≤ s} (bpd[t, f] + m_f)) everywhere |
| Bpd.RunningSumTelescopes | libsegmenter/SegmenterTorch.py:282-300 | the cumulative sum of the BPD of P through segment s − 1 is p_{s−1} plus whole turns |
| Bpd.InverseOfBpd | libsegmenter/SegmenterTorch.py:222-301 | the inverse of the BPD of P is the wrap of P, sample by sample |
| Bpd.RoundTrip | libsegmenter/SegmenterTorch.py:222-301 | `inverse_bpd_transform(bpd_transform(P))` raises what the transform raises; otherwise it returns P modulo 2π, and P itself wherever P lies in (−π, π] |
| Bpd.KeepRealEdges | libsegmenter/SegmenterTorch.py:305-310 | the first and last bin of one segment keep their real part and lose their imaginary part; nothing else changes |
| Bpd.KeepRealEdgesOfRow | libsegmenter/SegmenterTorch.py:305-310 | the same for every segment of row b |
| Bpd.Assemble | libsegmenter/SegmenterTorch.py:303-311 | `assemble_spectrogram_magnitude_phase` raises exactly AssembleError; otherwise every bin is mag·e^{i·phase}, except that the first and the last bin of a 2-D or 3-D spectrogram keep only their real part |
| Bpd.RealEdgesUnchanged | libsegmenter/SegmenterTorch.py:303-311 | where the edge bins' phases have zero sine, the assembly is mag·e^{i·phase} everywhere |
| Bpd.EdgesAreReal | libsegmenter/SegmenterTorch.py:305-310 | the edge bins of an assembled 2-D or 3-D spectrogram are real, the first with real part mag·cos(phase) |

## Left out

- The FFT layer: `spectrogram`, `unspectrogram`, the rfft/irfft branches of `_segment` and `_unsegment`, FftInterface.hpp and src/libsegmenter/transforms. These are calls into external transform libraries. `magnitude_spectrogram`, `phase_spectrogram` and `assemble_spectrogram_real_imag` are one-line calls of `abs`, `angle` and complex addition, and are not modelled either.
- Window formulas: the bartlett, blackman, hamming, hann and kaiser samples, Windows.hpp and the window functions of the header are floating-point formulas. Their samples are inputs (`Selectors.Family -> seq<real>`, `hann: nat -> seq<real>`), and only the rectangular windows are computed.
- The transform magnitudes |W_k| of the COLA test are an input sequence of non-negative reals. The complex-exponential sums that compute them, and the fact that a small bound implies exact COLA, are not modelled. Exact COLA is a hypothesis of the reconstruction theorems.
- Floating point: all samples are exact reals. Rounding, inf and NaN are not modelled. The one NaN the model states is the hop-0 verdict of the COLA tests, as the false comparison it yields. Reconstruction "within 1e-5" in the tests is proved as exact equality.
- Cola.CheckCola: requires a non-empty window. With an empty one, libsegmenter/base/Cola.hpp:64 reads the first entry of a zero-length buffer, which is undefined behaviour. With hop 0 only the verdict (false) is stated; the source's normalizationValue and epsilon are then inf or NaN and are not constrained.
- Cola.CheckColaLegacy: requires a non-empty window. With an empty one, libsegmenter/Segmenter.hpp:129 reads the first entry of a zero-length buffer, which is undefined behaviour. With hop 0 only the verdict (false) is stated; the normalizationValue is then inf or NaN and is not constrained.
- Cola.CheckColaTriple: on the two errors the other outputs carry no meaning and are not constrained.
- The square root, cosine and sine are function parameters. `Samples.IsSqrt` states sqrt(a) ≥ 0 and sqrt(a)·sqrt(a) = a for a ≥ 0.
- Dividing by a zero window sum. The source then produces inf or NaN samples. The constructors `Engine.Segmenter.Create`, `LegacyEngine.LegacySegmenter.Create`, `LegacyTorch.Create`, `LegacyTensorFlow.Create` and `SingleFile.Create` require a non-zero divisor when they normalize. `WindowObjects.WindowObjectNumpy` returns the error `NonFiniteWindow` for it.
- LegacyEngine.LegacySegmenter.Create: the constructor of libsegmenter/Segmenter.hpp is ill-formed once the class template is instantiated. Line 215 passes the member `m_window`, a `std::unique_ptr<T>` (line 180), where `checkCola` takes `const T*` (line 112), and lines 222, 234 and 239 call `std::make_unique<T[windowSize]>()` with a runtime bound. libsegmenter/SegmenterBindings.cpp includes the header but never instantiates the class. The model follows the evident semantics of the constructor's loops and runs the COLA test on the window it is given.
- LegacyEngine.LegacySegmenter.Create: excludes only frame size 0 with hop 0 and an empty window, which passes every check and makes checkCola read the first entry of an empty buffer (libsegmenter/Segmenter.hpp:129), undefined behaviour. Any other hop 0 input reaches checkCola, whose floating-point division Σw/0 (Segmenter.hpp:116-122) gives NaN bounds, so the constructor throws "not COLA compliant" (`LegacyEngine.Rejection`).
- SingleFile.Create: requires H ≥ 1, so hop 0 is not modelled as an error. With H = 0 and boundary corrections on, the first pass of the begin-window helper (segmenter.py:17) adds the S-sample window to the empty slice `begwindow[:-0]`; for every even S ≥ 2 torch raises a RuntimeError for the shape mismatch (for S = 0 the loop does not run). With boundary corrections off, `segment` raises ZeroDivisionError at `(N - S) // self.hop_size` (segmenter.py:123), during the reconstruction check or at the first call.
- SingleFile.Create: the random signal-to-error test of `check_perfect_reconstruction` (segmenter.py:106-119) is replaced by the theorem `SingleFile.RoundTrip`. The unused `check_cola` and `check_perfect_reconstruction_ser_db` arguments are not modelled.
- Bpd.Transform: requires F ≥ 1. With F = 0 the modulation divides by zero.
- Engine.Segmenter.Segment: requires H to divide S and N ≥ S once the shapes pass validation. Outside these conditions the source reads or writes outside its buffers. `Engine.ReadsInBoundsIffHopDividesFrame` states when the reads stay in bounds.
- Engine.Segmenter.Unsegment: requires H to divide S and at least S output samples, for the same reason. It adds to whatever the output buffer holds. The bindings pass an uninitialised buffer (libsegmenter/bindings/SegmenterBindings.cpp), and `Engine.Segmenter.RoundTrip` zeroes it.
- Broadcasting: torch and numpy broadcast a slice of one sample against a whole window. The models of `_segment` report every slice shorter than the window as a broadcast error instead (`LegacyTorch.SegmentError`, `LegacyNumpy.SegmentError`, `Backends.SegmentError`). The TensorFlow model reports it as a reshape error. Likewise numpy, torch and TensorFlow broadcast frames one sample wide against the window in `unsegment`, and the models report every frame whose width is not the frame size as a broadcast error (`LegacyTorch.UnsegmentError`, `LegacyTensorFlow.UnsegmentError`, `SingleFile.UnsegmentError`, `LegacyNumpy.UnsegmentError`, `Backends.UnsegmentError`).
- Backends: the torch and TensorFlow backends size their frames by `self.window.segment_size` (src/libsegmenter/backends/SegmenterTorch.py:54-76, src/libsegmenter/backends/SegmenterTensorFlow.py:50-66); the numpy backend uses `analysis_window.shape[-1]`. The Window class that holds `segment_size` is not part of this model, so `Backends.Window` has no such field and every backend sizes its frames by the analysis window's length.
- Type checks: the `isinstance` tests that raise TypeError for a non-tensor argument, and the conversions between numpy, torch and TensorFlow tensors. Arguments are arrays of the right kind by construction.
- Devices and dtypes (`factory_kwargs`, `.to(device)`) and torch's `nn.Module` base are not modelled.
- One-dimensional input to the src torch and TensorFlow backends fails as written, because they allocate with `batch_size` None (`Backends.UnbatchedOnlyOnNumpy`). A corrected unbatched path for them is not modelled.
- WindowObjects.Asymmetric: the asymmetric ola scheme is modelled as the NameError of its call to an undefined `hann` (libsegmenter/windowObjectNumpy.py:95). No corrected ola window is modelled.
- The debug prints of src/libsegmenter/backends/SegmenterTorch.py:131-133 and the `__main__` tests of segmenter.py are not modelled.
- Not modelled: the pybind bindings, Serialize.hpp (Boost XML), setup.py, the dispatch in src/libsegmenter/Segmenter.py and src/libsegmenter/transforms/Spectrogram.py, src/libsegmenter/WindowSelector.py (every branch raises), and the matplotlib scripts.

## Findings

| source | as written | input that shows it | evidently intended | confidence | as-written member | corrected member |
|---|---|---|---|---|---|---|
| libsegmenter/Segmenter.hpp:239-242 | the loop meant to copy the window into the last-frame window writes the first-frame window again, so the last-frame window stays zero | S = 2, H = 1, w = [1, 1], ola, no edge correction, no normalization: last-frame window [0, 0] | the last-frame window is a copy of the window | not executed | LegacyEngine.PostWindowNeverCopied | LegacyEngine.LegacySegmenter.Create |
| libsegmenter/Segmenter.hpp:243-257 | the edge-correction passes add each sample to itself, not to its position shifted by the hop | S = 4, H = 2, w = [0, 1, 1, 0]: first-frame window [0, 1, 2, 0] and last-frame window [0, 1, 0, 0] | the shift sums [1, 1, 1, 0] and [0, 1, 1, 1] of the base library | not executed | LegacyEngine.EdgeCorrectionUnshifted | LegacyEngine.ShiftedEdgeCorrection |
| defaultWindowSelector.py:116-119 | the rectangular50 branch builds its window and hop but returns nothing | ("rectangular50", 4) returns None | (four ones, hop 2), as the newer selector returns | not executed | Selectors.LegacyRectangular50ReturnsNothing | Selectors.CorrectedSelectorsAgree |
| src/libsegmenter/backends/SegmenterTensorFlow.py:107-113 | the scatter indices leave out the frame's start, so every frame is added into samples 0 .. S − 1 | two frames whose last frame ends in a non-zero weighted sample: the last rebuilt sample is 0 | frame k added into samples kH .. kH + S − 1, as in the numpy backend | not executed | Backends.TensorFlowDiffersFromOverlapAdd | Backends.ReconstructionEnvelope |
| segmenterTensorFlow.py:66 | the rank test and `x.shape[1] > 1` are combined with `&`, which does not short-circuit, so `x.shape[1]` is read on every input | a 1-D signal of 4 samples with S = 2, H = 1 raises IndexError | a 1-D signal is one signal of shape[0] samples, as the `elif` at line 69 and the error message intend | not executed | LegacyTensorFlow.OneDimensionalSignalRaises | LegacyTensorFlow.Segment |
| segmenterTensorFlow.py:40-42 | normalization subscripts the bool that checkCola.py returns | the default arguments with S = 2, H = 1, w = [1, 1] raise TypeError | divide the windows by the COLA normalization Σw/H | not executed | LegacyTensorFlow.DefaultArgumentsRaise | LegacyTensorFlow.Create |
| segmenter.py:13-25 | the begin-window and end-window helpers compute their windows and return None | any window, e.g. S = 2, H = 1, w = [1, 1]: None | return the computed window | not executed | SingleFile.BeginWindowAsWritten | SingleFile.BeginWindow |
| segmenter.py:6-8 | window validation compares a torch.Size with an int and formats the undefined name `iwindow` | S = 2, H = 1 and two windows of 2 samples: NameError | raise only when the window length differs from S | not executed | SingleFile.ValidWindowStillRaises | SingleFile.Create |
| segmenter.py:140-163 | `unsegment` reads `prewindow`, `window` and `postwindow`, which no constructor sets | two frames of S samples: AttributeError | overlap-add with the stored synthesis windows | not executed | SingleFile.UnsegmentAsWrittenRaises | SingleFile.Unsegment |
| libsegmenter/SegmenterNumpy.py:74-78 | the rank error message asks an ndarray for `.dim()` | a 4-D array: AttributeError instead of ValueError | ValueError naming the rank | not executed | LegacyNumpy.RankMessageRaises | LegacyNumpy.Unsegment |
| libsegmenter/SegmenterNumpy.py:115-199 | the spectral helpers ask an ndarray for `.dim()` and use `torch`, which the file does not import | a phase spectrogram of shape (1, S//2 + 1): AttributeError | the helpers of the torch segmenter | not executed | LegacyNumpy.SpectralHelpersAlwaysRaise | Bpd.RoundTrip |
