/**
 * Shape derivation and validation of the C++ segmenter
 * (libsegmenter/base/Parameters.hpp).
 *
 * Every dimension is a `std::size_t`; the subtraction in the frame count and
 * the product in the sample count are taken modulo 2^64, as unsigned C++
 * arithmetic does.  The `std::array` out-parameters become returned values.
 */
module Shapes {
  import Frames

  const SizeLimit: int := 0x1_0000_0000_0000_0000

  /** A value of type std::size_t. */
  type Size = x: nat | x < SizeLimit

  /** Unsigned 64-bit wrap-around. */
  function Wrap(x: int): Size
  {
    x % SizeLimit
  }

  /** An unsegmented buffer: batch x samples. */
  datatype Shape2 = Shape2(batch: Size, samples: Size)

  /** A segmented buffer: batch x frames x frame length (frame size or bin count). */
  datatype Shape3 = Shape3(batch: Size, frames: Size, width: Size)

  /** The distinct runtime errors the shape functions throw. */
  datatype ShapeError =
    | NotHopMultiple      // "specified input shape is not a modulus of the specified hop size"
    | BatchMismatch       // "input and output batch sizes different ..."
    | FrameCountMismatch  // "output frame count invalid for given input shape"
    | FrameSizeMismatch   // "output frame size invalid for configured frame size"
    | NotRadix2           // "... non-radix 2 frame size, spectrogram is thus not supported"

  datatype Result<T> = Ok(value: T) | Err(error: ShapeError)

  datatype Outcome = Pass | Fail(error: ShapeError)

  /** Frame count `samples/hop - frameSize/hop + 1` in size_t arithmetic. */
  function FrameCount(samples: Size, frameSize: Size, hop: Size): Size
    requires hop >= 1
  {
    Wrap(samples / hop - frameSize / hop + 1)
  }

  /** The size_t frame count is the mathematical one unless it would be negative. */
  lemma FrameCountNoWrap(samples: Size, frameSize: Size, hop: Size)
    requires hop >= 1
    ensures frameSize >= 1 && samples / hop + 1 >= frameSize / hop ==>
              FrameCount(samples, frameSize, hop) == Frames.NumSegments(samples, hop, frameSize)
    ensures samples / hop + 1 < frameSize / hop ==>
              FrameCount(samples, frameSize, hop) == Frames.NumSegments(samples, hop, frameSize) + SizeLimit
  {
    var k := Frames.NumSegments(samples, hop, frameSize);
    Frames.DivBounds(samples, hop);
    Frames.DivBounds(frameSize, hop);
    if frameSize >= 1 && k >= 0 {
      Frames.DivOfMultiple(0, SizeLimit, k);
    } else if k < 0 {
      Frames.DivOfMultiple(-1, SizeLimit, k + SizeLimit);
    }
  }

  /** Shape of the frames cut from an unsegmented buffer, last dimension `width`. */
  function ShapeFromUnsegmented(frameSize: Size, hop: Size, uns: Shape2, width: Size): (r: Result<Shape3>)
    requires hop >= 1
    ensures r.Err? <==> uns.samples % hop != 0
    ensures r.Err? ==> r.error == NotHopMultiple
    ensures r.Ok? ==> r.value.batch == uns.batch && r.value.width == width
    ensures r.Ok? && frameSize >= 1 && uns.samples / hop + 1 >= frameSize / hop ==>
              r.value.frames == Frames.NumSegments(uns.samples, hop, frameSize)
  {
    FrameCountNoWrap(uns.samples, frameSize, hop);
    if uns.samples % hop != 0 then Err(NotHopMultiple)
    else Ok(Shape3(uns.batch, FrameCount(uns.samples, frameSize, hop), width))
  }

  /** Sample count `(frames - 1) * hop + frameSize` in size_t arithmetic. */
  function SampleCount(frames: Size, frameSize: Size, hop: Size): Size
  {
    Wrap((frames - 1) * hop + frameSize)
  }

  /** Without overflow the size_t sample count keeps the frame size's residue modulo the hop. */
  lemma SampleCountNoWrap(frames: Size, frameSize: Size, hop: Size)
    requires hop >= 1
    ensures frames >= 1 && Frames.NumSamples(frames, hop, frameSize) < SizeLimit ==>
              SampleCount(frames, frameSize, hop) == Frames.NumSamples(frames, hop, frameSize) &&
              SampleCount(frames, frameSize, hop) % hop == frameSize % hop
  {
    if frames >= 1 && Frames.NumSamples(frames, hop, frameSize) < SizeLimit {
      assert (frames - 1) * hop >= 0;
      Frames.DivShift(frameSize, frames - 1, hop);
    }
  }

  /** Shape of the buffer rebuilt from frames; throws when the length is no hop multiple. */
  function ShapeFromSegmented(frameSize: Size, hop: Size, seg: Shape3): (r: Result<Shape2>)
    requires hop >= 1
    ensures r.Err? ==> r.error == NotHopMultiple
    ensures r.Ok? ==> r.value.batch == seg.batch
    ensures seg.frames >= 1 && Frames.NumSamples(seg.frames, hop, frameSize) < SizeLimit ==>
              (r.Ok? <==> frameSize % hop == 0) &&
              (r.Ok? ==> r.value.samples == Frames.NumSamples(seg.frames, hop, frameSize))
  {
    var samples := SampleCount(seg.frames, frameSize, hop);
    SampleCountNoWrap(seg.frames, frameSize, hop);
    if samples % hop != 0 then Err(NotHopMultiple) else Ok(Shape2(seg.batch, samples))
  }

  /** getSegmentationShapeFromUnsegmented: the frame length is the frame size. */
  function SegmentationShapeFromUnsegmented(frameSize: Size, hop: Size, uns: Shape2): (r: Result<Shape3>)
    requires hop >= 1
    ensures r.Ok? <==> uns.samples % hop == 0
    ensures r.Ok? ==> r.value.width == frameSize
  {
    ShapeFromUnsegmented(frameSize, hop, uns, frameSize)
  }

  /** getSpectrogramShapeFromUnsegmented: the frame length is the bin count frameSize/2 + 1. */
  function SpectrogramShapeFromUnsegmented(frameSize: Size, hop: Size, uns: Shape2): (r: Result<Shape3>)
    requires hop >= 1
    ensures r.Ok? <==> uns.samples % hop == 0
    ensures r.Ok? ==> r.value.width == frameSize / 2 + 1
  {
    ShapeFromUnsegmented(frameSize, hop, uns, frameSize / 2 + 1)
  }

  /** Spectrogram and segmentation shapes differ in the last dimension only. */
  lemma SpectrogramDiffersInWidthOnly(frameSize: Size, hop: Size, uns: Shape2)
    requires hop >= 1
    ensures SpectrogramShapeFromUnsegmented(frameSize, hop, uns).Ok?
            <==> SegmentationShapeFromUnsegmented(frameSize, hop, uns).Ok?
    ensures SegmentationShapeFromUnsegmented(frameSize, hop, uns).Ok? ==>
              SpectrogramShapeFromUnsegmented(frameSize, hop, uns).value
              == SegmentationShapeFromUnsegmented(frameSize, hop, uns).value.(width := frameSize / 2 + 1)
  {
  }

  /**
   * Round trip: when the hop divides both the frame size and the sample count and the
   * buffer holds at least one frame, the sample count is recovered from the frame count.
   */
  lemma SegmentationShapeRoundTrip(frameSize: Size, hop: Size, uns: Shape2)
    requires hop >= 1 && frameSize % hop == 0 && uns.samples % hop == 0
    requires 1 <= frameSize <= uns.samples
    ensures SegmentationShapeFromUnsegmented(frameSize, hop, uns).Ok?
    ensures ShapeFromSegmented(frameSize, hop, SegmentationShapeFromUnsegmented(frameSize, hop, uns).value)
            == Ok(uns)
  {
    Frames.DivMonotone(frameSize, uns.samples, hop);
    var seg := SegmentationShapeFromUnsegmented(frameSize, hop, uns).value;
    var k := Frames.NumSegments(uns.samples, hop, frameSize);
    FrameCountNoWrap(uns.samples, frameSize, hop);
    assert seg.frames == k;
    Frames.AtLeastOneSegment(uns.samples, hop, frameSize);
    Frames.NumSamplesOfNumSegments(uns.samples, hop, frameSize);
  }

  /** Compares a given frame shape field by field against the derived one. */
  function CompareShape(given: Shape3, expected: Shape3): (r: Outcome)
    ensures r == Pass <==> given == expected
    ensures r == Fail(BatchMismatch) <==> given.batch != expected.batch
    ensures r == Fail(FrameCountMismatch) <==>
              given.batch == expected.batch && given.frames != expected.frames
    ensures r == Fail(FrameSizeMismatch) <==>
              given.batch == expected.batch && given.frames == expected.frames && given.width != expected.width
  {
    if given.batch != expected.batch then Fail(BatchMismatch)
    else if given.frames != expected.frames then Fail(FrameCountMismatch)
    else if given.width != expected.width then Fail(FrameSizeMismatch)
    else Pass
  }

  /** validateSegmentationShape. */
  function ValidateSegmentationShape(frameSize: Size, hop: Size, uns: Shape2, seg: Shape3): (r: Outcome)
    requires hop >= 1
    ensures uns.samples % hop != 0 ==> r == Fail(NotHopMultiple)
    ensures frameSize >= 1 && uns.samples / hop + 1 >= frameSize / hop ==>
              (r == Pass <==>
                 uns.samples % hop == 0 && seg.batch == uns.batch &&
                 seg.frames == Frames.NumSegments(uns.samples, hop, frameSize) && seg.width == frameSize)
    ensures r.Fail? && r.error != NotHopMultiple ==> uns.samples % hop == 0
  {
    match SegmentationShapeFromUnsegmented(frameSize, hop, uns)
    case Err(e) => Fail(e)
    case Ok(expected) => CompareShape(seg, expected)
  }

  // ---------------------------------------------------------------------
  // The radix-2 test `n && !(n & (n - 1))`.

  /** Bitwise AND of two unsigned integers, bit by bit from the least significant. */
  function BitAnd(a: nat, b: nat): (r: nat)
    ensures r <= a
  {
    if a == 0 || b == 0 then 0
    else 2 * BitAnd(a / 2, b / 2) + (if a % 2 == 1 && b % 2 == 1 then 1 else 0)
  }

  /** n is 1, 2, 4, 8, ... */
  predicate IsPowerOfTwo(n: nat)
  {
    n == 1 || (n >= 2 && n % 2 == 0 && IsPowerOfTwo(n / 2))
  }

  lemma {:induction false} BitAndSelf(a: nat)
    ensures BitAnd(a, a) == a
  {
    if a != 0 {
      BitAndSelf(a / 2);
    }
  }

  /** The bit trick used by the C++ code decides exactly the powers of two. */
  lemma {:induction false} Radix2Test(n: nat)
    ensures (n != 0 && BitAnd(n, n - 1) == 0) <==> IsPowerOfTwo(n)
  {
    if n >= 2 {
      var m := n / 2;
      if n % 2 == 0 {
        assert (n - 1) / 2 == m - 1 && (n - 1) % 2 == 1;
        assert BitAnd(n, n - 1) == 2 * BitAnd(m, m - 1);
        Radix2Test(m);
      } else {
        assert (n - 1) / 2 == m && (n - 1) % 2 == 0;
        assert BitAnd(n, n - 1) == 2 * BitAnd(m, m);
        BitAndSelf(m);
      }
    }
  }

  /** The radix-2 guard of validateSpectrogramShape. */
  function Radix2Guard(frameSize: Size): (r: bool)
    ensures r <==> IsPowerOfTwo(frameSize)
  {
    Radix2Test(frameSize);
    frameSize != 0 && BitAnd(frameSize, frameSize - 1) == 0
  }

  /** validateSpectrogramShape: radix-2 frame size first, then the field comparisons. */
  function ValidateSpectrogramShape(frameSize: Size, hop: Size, uns: Shape2, seg: Shape3): (r: Outcome)
    requires hop >= 1
    ensures !IsPowerOfTwo(frameSize) ==> r == Fail(NotRadix2)
    ensures IsPowerOfTwo(frameSize) && uns.samples % hop != 0 ==> r == Fail(NotHopMultiple)
    ensures frameSize >= 1 && uns.samples / hop + 1 >= frameSize / hop ==>
              (r == Pass <==>
                 IsPowerOfTwo(frameSize) && uns.samples % hop == 0 && seg.batch == uns.batch &&
                 seg.frames == Frames.NumSegments(uns.samples, hop, frameSize) &&
                 seg.width == frameSize / 2 + 1)
  {
    if !Radix2Guard(frameSize) then Fail(NotRadix2)
    else match SpectrogramShapeFromUnsegmented(frameSize, hop, uns)
      case Err(e) => Fail(e)
      case Ok(expected) => CompareShape(seg, expected)
  }

  /** getSpectrogramShapeFromSegmented computes the same sample count as the segmentation one. */
  function SpectrogramShapeFromSegmented(frameSize: Size, hop: Size, seg: Shape3): (r: Result<Shape2>)
    requires hop >= 1
    ensures r.Ok? ==> r.value.batch == seg.batch
    ensures seg.frames >= 1 && Frames.NumSamples(seg.frames, hop, frameSize) < SizeLimit ==>
              (r.Ok? <==> frameSize % hop == 0) &&
              (r.Ok? ==> r.value.samples == Frames.NumSamples(seg.frames, hop, frameSize))
  {
    ShapeFromSegmented(frameSize, hop, seg)
  }
}
