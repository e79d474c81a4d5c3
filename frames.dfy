/**
 * Frame-count arithmetic shared by every segmenter backend
 * (src/libsegmenter/backends/common.py).
 *
 * Python's `//` floors; for the positive hop sizes used here it agrees
 * with Dafny's Euclidean `/` on every (possibly negative) numerator.
 */
module Frames {

  /** Number of frames of `segmentSize` samples, `hop` apart, for `numSamples` samples. */
  function NumSegments(numSamples: int, hop: int, segmentSize: int): int
    requires hop >= 1
  {
    numSamples / hop - segmentSize / hop + 1
  }

  /** Number of samples spanned by `numSegments` overlapping frames. */
  function NumSamples(numSegments: int, hop: int, segmentSize: int): int
  {
    (numSegments - 1) * hop + segmentSize
  }

  /** Frame count used by the legacy single-file segmenter: (N - S) // H + 1. */
  function LegacyNumSegments(numSamples: int, hop: int, segmentSize: int): int
    requires hop >= 1
  {
    (numSamples - segmentSize) / hop + 1
  }

  /**
   * The count (n − S)//H + 1 is positive exactly when a frame fits, and then
   * its last frame ends within the n samples.
   */
  lemma LegacyFramesFit(n: int, hop: int, segmentSize: int)
    requires hop >= 1
    ensures LegacyNumSegments(n, hop, segmentSize) >= 1 <==> n >= segmentSize
    ensures LegacyNumSegments(n, hop, segmentSize) >= 1 ==>
              NumSamples(LegacyNumSegments(n, hop, segmentSize), hop, segmentSize) <= n
  {
    var q := (n - segmentSize) / hop;
    assert n - segmentSize == q * hop + (n - segmentSize) % hop;
    MulSign(q, hop);
  }

  /** Sign of a product with a positive factor. */
  lemma MulSign(d: int, hop: int)
    requires hop >= 1
    ensures d >= 1 ==> d * hop >= hop
    ensures d <= -1 ==> d * hop <= -hop
  {
    assert d * hop - hop == (d - 1) * hop;
    assert d * hop + hop == (d + 1) * hop;
  }

  /** Exact division of an exact multiple. */
  lemma DivOfMultiple(q: int, hop: int, r: int)
    requires hop >= 1 && 0 <= r < hop
    ensures (q * hop + r) / hop == q && (q * hop + r) % hop == r
  {
    var x := q * hop + r;
    var d := q - x / hop;
    assert d * hop == x % hop - r;
    MulSign(d, hop);
  }

  /** Shifting the numerator by m hops shifts the quotient by m. */
  lemma DivShift(x: int, m: int, hop: int)
    requires hop >= 1
    ensures (x + m * hop) / hop == x / hop + m
    ensures (x + m * hop) % hop == x % hop
  {
    DivOfMultiple(x / hop + m, hop, x % hop);
    assert x + m * hop == (x / hop + m) * hop + x % hop;
  }

  /** A signal of S + m·H samples holds exactly m + 1 frames. */
  lemma NumSegmentsOfExactLength(m: nat, hop: int, segmentSize: int)
    requires hop >= 1
    ensures NumSegments(segmentSize + m * hop, hop, segmentSize) == m + 1
  {
    DivShift(segmentSize, m, hop);
  }

  /** Counting frames of the span of K frames gives back K. */
  lemma NumSegmentsOfNumSamples(k: int, hop: int, segmentSize: int)
    requires hop >= 1
    ensures NumSegments(NumSamples(k, hop, segmentSize), hop, segmentSize) == k
  {
    DivShift(segmentSize, k - 1, hop);
  }

  /** The span of the frames of n samples drops n's remainder and keeps S's. */
  lemma NumSamplesOfNumSegments(n: int, hop: int, segmentSize: int)
    requires hop >= 1
    ensures NumSamples(NumSegments(n, hop, segmentSize), hop, segmentSize)
            == (n / hop) * hop + segmentSize % hop
    ensures NumSamples(NumSegments(n, hop, segmentSize), hop, segmentSize) == n
            <==> n % hop == segmentSize % hop
  {
    var k := NumSegments(n, hop, segmentSize);
    calc {
      NumSamples(k, hop, segmentSize);
      (n / hop - segmentSize / hop) * hop + segmentSize;
      { assert segmentSize == (segmentSize / hop) * hop + segmentSize % hop; }
      (n / hop) * hop + segmentSize % hop;
    }
    assert n == (n / hop) * hop + n % hop;
  }

  /** K >= 1 frames span at least S samples, and each extra frame adds exactly H. */
  lemma NumSamplesGrowth(k: int, hop: int, segmentSize: int)
    requires hop >= 1
    ensures k >= 1 ==> NumSamples(k, hop, segmentSize) >= segmentSize
    ensures NumSamples(k + 1, hop, segmentSize) == NumSamples(k, hop, segmentSize) + hop
  {
    if k >= 1 {
      assert (k - 1) * hop >= 0;
    }
  }

  /** The frame count never decreases with the length and rises by one per H samples. */
  lemma NumSegmentsGrowth(n: int, d: nat, hop: int, segmentSize: int)
    requires hop >= 1
    ensures NumSegments(n, hop, segmentSize) <= NumSegments(n + d, hop, segmentSize)
    ensures NumSegments(n + hop, hop, segmentSize) == NumSegments(n, hop, segmentSize) + 1
  {
    DivShift(n, 1, hop);
    assert n / hop <= (n + d) / hop by {
      DivMonotone(n, n + d, hop);
    }
  }

  lemma DivMonotone(a: int, b: int, hop: int)
    requires hop >= 1 && a <= b
    ensures a / hop <= b / hop
  {
    var d := a / hop - b / hop;
    assert d * hop == (a - a % hop) - (b - b % hop);
    MulSign(d, hop);
  }

  /** A quotient by a hop is at most the numerator, and at most half of it for hops of two or more. */
  lemma DivBounds(x: nat, hop: int)
    requires hop >= 1
    ensures 0 <= x / hop <= x
    ensures hop >= 2 ==> 2 * (x / hop) <= x
  {
    var q := x / hop;
    var r := x % hop;
    assert x == q * hop + r;
    MulSign(q, hop);
    MulAtLeast(q, hop);
  }

  lemma MulAtLeast(q: int, hop: int)
    requires hop >= 1
    ensures q >= 0 ==> q * hop >= q
    ensures q >= 0 && hop >= 2 ==> q * hop >= 2 * q
  {
    assert q * hop - q == q * (hop - 1);
    assert q * hop - 2 * q == q * (hop - 2);
  }

  /** When H divides S, a signal yields at least one frame exactly when it holds S samples. */
  lemma AtLeastOneSegment(n: int, hop: int, segmentSize: int)
    requires hop >= 1 && segmentSize % hop == 0
    ensures NumSegments(n, hop, segmentSize) >= 1 <==> n >= segmentSize
  {
    var s := segmentSize / hop;
    assert segmentSize == s * hop;
    DivOfMultiple(s, hop, 0);
    var d := n / hop - s;
    assert d * hop == n - n % hop - segmentSize;
    MulSign(d, hop);
  }

  /** The legacy count agrees with the shared one exactly when S mod H <= N mod H. */
  lemma LegacyAgrees(n: int, hop: int, segmentSize: int)
    requires hop >= 1
    ensures LegacyNumSegments(n, hop, segmentSize) == NumSegments(n, hop, segmentSize)
            <==> segmentSize % hop <= n % hop
  {
    var q := n / hop - segmentSize / hop;
    var r := n % hop - segmentSize % hop;
    assert n - segmentSize == q * hop + r;
    if r >= 0 {
      DivOfMultiple(q, hop, r);
    } else {
      DivOfMultiple(q - 1, hop, r + hop);
      assert n - segmentSize == (q - 1) * hop + (r + hop);
    }
  }

  /** When H divides both S and N, every sample jH + k of every frame lies inside the N samples. */
  lemma FrameInside(j: int, k: int, n: int, hop: int, segmentSize: int)
    requires hop >= 1 && segmentSize % hop == 0 && n % hop == 0
    requires 0 <= j < NumSegments(n, hop, segmentSize) && 0 <= k < segmentSize
    ensures 0 <= j * hop + k < n
  {
    var d := n / hop - segmentSize / hop - j;
    assert d >= 0;
    assert n == (n / hop) * hop && segmentSize == (segmentSize / hop) * hop;
    assert n - segmentSize - j * hop == d * hop;
    MulAtLeast(d, hop);
    MulAtLeast(j, hop);
  }

  /** The edge-correction passes i = 1 .. S/H start inside the frame, and the pass after them past its end. */
  lemma PassesWithin(i: int, hop: int, segmentSize: nat)
    requires hop >= 1 && 0 <= i <= segmentSize / hop + 1
    ensures i <= segmentSize / hop ==> i * hop <= segmentSize
    ensures i == segmentSize / hop + 1 ==> i * hop > segmentSize - 1
  {
    var q := segmentSize / hop;
    assert segmentSize == q * hop + segmentSize % hop;
    if i <= q {
      MulAtLeast(q - i, hop);
      assert q * hop - i * hop == (q - i) * hop;
    } else {
      assert i * hop == q * hop + hop;
    }
  }
}
