/**
 * The rectangular windows of src/libsegmenter/windows/rectangular.py and the
 * exact COLA behaviour of an all-ones window: it overlap-adds to a constant
 * exactly when the hop divides its length.
 */
module RectangularWindows {
  import opened Samples
  import Frames
  import Envelopes

  /** `rectangular(S)`: S samples equal to one. */
  function Rectangular(size: nat): (w: seq<real>)
    ensures |w| == size && forall i :: 0 <= i < size ==> w[i] == 1.0
  {
    Ones(size)
  }

  /** `rectangular50(S)`: the all-ones window with hop S div 2, i.e. half overlap. */
  function Rectangular50(size: nat): (r: (seq<real>, nat))
    ensures r.0 == Rectangular(size)
    ensures r.1 <= size && 2 * r.1 <= size < 2 * r.1 + 2
  {
    (Rectangular(size), size / 2)
  }

  /** `rectangular0(S)`: the all-ones window with hop S, i.e. no overlap. */
  function Rectangular0(size: nat): (r: (seq<real>, nat))
    ensures r.0 == Rectangular(size)
    ensures r.1 == |r.0|
  {
    (Rectangular(size), size)
  }

  /** The shift sum of an all-ones window counts the samples of the residue class. */
  lemma {:induction false} ForwardOnes(size: nat, hop: nat, r: int)
    requires hop >= 1 && r >= 0
    ensures r < size ==> Envelopes.Forward(Ones(size), hop, r) == ((size - r - 1) / hop + 1) as real
    ensures r >= size ==> Envelopes.Forward(Ones(size), hop, r) == 0.0
    decreases size - r
  {
    if r < size {
      ForwardOnes(size, hop, r + hop);
      if r + hop < size {
        Frames.DivShift(size - r - hop - 1, 1, hop);
        assert size - r - hop - 1 + 1 * hop == size - r - 1;
      } else {
        Frames.DivOfMultiple(0, hop, size - r - 1);
      }
    }
  }

  /** An all-ones window whose length is a multiple of the hop is exactly COLA at S/H. */
  lemma OnesColaWhenDivisible(size: nat, hop: nat)
    requires hop >= 1 && size % hop == 0
    ensures Envelopes.ExactCola(Ones(size), hop, (size / hop) as real)
  {
    forall r | 0 <= r < hop
      ensures Envelopes.Forward(Ones(size), hop, r) == (size / hop) as real
    {
      ForwardOnes(size, hop, r);
      var q := size / hop;
      if r < size {
        assert q >= 1;
        Frames.DivOfMultiple(q - 1, hop, hop - r - 1);
        assert (q - 1) * hop + (hop - r - 1) == size - r - 1;
      } else {
        assert size == 0;
      }
    }
  }

  /** An all-ones window whose length is not a multiple of the hop is not COLA for any constant. */
  lemma OnesNotColaOtherwise(size: nat, hop: nat, c: real)
    requires hop >= 1 && size % hop != 0
    ensures !Envelopes.ExactCola(Ones(size), hop, c)
  {
    ResidueCounts(size, hop);
    ForwardOnes(size, hop, 0);
    ForwardOnes(size, hop, hop - 1);
    assert Envelopes.Forward(Ones(size), hop, 0) != Envelopes.Forward(Ones(size), hop, hop - 1);
  }

  /** With S = qH + m and 0 < m < H, residue 0 has q + 1 samples and residue H - 1 has q. */
  lemma ResidueCounts(size: nat, hop: nat)
    requires hop >= 1 && size % hop != 0
    ensures size >= 1
    ensures (size - 1) / hop == size / hop
    ensures hop - 1 < size ==> (size - hop) / hop + 1 == size / hop
  {
    var q := size / hop;
    var m := size % hop;
    Frames.DivOfMultiple(q, hop, m - 1);
    assert size - 1 == q * hop + (m - 1);
    if hop - 1 < size {
      Frames.DivOfMultiple(q - 1, hop, m);
      assert size - hop == (q - 1) * hop + m;
    }
  }

  /** `rectangular0` overlap-adds to exactly one. */
  lemma Rectangular0IsCola(size: nat)
    requires size >= 1
    ensures Envelopes.ExactCola(Rectangular0(size).0, Rectangular0(size).1, 1.0)
  {
    OnesColaWhenDivisible(size, size);
    Frames.DivOfMultiple(1, size, 0);
  }

  /** `rectangular50` overlap-adds to exactly two when S is even, and to no constant when S is odd and at least 5. */
  lemma Rectangular50Cola(size: nat, c: real)
    requires size >= 2
    ensures size % 2 == 0 ==> Envelopes.ExactCola(Rectangular50(size).0, Rectangular50(size).1, 2.0)
    ensures size % 2 != 0 && size >= 5 ==> !Envelopes.ExactCola(Rectangular50(size).0, Rectangular50(size).1, c)
  {
    var hop := size / 2;
    if size % 2 == 0 {
      OnesColaWhenDivisible(size, hop);
      Frames.DivOfMultiple(2, hop, 0);
      assert size == 2 * hop;
    } else if size >= 5 {
      Frames.DivOfMultiple(2, hop, 1);
      assert size == 2 * hop + 1;
      OnesNotColaOtherwise(size, hop, c);
    }
  }
}
