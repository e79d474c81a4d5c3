/**
 * Non-owning row-major views over contiguous memory (libsegmenter/base/Span.hpp).
 *
 * `Span` reads, `MutableSpan` reads and writes; both fold the index tuple into a
 * flat offset with the same loop.
 */
module Spans {
  import Frames

  /** Number of elements of a buffer of the given shape. */
  function Product(shape: seq<nat>): nat
  {
    if |shape| == 0 then 1 else shape[0] * Product(shape[1..])
  }

  /** Row-major offset: the sum of idx[i] times the product of the dimensions after i. */
  function RowMajor(idx: seq<nat>, shape: seq<nat>): nat
    requires |idx| == |shape|
  {
    if |idx| == 0 then 0 else idx[0] * Product(shape[1..]) + RowMajor(idx[1..], shape[1..])
  }

  /** Every index lies below its dimension. */
  predicate InRange(idx: seq<nat>, shape: seq<nat>)
  {
    |idx| == |shape| && forall i :: 0 <= i < |idx| ==> idx[i] < shape[i]
  }

  /** The folded offset after the first |idx| steps of the loop. */
  function Horner(idx: seq<nat>, shape: seq<nat>): nat
    requires |idx| == |shape|
  {
    if |idx| == 0 then 0
    else Horner(idx[..|idx| - 1], shape[..|shape| - 1]) * shape[|shape| - 1] + idx[|idx| - 1]
  }

  lemma {:induction false} ProductSnoc(s: seq<nat>, y: nat)
    ensures Product(s + [y]) == Product(s) * y
  {
    if |s| != 0 {
      assert (s + [y])[1..] == s[1..] + [y];
      ProductSnoc(s[1..], y);
      assert Product(s + [y]) == s[0] * (Product(s[1..]) * y);
    }
  }

  lemma {:induction false} RowMajorSnoc(a: seq<nat>, s: seq<nat>, x: nat, y: nat)
    requires |a| == |s|
    ensures RowMajor(a + [x], s + [y]) == RowMajor(a, s) * y + x
  {
    if |a| == 0 {
      assert RowMajor([x], [y]) == x * Product([]) + RowMajor([], []);
    } else {
      assert (a + [x])[1..] == a[1..] + [x];
      assert (s + [y])[1..] == s[1..] + [y];
      ProductSnoc(s[1..], y);
      RowMajorSnoc(a[1..], s[1..], x, y);
      calc {
        RowMajor(a + [x], s + [y]);
        a[0] * Product(s[1..] + [y]) + RowMajor(a[1..] + [x], s[1..] + [y]);
        a[0] * (Product(s[1..]) * y) + (RowMajor(a[1..], s[1..]) * y + x);
        { Distribute(a[0], Product(s[1..]), RowMajor(a[1..], s[1..]), x, y); }
        (a[0] * Product(s[1..]) + RowMajor(a[1..], s[1..])) * y + x;
      }
    }
  }

  lemma Distribute(i: nat, p: nat, r: nat, x: nat, y: nat)
    ensures i * (p * y) + (r * y + x) == (i * p + r) * y + x
  {
  }

  /** The loop's left fold computes the row-major sum. */
  lemma {:induction false} HornerIsRowMajor(idx: seq<nat>, shape: seq<nat>)
    requires |idx| == |shape|
    ensures Horner(idx, shape) == RowMajor(idx, shape)
  {
    if |idx| != 0 {
      var n := |idx| - 1;
      HornerIsRowMajor(idx[..n], shape[..n]);
      assert idx == idx[..n] + [idx[n]];
      assert shape == shape[..n] + [shape[n]];
      RowMajorSnoc(idx[..n], shape[..n], idx[n], shape[n]);
    }
  }

  lemma InRangeTail(idx: seq<nat>, shape: seq<nat>)
    requires InRange(idx, shape) && |idx| != 0
    ensures InRange(idx[1..], shape[1..])
  {
    forall i | 0 <= i < |idx| - 1
      ensures idx[1..][i] < shape[1..][i]
    {
      assert idx[1..][i] == idx[i + 1];
    }
  }

  /** In-range indices address an element inside the buffer. */
  lemma {:induction false} RowMajorBound(idx: seq<nat>, shape: seq<nat>)
    requires InRange(idx, shape)
    ensures RowMajor(idx, shape) < Product(shape)
  {
    if |idx| != 0 {
      InRangeTail(idx, shape);
      RowMajorBound(idx[1..], shape[1..]);
      assert idx[0] < shape[0];
      BelowProduct(idx[0], shape[0], Product(shape[1..]), RowMajor(idx[1..], shape[1..]));
    }
  }

  /** A digit below its base, followed by a remainder below the place value, stays below the next place. */
  lemma BelowProduct(i: nat, n: nat, p: nat, r: nat)
    requires i < n && r < p
    ensures i * p + r < n * p
  {
    var d: nat := n - i - 1;
    assert n * p == i * p + p + d * p;
  }

  /** Distinct in-range index tuples address distinct elements. */
  lemma {:induction false} RowMajorInjective(a: seq<nat>, b: seq<nat>, shape: seq<nat>)
    requires InRange(a, shape) && InRange(b, shape)
    requires RowMajor(a, shape) == RowMajor(b, shape)
    ensures a == b
  {
    if |a| != 0 {
      InRangeTail(a, shape);
      InRangeTail(b, shape);
      RowMajorBound(a[1..], shape[1..]);
      RowMajorBound(b[1..], shape[1..]);
      var p := Product(shape[1..]);
      Frames.DivOfMultiple(a[0], p, RowMajor(a[1..], shape[1..]));
      Frames.DivOfMultiple(b[0], p, RowMajor(b[1..], shape[1..]));
      RowMajorInjective(a[1..], b[1..], shape[1..]);
      assert a == [a[0]] + a[1..] && b == [b[0]] + b[1..];
    }
  }

  /** Stepping index i by one moves the offset by the stride of dimension i. */
  lemma {:induction false} RowMajorStride(idx: seq<nat>, shape: seq<nat>, i: nat)
    requires |idx| == |shape| && i < |idx|
    ensures RowMajor(idx[i := idx[i] + 1], shape) == RowMajor(idx, shape) + Product(shape[i + 1..])
    ensures i == |idx| - 1 ==> Product(shape[i + 1..]) == 1
  {
    var next := idx[i := idx[i] + 1];
    if i == 0 {
      assert next[1..] == idx[1..];
      assert (idx[0] + 1) * Product(shape[1..]) == idx[0] * Product(shape[1..]) + Product(shape[1..]);
    } else {
      assert next[1..] == idx[1..][i - 1 := idx[i] + 1];
      assert shape[1..][i..] == shape[i + 1..];
      RowMajorStride(idx[1..], shape[1..], i - 1);
    }
  }

  /** The offset loop shared by both views. */
  method Offset(idx: seq<nat>, shape: seq<nat>) returns (offset: nat)
    requires |idx| == |shape|
    ensures offset == RowMajor(idx, shape)
  {
    offset := 0;
    var i := 0;
    while i < |shape|
      invariant 0 <= i <= |shape|
      invariant offset == Horner(idx[..i], shape[..i])
    {
      assert idx[..i + 1][..i] == idx[..i] && shape[..i + 1][..i] == shape[..i];
      offset := offset * shape[i] + idx[i];
      i := i + 1;
    }
    assert idx[..i] == idx && shape[..i] == shape;
    HornerIsRowMajor(idx, shape);
  }

  /** A read-only view. */
  class Span {
    const data: array<real>
    const shape: seq<nat>

    constructor(data: array<real>, shape: seq<nat>)
      ensures this.data == data && this.shape == shape
    {
      this.data := data;
      this.shape := shape;
    }

    /** Reads the element at the given indices; the caller keeps them inside the buffer. */
    method At(idx: seq<nat>) returns (v: real)
      requires |idx| == |shape| && RowMajor(idx, shape) < data.Length
      ensures v == data[RowMajor(idx, shape)]
    {
      var offset := Offset(idx, shape);
      v := data[offset];
    }
  }

  /** A writable view. */
  class MutableSpan {
    const data: array<real>
    const shape: seq<nat>

    constructor(data: array<real>, shape: seq<nat>)
      ensures this.data == data && this.shape == shape
    {
      this.data := data;
      this.shape := shape;
    }

    /** The read of the mutable view, which Span.hpp writes exactly as the read of Span. */
    method At(idx: seq<nat>) returns (v: real)
      requires |idx| == |shape| && RowMajor(idx, shape) < data.Length
      ensures v == data[RowMajor(idx, shape)]
    {
      var offset := Offset(idx, shape);
      v := data[offset];
    }

    /** Writes through the reference the view hands out: only that element changes. */
    method Set(idx: seq<nat>, v: real)
      requires |idx| == |shape| && RowMajor(idx, shape) < data.Length
      modifies data
      ensures data[RowMajor(idx, shape)] == v
      ensures forall k :: 0 <= k < data.Length && k != RowMajor(idx, shape) ==> data[k] == old(data[k])
    {
      var offset := Offset(idx, shape);
      data[offset] := v;
    }
  }
}
