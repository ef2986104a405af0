/**
  Stand-ins for the two primitives of Go's crypto/subtle package that the map
  is built from. Their bodies follow the documented branch-free algorithms
  (XOR/OR accumulation for comparison, mask blending for copying); what the
  map relies on is their contracts.

  Go's `int` is 64 bits wide on the platforms the map targets, so the 0/1
  flags these primitives take and return are `bv64` values: the map's
  `&^` and `|` on them are then genuine bitwise operations.
*/
module Subtle {

  /** The OR of the byte-wise XOR of x and y: zero exactly when x and y are equal. */
  function XorAccumulate(x: seq<bv8>, y: seq<bv8>): (d: bv8)
    requires |x| == |y|
    ensures d == 0 <==> x == y
  {
    if x == [] then 0
    else
      var n := |x| - 1;
      assert x == x[..n] + [x[n]] && y == y[..n] + [y[n]];
      XorAccumulate(x[..n], y[..n]) | (x[n] ^ y[n])
  }

  /** 1 when a == b and 0 otherwise, by arithmetic on 32-bit words rather than a branch. */
  function ConstantTimeByteEq(a: bv8, b: bv8): (r: bv64)
    ensures r == 0 || r == 1
    ensures r == 1 <==> a == b
  {
    ((((a ^ b) as bv32) - 1) >> 31) as bv64
  }

  /**
    1 when x and y have equal contents and 0 otherwise; slices of different
    lengths compare unequal at once.
  */
  function ConstantTimeCompare(x: seq<bv8>, y: seq<bv8>): (r: bv64)
    ensures r == 0 || r == 1
    ensures r == 1 <==> x == y
  {
    if |x| != |y| then 0 else ConstantTimeByteEq(XorAccumulate(x, y), 0)
  }

  /** The byte mask kept from the destination: 0x00 when v is 1, 0xFF when v is 0 (Go's `byte(v - 1)`). */
  function KeepMask(v: bv64): bv8
  {
    ((v - 1) & 0xFF) as bv8
  }

  /** One byte of a conditional copy: x where the mask is set, y elsewhere (`^ 0xFF` is Go's `^`). */
  function Blend(mask: bv8, x: bv8, y: bv8): bv8
  {
    (x & mask) | (y & (mask ^ 0xFF))
  }

  /**
    The destination x after copying y into it gated on v: y when v is 1, x
    unchanged when v is 0. Every byte is blended either way. The source leaves
    any other v undefined and panics on slices of different lengths.
  */
  function ConstantTimeCopy(v: bv64, x: seq<bv8>, y: seq<bv8>): (r: seq<bv8>)
    requires v == 0 || v == 1
    requires |x| == |y|
    ensures v == 1 ==> r == y
    ensures v == 0 ==> r == x
  {
    var r := BlendAll(KeepMask(v), x, y);
    assert v == 1 ==> forall i :: 0 <= i < |x| ==> r[i] == y[i];
    assert v == 0 ==> forall i :: 0 <= i < |x| ==> r[i] == x[i];
    r
  }

  /** Blend applied at every position of two equal-length slices. */
  function BlendAll(mask: bv8, x: seq<bv8>, y: seq<bv8>): seq<bv8>
    requires |x| == |y|
  {
    seq(|x|, i requires 0 <= i < |x| => Blend(mask, x[i], y[i]))
  }

  /**
    ConstantTimeCopy into a caller's buffer, byte by byte, in place: the new
    contents of x are those ConstantTimeCopy computes from its old contents.
  */
  method ConstantTimeCopyInto(v: bv64, x: array<bv8>, y: seq<bv8>)
    requires v == 0 || v == 1
    requires x.Length == |y|
    modifies x
    ensures x[..] == ConstantTimeCopy(v, old(x[..]), y)
  {
    var mask := KeepMask(v);
    for i := 0 to x.Length
      invariant forall j :: 0 <= j < i ==> x[j] == Blend(mask, old(x[j]), y[j])
      invariant forall j :: i <= j < x.Length ==> x[j] == old(x[j])
    {
      x[i] := Blend(mask, x[i], y[i]);
    }
    assert x[..] == BlendAll(mask, old(x[..]), y);
  }
}
