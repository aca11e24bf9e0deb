/** The one comparison the index file's reader performs on raw doubles:
    Java's primitive `lower <= upper` in the Bounds constructor, stated on the
    IEEE 754 binary64 bit patterns (section 3.4 of IEEE 754-2008 gives the
    layout: a sign bit, 11 exponent bits, 52 fraction bits). */
module Doubles {
  import opened Bytes

  const SignBit: nat := 0x8000_0000_0000_0000
  const FractionSpan: nat := 0x10_0000_0000_0000
  const MaxExponent: nat := 0x7FF

  function Exponent(x: Bits64): (e: nat)
    ensures e <= MaxExponent
  {
    (x % SignBit) / FractionSpan
  }

  function Fraction(x: Bits64): (f: nat)
    ensures f < FractionSpan
  {
    x % FractionSpan
  }

  /** All exponent bits set and a non-zero fraction. */
  predicate IsNaN(x: Bits64) {
    Exponent(x) == MaxExponent && Fraction(x) != 0
  }

  /** For patterns that are not NaN, the position on the number line: the
      magnitude bits with the sign applied.  Both zeros map to 0. */
  function OrderKey(x: Bits64): (k: int)
    ensures x < SignBit ==> k == x
    ensures x >= SignBit ==> k == -(x - SignBit)
    ensures k == 0 <==> x == 0 || x == SignBit
  {
    if x >= SignBit then -(x - SignBit) else x
  }

  /** Java's `a <= b` on doubles: false when either side is NaN. */
  predicate JavaLe(a: Bits64, b: Bits64) {
    !IsNaN(a) && !IsNaN(b) && OrderKey(a) <= OrderKey(b)
  }

  /** On patterns that are not NaN, `<=` is a total preorder whose only
      distinct equal patterns are the two zeros; NaN is comparable to nothing,
      not even itself. */
  lemma JavaLeOrder(a: Bits64, b: Bits64, c: Bits64)
    ensures JavaLe(a, a) <==> !IsNaN(a)
    ensures !IsNaN(a) && !IsNaN(b) ==> JavaLe(a, b) || JavaLe(b, a)
    ensures JavaLe(a, b) && JavaLe(b, c) ==> JavaLe(a, c)
    ensures JavaLe(a, b) && JavaLe(b, a) ==> a == b || {a, b} == {0, SignBit}
  {
    if JavaLe(a, b) && JavaLe(b, a) && a != b {
      assert OrderKey(a) == OrderKey(b);
      if a < SignBit && b < SignBit {
      } else if a >= SignBit && b >= SignBit {
      } else {
        assert OrderKey(a) == 0;
      }
    }
  }
}
