/** The fixed-width integer types of columns, and the width of an unsigned value. */
module Native {
  import opened Arith

  datatype NativeType = NativeType(bits: nat, signed: bool) {
    predicate Valid() {
      bits == 8 || bits == 16 || bits == 32 || bits == 64
    }

    predicate Contains(v: int)
      requires bits > 0
    {
      if signed then IsSigned(v, bits) else 0 <= v < Pow2(bits)
    }

    /** Conversion of any integer to this type, keeping the low bits. */
    function Wrap(x: int): int
      requires bits > 0
    {
      if signed then ToSigned(x, bits) else Mask(x, bits)
    }

    lemma WrapOfMask(x: int)
      requires bits > 0
      ensures Mask(Wrap(x), bits) == Mask(x, bits)
      ensures Wrap(Mask(x, bits)) == Wrap(x)
      ensures Contains(Wrap(x))
    {
      MaskBound(x, bits);
      MaskMask(x, bits, bits);
      if signed {
        SignedCongruent(x, bits);
        ToSignedRange(x, bits);
      }
    }

    /** Only the low bits matter. */
    lemma WrapOfResidue(x: int, y: int)
      requires bits > 0 && Mask(x, bits) == Mask(y, bits)
      ensures Wrap(x) == Wrap(y)
    {
    }

    /** Wrapping an operand first does not change the wrapped sum. */
    lemma WrapSum(x: int, y: int)
      requires bits > 0
      ensures Wrap(x + Wrap(y)) == Wrap(x + y)
    {
      WrapOfMask(y);
      SameSum(Wrap(y), y, x);
      WrapOfResidue(x + Wrap(y), x + y);
    }

    lemma SameSum(z: int, y: int, x: int)
      requires Mask(z, bits) == Mask(y, bits)
      ensures Mask(x + z, bits) == Mask(x + y, bits)
    {
      MaskSum(z, x, bits);
      MaskSum(y, x, bits);
    }

    lemma WrapInRange(v: int)
      requires bits > 0 && Contains(v)
      ensures Wrap(v) == v
    {
      if signed {
        SignedRoundTrip(v, bits);
      } else {
        MaskSmall(v, bits);
      }
    }

    /** Two values of the type lie less than `2^bits` apart. */
    lemma Span(lo: int, hi: int)
      requires bits > 0 && Contains(lo) && Contains(hi) && lo <= hi
      ensures hi - lo < Pow2(bits)
    {
    }
  }

  /** The number of significant bits. */
  function BitLength(x: nat): (w: nat)
    ensures x < Pow2(w)
    ensures x > 0 ==> Pow2(w - 1) <= x && w > 0
    ensures x == 0 ==> w == 0
  {
    if x == 0 then 0 else 1 + BitLength(x / 2)
  }

  /** The least width that holds the value, and 1 for zero. */
  function GetBitWidth(value: nat): (w: nat)
    ensures w >= 1 && value < Pow2(w)
    ensures w > 1 ==> Pow2(w - 1) <= value
  {
    if value == 0 then 1 else BitLength(value)
  }

  lemma {:induction false} GetBitWidthLeast(value: nat, w: nat)
    requires w >= 1 && value < Pow2(w)
    ensures GetBitWidth(value) <= w
  {
    if GetBitWidth(value) > w {
      Pow2Mono(w, GetBitWidth(value) - 1);
      assert false;
    }
  }
}
