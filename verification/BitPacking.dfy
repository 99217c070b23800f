/**
  Sequential bit packing on plain values: element `i` occupies the `bw` bits that start at
  bit `i * bw`, so the whole buffer is one little-endian number.
 */
module BitPacking {
  import opened Arith
  import opened Bytes

  /** The number whose little-endian bytes hold the first `n` values at width `bw`. */
  function PackedNumber(values: seq<nat>, n: nat, bw: nat): nat
    requires n <= |values|
  {
    if n == 0 then 0
    else PackedNumber(values, n - 1, bw) + Shl(Mask(values[n - 1], bw), (n - 1) * bw)
  }

  /** The field of element `i` in a packed buffer. */
  function Field(data: seq<byte>, bw: nat, i: nat): nat {
    Bits(LE(data), i * bw, bw)
  }

  lemma {:induction false} PackedBound(values: seq<nat>, n: nat, bw: nat)
    requires n <= |values|
    ensures PackedNumber(values, n, bw) < Pow2(n * bw)
  {
    if n > 0 {
      PackedBound(values, n - 1, bw);
      MulDist(n - 1, 1, bw);
      MaskBound(values[n - 1], bw);
      BitsTop(PackedNumber(values, n - 1, bw), Mask(values[n - 1], bw), (n - 1) * bw, bw);
    }
  }

  /** Every packed element is recovered, cut to the packing width. */
  lemma {:induction false} PackedElement(values: seq<nat>, n: nat, bw: nat, i: nat)
    requires i < n <= |values|
    ensures Bits(PackedNumber(values, n, bw), i * bw, bw) == Mask(values[i], bw)
  {
    var v := Mask(values[n - 1], bw);
    if i == n - 1 {
      PackedBound(values, n - 1, bw);
      MaskBound(values[n - 1], bw);
      BitsTop(PackedNumber(values, n - 1, bw), v, (n - 1) * bw, bw);
    } else {
      PackedElement(values, n - 1, bw, i);
      MulDist(i, 1, bw);
      MulMono(i + 1, n - 1, bw);
      BitsBelow(PackedNumber(values, n - 1, bw), v, (n - 1) * bw, i * bw, bw);
    }
  }

  lemma {:induction false} PackedAtWidthZero(values: seq<nat>, n: nat)
    requires n <= |values|
    ensures PackedNumber(values, n, 0) == 0
  {
    if n > 0 {
      PackedAtWidthZero(values, n - 1);
      ShlMul(0, (n - 1) * 0);
    }
  }

  // ---------------------------------------------------------------- one OR step of `pack`

  /** What the buffer holds once the `b` low bytes of `v << s` have been put in at byte `k`. */
  function Partial(before: nat, v: nat, s: nat, k: nat, b: nat): nat {
    before + Shl(Mask(Shl(v, s), 8 * b), 8 * k)
  }

  /** The `b` low bytes of the shifted value stay below byte `k + b`. */
  lemma PartialBound(before: nat, v: nat, s: nat, k: nat, b: nat)
    requires s < 8 && b > 0 && before < Pow2(8 * k + s)
    ensures Partial(before, v, s, k, b) < Pow2(8 * (k + b))
  {
    var w := Mask(v, 8 * b - s);
    MaskOfShl(v, s, 8 * b);
    ShlShl(w, s, 8 * k);
    MaskBound(v, 8 * b - s);
    BitsTop(before, w, 8 * k + s, 8 * b - s);
  }

  /** Byte `k + b` and byte `b` of the shifted value have no bit in common. */
  lemma OrByteDisjoint(data: seq<byte>, k: nat, s: nat, b: nat, before: nat, v: nat)
    requires s < 8 && k + b < |data| && before < Pow2(8 * k + s)
    requires LE(data) == Partial(before, v, s, k, b)
    ensures Or(data[k + b], Bits(Shl(v, s), 8 * b, 8)) == data[k + b] + Bits(Shl(v, s), 8 * b, 8) < 256
  {
    LEByte(data, k + b);
    if b == 0 {
      ShlMul(0, 8 * k);
      FirstByte(before, v, s, k);
    } else {
      LaterByte(before, v, s, k, b);
    }
  }

  lemma LaterByte(before: nat, v: nat, s: nat, k: nat, b: nat)
    requires s < 8 && b > 0 && before < Pow2(8 * k + s)
    ensures Bits(Partial(before, v, s, k, b), 8 * (k + b), 8) == 0
    ensures Or(0, Bits(Shl(v, s), 8 * b, 8)) == Bits(Shl(v, s), 8 * b, 8) < 256
  {
    PartialBound(before, v, s, k, b);
    BitsZero(Partial(before, v, s, k, b), 8 * (k + b), 8);
    OrZero(Bits(Shl(v, s), 8 * b, 8));
    BitsBound(Shl(v, s), 8 * b, 8);
    assert Pow2(8) == 256;
  }

  lemma FirstByte(before: nat, v: nat, s: nat, k: nat)
    requires s < 8 && before < Pow2(8 * k + s)
    ensures Or(Bits(before, 8 * k, 8), Bits(Shl(v, s), 0, 8))
         == Bits(before, 8 * k, 8) + Bits(Shl(v, s), 0, 8) < 256
  {
    ShrBound(before, 8 * k, s);
    MaskOfShl(v, s, 8);
    MaskBound(v, 8 - s);
    OrInByte(Shr(before, 8 * k), Mask(v, 8 - s), s);
  }

  lemma OrInByte(low: nat, high: nat, s: nat)
    requires s < 8 && low < Pow2(s) && high < Pow2(8 - s)
    ensures Or(Mask(low, 8), Shl(high, s)) == Mask(low, 8) + Shl(high, s) < 256
  {
    Pow2Mono(s, 8);
    MaskSmall(low, 8);
    OrDisjoint(low, high, s);
    ShlBound(high, 8 - s, s);
    assert Pow2(8) == 256;
  }

  /** ORing byte `b` of the shifted value into the buffer extends what is in place by one byte. */
  lemma OrByteStep(data: seq<byte>, k: nat, s: nat, b: nat, before: nat, v: nat)
    requires s < 8 && k + b < |data| && before < Pow2(8 * k + s)
    requires LE(data) == Partial(before, v, s, k, b)
    ensures Or(data[k + b], Bits(Shl(v, s), 8 * b, 8)) < 256
    ensures LE(data[k + b := Or(data[k + b], Bits(Shl(v, s), 8 * b, 8))]) == Partial(before, v, s, k, b + 1)
  {
    OrByteDisjoint(data, k, s, b, before, v);
    var x := Bits(Shl(v, s), 8 * b, 8);
    LEUpdate(data, k + b, data[k + b] + x);
    ShlAdd(data[k + b], x, 8 * (k + b));
    PartialStep(before, v, s, k, b);
  }

  lemma PartialStep(before: nat, v: nat, s: nat, k: nat, b: nat)
    ensures Partial(before, v, s, k, b + 1)
         == Partial(before, v, s, k, b) + Shl(Bits(Shl(v, s), 8 * b, 8), 8 * (k + b))
  {
    StackedByte(Shl(v, s), 8 * b, 8 * k);
  }

  lemma StackedByte(y: nat, at: nat, base: nat)
    ensures Shl(Mask(y, at + 8), base) == Shl(Mask(y, at), base) + Shl(Bits(y, at, 8), base + at)
  {
    var x := Bits(y, at, 8);
    MaskJoin(y, at, 8);
    ShlShl(x, at, base);
    ShlAdd(Mask(y, at), Shl(x, at), base);
  }

  /** Byte `b` of `v << s` as the 64-bit code computes it: from the wrapped shift, or from the bits it lost. */
  lemma ShiftedByte(v: nat, s: nat, b: nat)
    requires s < 8
    ensures b < 8 ==> Bits(Mask(Shl(v, s), 64), 8 * b, 8) == Bits(Shl(v, s), 8 * b, 8)
    ensures b >= 8 ==> Bits(Shr(v, 64 - s), 8 * (b - 8), 8) == Bits(Shl(v, s), 8 * b, 8)
  {
    if b < 8 {
      BitsOfBits(Shl(v, s), 0, 64, 8 * b, 8);
    } else {
      ShrOfShl(v, s, 64);
      ShrShr(Shl(v, s), 64, 8 * (b - 8));
    }
  }

  /** Once all bytes of the shifted value are in, the value sits at its bit offset. */
  lemma ElementInPlace(before: nat, v: nat, bw: nat, s: nat, k: nat, m: nat)
    requires v < Pow2(bw) && bw + s <= 8 * m
    ensures Partial(before, v, s, k, m) == before + Shl(v, 8 * k + s)
  {
    ShlShl(v, s, 8 * k);
    WholeValue(v, bw, s, 8 * m);
  }

  lemma WholeValue(v: nat, bw: nat, s: nat, w: nat)
    requires v < Pow2(bw) && bw + s <= w
    ensures Mask(Shl(v, s), w) == Shl(v, s)
  {
    ShlBound(v, bw, s);
    Pow2Mono(bw + s, w);
    MaskSmall(Shl(v, s), w);
  }

  // ---------------------------------------------------------------- reading one element

  /** The 64-bit read of one field: one word, or two words joined by shifts and OR. */
  function ReadElement(src: seq<byte>, bitOff: nat, bw: nat): (r: nat)
    requires bw <= 64 && bitOff / 8 <= |src|
    ensures r == Bits(LE(src), bitOff, bw)
  {
    var byteIdx, bitIdx := bitOff / 8, bitOff % 8;
    var raw :=
      if bitIdx + bw <= 64 then Shr(ReadLE(src, byteIdx, 8), bitIdx)
      else TwoWords(src, byteIdx, bitIdx);
    ReadElementCorrect(src, byteIdx, bitIdx, bw);
    Mask(raw, bw)
  }

  /** The run-time path for wide elements: the one-word read is taken only eight bytes before the end. */
  function ReadElementWide(src: seq<byte>, bitOff: nat, bw: nat): (r: nat)
    requires bw <= 64 && bitOff / 8 <= |src|
    ensures r == Bits(LE(src), bitOff, bw)
  {
    var byteIdx, bitIdx := bitOff / 8, bitOff % 8;
    var raw :=
      if bitIdx + bw <= 64 && byteIdx + 8 <= |src| then Shr(ReadLE(src, byteIdx, 8), bitIdx)
      else TwoWords(src, byteIdx, bitIdx);
    ReadElementCorrect(src, byteIdx, bitIdx, bw);
    Mask(raw, bw)
  }

  /** The 64 bits at `8 * byteIdx + bitIdx`, from a low and a high word; `high << 64` is 0. */
  function TwoWords(src: seq<byte>, byteIdx: nat, bitIdx: nat): nat
    requires byteIdx <= |src| && bitIdx < 8
  {
    var low := ReadLE(src, byteIdx, 8);
    var high := HighWord(src, byteIdx);
    Or(Shr(low, bitIdx), Mask(Shl(high, 64 - bitIdx), 64))
  }

  function HighWord(src: seq<byte>, byteIdx: nat): nat
    requires byteIdx <= |src|
  {
    if |src| - byteIdx > 8 then ReadLE(src, byteIdx + 8, 8) else 0
  }

  lemma HighWordField(src: seq<byte>, byteIdx: nat)
    requires byteIdx <= |src|
    ensures HighWord(src, byteIdx) == Bits(LE(src), 8 * byteIdx + 64, 64)
  {
    if |src| - byteIdx > 8 {
      ReadField(src, byteIdx + 8, 8);
    } else {
      LEBound(src);
      Pow2Mono(8 * |src|, 8 * byteIdx + 64);
      BitsZero(LE(src), 8 * byteIdx + 64, 64);
    }
  }

  /** Two adjacent 64-bit fields, shifted and ORed, give the 64 bits that straddle them. */
  lemma Straddle(n: nat, off: nat, s: nat)
    requires s < 8
    ensures Or(Shr(Bits(n, off, 64), s), Mask(Shl(Bits(n, off + 64, 64), 64 - s), 64)) == Bits(n, off + s, 64)
  {
    ShrOfMask(Shr(n, off), s, 64 - s);
    ShrShr(n, off, s);
    assert Shr(Bits(n, off, 64), s) == Bits(n, off + s, 64 - s);
    MaskOfShl(Bits(n, off + 64, 64), 64 - s, 64);
    BitsOfBits(n, off + 64, 64, 0, s);
    BitsBound(n, off + s, 64 - s);
    OrDisjoint(Bits(n, off + s, 64 - s), Bits(n, off + 64, s), 64 - s);
    BitsJoin(n, off + s, 64 - s, s);
  }

  lemma ReadElementCorrect(src: seq<byte>, byteIdx: nat, bitIdx: nat, bw: nat)
    requires byteIdx <= |src| && bitIdx < 8 && bw <= 64
    ensures bitIdx + bw <= 64 ==>
              Mask(Shr(ReadLE(src, byteIdx, 8), bitIdx), bw) == Bits(LE(src), 8 * byteIdx + bitIdx, bw)
    ensures Mask(TwoWords(src, byteIdx, bitIdx), bw) == Bits(LE(src), 8 * byteIdx + bitIdx, bw)
  {
    ReadField(src, byteIdx, 8);
    HighWordField(src, byteIdx);
    if bitIdx + bw <= 64 {
      BitsOfBits(LE(src), 8 * byteIdx, 64, bitIdx, bw);
    }
    Straddle(LE(src), 8 * byteIdx, bitIdx);
    BitsOfBits(LE(src), 8 * byteIdx + bitIdx, 64, 0, bw);
  }
}
