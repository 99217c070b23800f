/** `BitPackedArray`: packing, single reads, and the bulk unpacking paths. */
module BitPacked {
  import opened Arith
  import opened Arrow
  import opened Bytes
  import opened BitPacking
  import opened Unpacking
  import opened Wrappers

  /** The state of a packed array, as a value. */
  datatype Packed = Packed(length: nat, bitWidth: nat, nullBitmap: seq<byte>, packedData: seq<byte>) {
    /** The buffer covers all elements and the bitmap, if any, all rows. */
    predicate Sound() {
      && bitWidth <= 64
      && length * bitWidth <= 8 * |packedData|
      && (nullBitmap == [] || (length + 7 < TWO_32 && CeilDiv8(length) <= |nullBitmap|))
    }

    /** Element `i`, or 0 past the end. */
    function Element(i: nat): nat {
      if i < length then Field(packedData, bitWidth, i) else 0
    }

    predicate IsNull(i: nat)
      requires Sound() && i < length
    {
      nullBitmap != [] && !BitSet(nullBitmap, i)
    }

    /** The bitmap handed to a decoded column. */
    function NullBuffer(): Option<seq<byte>>
      requires Sound()
    {
      if nullBitmap == [] then None else Some(nullBitmap[..CeilDiv8(length)])
    }

    function NullCount(): nat
      requires Sound()
    {
      if nullBitmap == [] then 0 else CountUnset(nullBitmap, length)
    }

    /** The state `pack` leaves: exactly the bytes of the packed number, at its exact size. */
    ghost predicate Holds(values: seq<nat>, bw: nat) {
      && length == |values|
      && bitWidth == bw
      && packedData == ToLE(PackedNumber(values, |values|, bw), CeilDiv8(|values| * bw))
    }
  }

  /** The bytes of bitmap kept for a count, in 32-bit arithmetic. */
  function BitmapBytes(count: nat): nat {
    Wrap32(count + 7) / 8
  }

  /** The bitmap is kept whole if and only if the count is more than seven below 2^32; from there on it is dropped. */
  lemma BitmapBytesIff(count: nat)
    requires count < TWO_32
    ensures BitmapBytes(count) == CeilDiv8(count) <==> count + 7 < TWO_32
    ensures count + 7 >= TWO_32 ==> BitmapBytes(count) == 0
  {
    if count + 7 < TWO_32 {
      ModSmall(count + 7, TWO_32);
    } else {
      DivModUnique(count + 7, TWO_32, 1, count + 7 - TWO_32);
    }
  }

  // ---------------------------------------------------------------- what bulk unpacking sees

  /** Do the copies run past 2^32 bytes, where their 32-bit byte index starts over? */
  predicate Rewinds(n: nat, bw: nat, tbits: nat, avx2: bool) {
    Copies(bw, tbits, avx2) && n * bw > 8 * TWO_32
  }

  /** The rows in 2^32 bytes. */
  function Period(bw: nat): (rows: nat)
    ensures rows > 0
  {
    if bw == 8 then TWO_32 else if bw == 16 then 0x8000_0000 else 0x4000_0000
  }

  /** The element that row `i` is given: `i` itself, or a row 2^32 bytes further back. */
  function SeenRow(n: nat, bw: nat, tbits: nat, avx2: bool, i: nat): nat {
    if Rewinds(n, bw, tbits, avx2) then i % Period(bw) else i
  }

  /** The array as the chosen bulk path reads it. */
  function Seen(p: Packed, tbits: nat, avx2: bool): (q: Packed)
    ensures q.length == p.length && q.bitWidth == p.bitWidth && q.nullBitmap == p.nullBitmap
    ensures |q.packedData| == |p.packedData|
    ensures !Rewinds(p.length, p.bitWidth, tbits, avx2) ==> q == p
  {
    p.(packedData := AsRead(p.packedData, p.length, p.bitWidth, tbits, avx2))
  }

  lemma SeenNulls(p: Packed, tbits: nat, avx2: bool)
    requires p.Sound()
    ensures Seen(p, tbits, avx2).Sound() && Seen(p, tbits, avx2).NullBuffer() == p.NullBuffer()
    ensures Seen(p, tbits, avx2).NullCount() == p.NullCount()
    ensures forall i :: 0 <= i < p.length ==> Seen(p, tbits, avx2).IsNull(i) == p.IsNull(i)
  {
  }

  lemma SeenRowBound(n: nat, bw: nat, tbits: nat, avx2: bool, i: nat)
    ensures SeenRow(n, bw, tbits, avx2, i) <= i
  {
  }

  /** Every row is given the element of its seen row. */
  lemma SeenElement(p: Packed, tbits: nat, avx2: bool, i: nat)
    requires p.Sound() && i < p.length
    ensures SeenRow(p.length, p.bitWidth, tbits, avx2, i) <= i
    ensures Seen(p, tbits, avx2).Element(i) == p.Element(SeenRow(p.length, p.bitWidth, tbits, avx2, i))
  {
    if Rewinds(p.length, p.bitWidth, tbits, avx2) {
      RewoundRow(p, p.bitWidth / 8, i);
    }
  }

  lemma RewoundRow(p: Packed, bytes: nat, i: nat)
    requires p.Sound() && i < p.length && p.bitWidth == 8 * bytes && (bytes == 1 || bytes == 2 || bytes == 4)
    ensures Field(Rewound(p.packedData), p.bitWidth, i) == Field(p.packedData, p.bitWidth, i % Period(p.bitWidth))
  {
    var rows := Period(p.bitWidth);
    WholeBytes(p.length, bytes, |p.packedData|);
    RewoundElement(p.packedData, p.length, bytes, i, i / rows, i % rows, rows);
  }

  lemma WholeBytes(n: nat, bytes: nat, size: nat)
    requires n * (8 * bytes) <= 8 * size
    ensures n * bytes <= size
  {
    MulAssoc(n, 8, bytes);
  }

  lemma RewoundElement(data: seq<byte>, n: nat, bytes: nat, i: nat, q: nat, r: nat, rows: nat)
    requires (bytes == 1 || bytes == 2 || bytes == 4) && n * bytes <= |data| && i < n
    requires rows * bytes == TWO_32 && i == q * rows + r && r < rows
    ensures Field(Rewound(data), 8 * bytes, i) == Field(data, 8 * bytes, r)
  {
    var x, y := i * bytes, r * bytes;
    ElementBytes(i, n, bytes);
    SeenOffset(bytes, i, q, r, rows);
    RewoundSlice(data, x, y, q, bytes);
    WholeField(Rewound(data), bytes, i);
    WholeField(data, bytes, r);
  }

  lemma SeenOffset(bytes: nat, i: nat, q: nat, r: nat, rows: nat)
    requires rows * bytes == TWO_32 && i == q * rows + r && r < rows
    ensures i * bytes == q * TWO_32 + r * bytes && r * bytes + bytes <= TWO_32
  {
    MulDist(q * rows, r, bytes);
    MulAssoc(q, rows, bytes);
    ElementBytes(r, rows, bytes);
  }

  lemma WholeField(data: seq<byte>, bytes: nat, i: nat)
    requires (bytes == 1 || bytes == 2 || bytes == 4) && i * bytes + bytes <= |data|
    ensures Field(data, 8 * bytes, i) == LE(data[i * bytes..i * bytes + bytes])
  {
    LESlice(data, i * bytes, bytes);
    MulAssoc(8, i, bytes);
    MulAssoc(i, 8, bytes);
  }

  /** For a count and a width, every content is read right if and only if the copies do not run past 2^32 bytes. */
  lemma SeenRightIff(n: nat, bw: nat, tbits: nat, avx2: bool)
    requires 0 < n < TWO_32 && bw <= 64 && OutputWidth(tbits)
    ensures !Rewinds(n, bw, tbits, avx2) <==>
              forall values: seq<nat>, p: Packed {:trigger p.Holds(values, bw)} ::
                p.Holds(values, bw) && |values| == n && p.Sound() ==>
                  forall i {:trigger Seen(p, tbits, avx2).Element(i)} :: 0 <= i < n ==>
                      Seen(p, tbits, avx2).Element(i) == p.Element(i)
  {
    if Rewinds(n, bw, tbits, avx2) {
      SpikeMisread(n, bw, tbits, avx2);
    }
  }

  /** A buffer whose first row is 1: the row 2^32 bytes on is given that 1 instead of its 0. */
  lemma SpikeMisread(n: nat, bw: nat, tbits: nat, avx2: bool)
    requires 0 < n < TWO_32 && bw <= 64 && OutputWidth(tbits) && Rewinds(n, bw, tbits, avx2)
    ensures Period(bw) < n
    ensures Seen(FirstRowOnly(n, bw), tbits, avx2).Element(Period(bw)) == 1
    ensures FirstRowOnly(n, bw).Element(Period(bw)) == 0
  {
    var p, at := FirstRowOnly(n, bw), Period(bw);
    SpikeRead(n, bw, 0);
    SpikeRead(n, bw, at);
    SeenElement(p, tbits, avx2, at);
  }

  /** One in the first row, zero in all others. */
  function Spike(n: nat): (s: seq<nat>)
    ensures |s| == n
  {
    seq(n, i => if i == 0 then 1 else 0)
  }

  lemma SpikeRead(n: nat, bw: nat, i: nat)
    requires i < n && 0 < bw <= 64
    ensures FirstRowOnly(n, bw).Element(i) == if i == 0 then 1 else 0
  {
    GetAfterPack(FirstRowOnly(n, bw), Spike(n), bw, i);
    MaskSmall(0, bw - 1);
    MaskSmall(0, bw);
  }

  function FirstRowOnly(n: nat, bw: nat): (p: Packed)
    requires 0 < n && bw <= 64
    ensures p.Holds(Spike(n), bw) && p.Sound()
  {
    Packed(n, bw, [], ToLE(PackedNumber(Spike(n), n, bw), CeilDiv8(n * bw)))
  }

  /** Element by element: each value, cut to the width. */
  ghost predicate Stores(p: Packed, values: seq<nat>, bw: nat) {
    && p.length == |values|
    && forall i {:trigger p.Element(i)} :: 0 <= i < |values| ==> p.Element(i) == Mask(values[i], bw)
  }

  lemma HoldsStores(p: Packed, values: seq<nat>, bw: nat)
    requires p.Holds(values, bw)
    ensures Stores(p, values, bw)
  {
    forall i | 0 <= i < |values| ensures p.Element(i) == Mask(values[i], bw) {
      GetAfterPack(p, values, bw, i);
    }
  }

  lemma PackedFits(values: seq<nat>, bw: nat)
    ensures LE(ToLE(PackedNumber(values, |values|, bw), CeilDiv8(|values| * bw))) == PackedNumber(values, |values|, bw)
  {
    PackedBound(values, |values|, bw);
    Pow2Mono(|values| * bw, 8 * CeilDiv8(|values| * bw));
    WriteRead(PackedNumber(values, |values|, bw), CeilDiv8(|values| * bw));
  }

  lemma HoldsFromNumber(p: Packed, values: seq<nat>, bw: nat)
    requires p.length == |values| && p.bitWidth == bw
    requires |p.packedData| == CeilDiv8(|values| * bw)
    requires |p.packedData| == 0 || LE(p.packedData) == PackedNumber(values, |values|, bw)
    ensures p.Holds(values, bw)
  {
    ReadWrite(p.packedData);
  }

  /** The facts one turn of the packing loop needs. */
  lemma PackStep(values: seq<nat>, i: nat, bw: nat)
    requires i < |values| && bw <= 64 && values[i] < TWO_64
    ensures Mask(values[i], bw) < Pow2(bw)
    ensures bw == 64 ==> Mask(values[i], bw) == values[i]
    ensures PackedNumber(values, i, bw) < Pow2(i * bw)
    ensures i * bw + bw <= |values| * bw
    ensures PackedNumber(values, i + 1, bw) == PackedNumber(values, i, bw) + Shl(Mask(values[i], bw), i * bw)
  {
    MaskBound(values[i], bw);
    if bw == 64 {
      Pow2Width(bw);
      MaskSmall(values[i], bw);
    }
    PackedBound(values, i, bw);
    MulDist(i, 1, bw);
    MulMono(i + 1, |values|, bw);
  }

  /** What was packed at any width is what is read, cut to the width; past the end it is 0. */
  lemma GetAfterPack(p: Packed, values: seq<nat>, bw: nat, i: nat)
    requires p.Holds(values, bw)
    ensures i < |values| ==> p.Element(i) == Mask(values[i], bw)
    ensures i >= |values| ==> p.Element(i) == 0
  {
    if i < |values| {
      PackedFits(values, bw);
      PackedElement(values, |values|, bw, i);
    }
  }

  // ---------------------------------------------------------------- serialized form

  /** A 16-byte header, the null bitmap, padding to 8 bytes counted from the header, and the packed data. */
  function Print(p: Packed): seq<byte>
    requires p.bitWidth < 256
  {
    Header(p) + p.nullBitmap + Zeros(Align8(16 + |p.nullBitmap|) - (16 + |p.nullBitmap|)) + p.packedData
  }

  /** The size of the packed data of so many elements. */
  function PackedBytes(n: nat, bw: nat): nat { CeilDiv8(n * bw) }

  lemma PrintSize(p: Packed)
    requires p.bitWidth < 256
    ensures |Print(p)| <= 16 + |p.nullBitmap| + 7 + |p.packedData|
  {
  }

  function Header(p: Packed): (h: seq<byte>)
    requires p.bitWidth < 256
    ensures |h| == 16
  {
    ToLE(p.length, 4) + [p.bitWidth, if p.nullBitmap == [] then 0 else 1]
    + ToLE(|p.nullBitmap|, 4) + ToLE(|p.packedData|, 4) + [0, 0]
  }

  function Parse(data: seq<byte>): Result<Packed> {
    if |data| < 16 then Failure("BitPackedArray: buffer too small for 16-byte header")
    else
      var nullsLen := if data[5] != 0 then LE(data[6..10]) else 0;
      var valuesLen := LE(data[10..14]);
      var valuesOffset := Align8(16 + nullsLen);
      if 16 + nullsLen > |data| then Failure("BitPackedArray: null bitmap extends beyond buffer")
      else if valuesLen > 0 && valuesOffset + valuesLen > |data| then
        Failure("BitPackedArray: packed data extends beyond buffer")
      else
        var packedData := if valuesLen > 0 then data[valuesOffset..valuesOffset + valuesLen] else [];
        Success(Packed(LE(data[0..4]), data[4], data[16..16 + nullsLen], packedData))
  }

  lemma HeaderFields(p: Packed, data: seq<byte>, rest: seq<byte>)
    requires p.bitWidth < 256 && data == Header(p) + rest
    requires p.length < TWO_32 && |p.nullBitmap| < TWO_32 && |p.packedData| < TWO_32
    ensures LE(data[0..4]) == p.length && data[4] == p.bitWidth
    ensures data[5] == 0 <==> p.nullBitmap == []
    ensures LE(data[6..10]) == |p.nullBitmap| && LE(data[10..14]) == |p.packedData|
  {
    var h := Header(p);
    assert data[0..4] == ToLE(p.length, 4);
    assert data[6..10] == ToLE(|p.nullBitmap|, 4);
    assert data[10..14] == ToLE(|p.packedData|, 4);
    WriteRead32(p.length);
    WriteRead32(|p.nullBitmap|);
    WriteRead32(|p.packedData|);
  }

  /** Where everything is: the header, the bitmap behind it, and the data at the next multiple of eight behind zeros. */
  lemma PrintLayout(p: Packed)
    requires p.bitWidth < 256
    ensures var s, n, at := Print(p), |p.nullBitmap|, Align8(16 + |p.nullBitmap|);
            && |s| == at + |p.packedData| && 16 + n <= at < 16 + n + 8 && at % 8 == 0
            && s[0..4] == ToLE(p.length, 4) && s[4] == p.bitWidth && s[5] == (if n == 0 then 0 else 1)
            && s[6..10] == ToLE(n, 4) && s[10..14] == ToLE(|p.packedData|, 4)
            && s[16..16 + n] == p.nullBitmap && s[at..] == p.packedData
            && forall j :: 16 + n <= j < at ==> s[j] == 0
  {
    var n := |p.nullBitmap|;
    Align8Least(16 + n);
    var z := Zeros(Align8(16 + n) - (16 + n));
    LaidOut(Header(p), p.nullBitmap, z, p.packedData, Print(p));
    assert Header(p)[0..4] == ToLE(p.length, 4);
    assert Header(p)[6..10] == ToLE(n, 4);
    assert Header(p)[10..14] == ToLE(|p.packedData|, 4);
  }

  lemma LaidOut(h: seq<byte>, n: seq<byte>, z: seq<byte>, d: seq<byte>, s: seq<byte>)
    requires |h| == 16 && s == h + n + z + d
    ensures s[0..4] == h[0..4] && s[4] == h[4] && s[5] == h[5] && s[6..10] == h[6..10] && s[10..14] == h[10..14]
    ensures s[16..16 + |n|] == n && s[16 + |n| + |z|..] == d
    ensures forall j :: 0 <= j < |z| ==> s[16 + |n| + j] == z[j]
  {
  }

  /** A buffer that ends inside the packed data is refused. */
  lemma TruncatedRefused(p: Packed, k: nat)
    requires p.bitWidth < 256 && p.packedData != [] && k < |Print(p)|
    requires p.length < TWO_32 && |p.nullBitmap| < TWO_32 && |p.packedData| < TWO_32
    ensures Parse(Print(p)[..k]).Failure?
  {
    if k >= 16 {
      var rest := Print(p)[16..k];
      assert Print(p)[..k] == Header(p) + rest;
      HeaderFields(p, Print(p)[..k], rest);
    }
  }

  /** Parsing undoes printing, whatever bytes follow. */
  lemma ParseUndoesPrint(p: Packed, trailing: seq<byte>)
    requires p.bitWidth < 256
    requires p.length < TWO_32 && |p.nullBitmap| < TWO_32 && |p.packedData| < TWO_32
    ensures Parse(Print(p) + trailing) == Success(p)
  {
    var h, n, d := Header(p), p.nullBitmap, p.packedData;
    var z := Zeros(Align8(16 + |n|) - (16 + |n|));
    var data := Print(p) + trailing;
    assert data == h + (n + z + d + trailing);
    HeaderFields(p, data, n + z + d + trailing);
    BodySlices(data, h, n, z, d, trailing);
    BodyParses(p, data);
  }

  lemma BodySlices(data: seq<byte>, h: seq<byte>, n: seq<byte>, z: seq<byte>, d: seq<byte>, trailing: seq<byte>)
    requires data == h + (n + z + d + trailing)
    ensures |h| + |n| + |z| + |d| <= |data|
    ensures data[|h|..|h| + |n|] == n
    ensures data[|h| + |n| + |z|..|h| + |n| + |z| + |d|] == d
  {
    assert data == h + n + (z + d + trailing);
    Middle(data, h, n, z + d + trailing);
    assert data == (h + n + z) + d + trailing;
    Middle(data, h + n + z, d, trailing);
  }

  lemma BodyParses(p: Packed, data: seq<byte>)
    requires 16 <= |data| && Align8(16 + |p.nullBitmap|) + |p.packedData| <= |data|
    requires LE(data[0..4]) == p.length && data[4] == p.bitWidth && (data[5] == 0 <==> p.nullBitmap == [])
    requires LE(data[6..10]) == |p.nullBitmap| && LE(data[10..14]) == |p.packedData|
    requires data[16..16 + |p.nullBitmap|] == p.nullBitmap
    requires data[Align8(16 + |p.nullBitmap|)..Align8(16 + |p.nullBitmap|) + |p.packedData|] == p.packedData
    ensures Parse(data) == Success(p)
  {
  }

  class BitPackedArray {
    var length: nat
    var bitWidth: nat
    var nullBitmap: seq<byte>
    var packedData: seq<byte>

    function View(): Packed
      reads this
    {
      Packed(length, bitWidth, nullBitmap, packedData)
    }

    constructor Empty()
      ensures View() == Packed(0, 0, [], [])
    {
      length, bitWidth, nullBitmap, packedData := 0, 0, [], [];
    }

    constructor (values: seq<nat>, nulls: Option<seq<byte>>, bw: nat)
      requires bw <= 64 && |values| < TWO_32
      requires forall i :: 0 <= i < |values| ==> values[i] < TWO_64
      requires nulls.Some? ==> CeilDiv8(|values|) <= |nulls.value|
      ensures View().Holds(values, bw) && View().Sound()
      ensures nullBitmap == if nulls.Some? && |values| + 7 < TWO_32 then nulls.value[..CeilDiv8(|values|)] else []
    {
      BitmapBytesIff(|values|);
      length, bitWidth := |values|, bw;
      nullBitmap := if nulls.Some? then nulls.value[..BitmapBytes(|values|)] else [];
      packedData := [];
      new;
      Pack(values, bw);
    }

    /** Packs by ORing the shifted bytes of each value into a zeroed buffer. */
    method Pack(values: seq<nat>, bw: nat)
      requires bw <= 64 && |values| < TWO_32
      requires forall i :: 0 <= i < |values| ==> values[i] < TWO_64
      modifies this
      ensures View().Holds(values, bw)
      ensures nullBitmap == old(nullBitmap)
    {
      bitWidth := bw;
      length := |values|;
      var totalBits := |values| * bw;
      if bw == 0 || |values| == 0 {
        packedData := [];
      } else {
        packedData := Zeros(CeilDiv8(totalBits));
        LEZeros(packedData);
        PackElements(values, bw, totalBits);
      }
      HoldsFromNumber(View(), values, bw);
    }

    /** The element loop of `pack`, on the zeroed buffer. */
    method PackElements(values: seq<nat>, bw: nat, totalBits: nat)
      requires 0 < bw <= 64 && totalBits == |values| * bw
      requires forall i :: 0 <= i < |values| ==> values[i] < TWO_64
      requires |packedData| == CeilDiv8(totalBits) && LE(packedData) == 0
      modifies this`packedData
      ensures |packedData| == CeilDiv8(totalBits)
      ensures LE(packedData) == PackedNumber(values, |values|, bw)
    {
      var i := 0;
      while i < |values|
        invariant i <= |values| && |packedData| == CeilDiv8(totalBits)
        invariant LE(packedData) == PackedNumber(values, i, bw)
      {
        var val := if bw < 64 then Mask(values[i], bw) else values[i];
        PackStep(values, i, bw);
        PackElement(val, i * bw, bw);
        i := i + 1;
      }
    }

    /** The two byte loops of `pack` for one value: the low 64 bits of the shift, then the bits it lost. */
    method PackElement(val: nat, bitOffset: nat, bw: nat)
      requires 0 < bw <= 64 && val < Pow2(bw)
      requires bitOffset + bw <= 8 * |packedData|
      requires LE(packedData) < Pow2(bitOffset)
      modifies this`packedData
      ensures |packedData| == old(|packedData|)
      ensures LE(packedData) == old(LE(packedData)) + Shl(val, bitOffset)
    {
      var byteIdx, bitIdx := bitOffset / 8, bitOffset % 8;
      var bytesNeeded := (bitIdx + bw + 7) / 8;
      ghost var before := LE(packedData);
      MaskSmall(0, 0);
      ShlMul(0, 8 * byteIdx);
      var shiftedLow := Mask(Shl(val, bitIdx), 64);
      var b := 0;
      while b < Min(8, bytesNeeded) && byteIdx + b < |packedData|
        invariant b <= Min(8, bytesNeeded) && |packedData| == old(|packedData|)
        invariant LE(packedData) == Partial(before, val, bitIdx, byteIdx, b)
      {
        ShiftedByte(val, bitIdx, b);
        OrByteStep(packedData, byteIdx, bitIdx, b, before, val);
        packedData := packedData[byteIdx + b := Or(packedData[byteIdx + b], Bits(shiftedLow, 8 * b, 8))];
        b := b + 1;
      }
      if bitIdx > 0 && bitIdx + bw > 64 {
        var shiftedHigh := Shr(val, 64 - bitIdx);
        b := 8;
        while b < bytesNeeded && byteIdx + b < |packedData|
          invariant 8 <= b <= bytesNeeded && |packedData| == old(|packedData|)
          invariant LE(packedData) == Partial(before, val, bitIdx, byteIdx, b)
        {
          ShiftedByte(val, bitIdx, b);
          OrByteStep(packedData, byteIdx, bitIdx, b, before, val);
          packedData := packedData[byteIdx + b := Or(packedData[byteIdx + b], Bits(shiftedHigh, 8 * (b - 8), 8))];
          b := b + 1;
        }
      }
      ElementInPlace(before, val, bw, bitIdx, byteIdx, bytesNeeded);
    }

    /** One element, by one 64-bit read or two, with every bounds check of the original. */
    function Get(index: nat): (r: nat)
      requires bitWidth <= 64
      reads this
      ensures r == View().Element(index)
    {
      if bitWidth == 0 || index >= length then 0
      else
        var bitOff := index * bitWidth;
        if bitOff / 8 >= |packedData| then
          assert Bits(LE(packedData), bitOff, bitWidth) == 0 by {
            LEBound(packedData);
            Pow2Mono(8 * |packedData|, bitOff);
            BitsZero(LE(packedData), bitOff, bitWidth);
          }
          0
        else ReadElement(packedData, bitOff, bitWidth)
    }

    predicate IsNull(index: nat)
      requires View().Sound() && index < length
      reads this
    {
      if nullBitmap == [] then false else !BitSet(nullBitmap, index)
    }

    method UnpackAll() returns (out: seq<nat>)
      requires bitWidth <= 64
      ensures |out| == length
      ensures forall i :: 0 <= i < length ==> out[i] == View().Element(i)
    {
      out := [];
      for i := 0 to length
        invariant |out| == i
        invariant forall j :: 0 <= j < i ==> out[j] == View().Element(j)
      {
        out := out + [Get(i)];
      }
    }

    /** Fills `out` with all elements as the path that the build and the width select sees them, cut to `tbits` bits.
        The loop of that path must come to an end. */
    method BulkUnpackTo(out: array<nat>, tbits: nat, avx2: bool)
      requires View().Sound() && OutputWidth(tbits) && length <= out.Length && Ends(length, bitWidth, tbits, avx2)
      modifies out
      ensures forall j :: 0 <= j < length ==> out[j] == Mask(Seen(View(), tbits, avx2).Element(j), tbits)
      ensures forall j :: length <= j < out.Length ==> out[j] == old(out[j])
    {
      BulkUnpack(packedData, length, out, tbits, bitWidth, avx2);
      ghost var p := Seen(View(), tbits, avx2);
      forall j | 0 <= j < length ensures out[j] == Mask(p.Element(j), tbits) {
        assert Target(p.packedData, bitWidth, tbits, j) == Mask(p.Element(j), tbits);
      }
    }

    method NullCount() returns (count: nat)
      requires View().Sound()
      ensures count == View().NullCount()
    {
      if nullBitmap == [] { return 0; }
      count := 0;
      for i := 0 to length
        invariant count == CountUnset(nullBitmap, i)
      {
        if !BitSet(nullBitmap, i) { count := count + 1; }
      }
    }

    method SerializeHeader(out: seq<byte>) returns (r: seq<byte>)
      requires bitWidth < 256
      ensures r == out + Header(View())
    {
      r := out + ToLE(length, 4);
      r := r + [bitWidth];
      r := r + [if nullBitmap == [] then 0 else 1];
      r := r + ToLE(|nullBitmap|, 4);
      r := r + ToLE(|packedData|, 4);
      r := r + [0];
      r := r + [0];
    }

    method Serialize(out: seq<byte>) returns (r: seq<byte>)
      requires bitWidth < 256
      ensures r == out + Print(View())
    {
      r := SerializeHeader(out);
      if nullBitmap != [] {
        r := r + nullBitmap;
      }
      var base := 16 + |nullBitmap|;
      while |r| - |out| < Align8(base)
        invariant base <= |r| - |out| <= Align8(base)
        invariant r == out + Header(View()) + nullBitmap + Zeros(|r| - |out| - base)
      {
        r := r + [0];
      }
      r := r + packedData;
    }

    static method Deserialize(data: seq<byte>) returns (r: Result<BitPackedArray>)
      ensures r.Failure? ==> Parse(data) == Failure(r.message)
      ensures r.Success? ==> fresh(r.value) && Parse(data) == Success(r.value.View())
    {
      if |data| < 16 {
        return Failure("BitPackedArray: buffer too small for 16-byte header");
      }
      var arr := new BitPackedArray.Empty();
      arr.length, arr.bitWidth := LE(data[0..4]), data[4];
      var nullsLen := if data[5] != 0 then LE(data[6..10]) else 0;
      var valuesLen := LE(data[10..14]);
      if data[5] != 0 {
        if 16 + nullsLen > |data| {
          return Failure("BitPackedArray: null bitmap extends beyond buffer");
        }
        arr.nullBitmap := data[16..16 + nullsLen];
      }
      assert arr.nullBitmap == data[16..16 + nullsLen];
      var valuesOffset := Align8(16 + nullsLen);
      if valuesLen > 0 {
        if valuesOffset + valuesLen > |data| {
          return Failure("BitPackedArray: packed data extends beyond buffer");
        }
        arr.packedData := data[valuesOffset..valuesOffset + valuesLen];
      }
      return Success(arr);
    }
  }
}
