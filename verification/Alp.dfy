/** `LiquidFloatArray`: values encoded as integers and packed, with a patch for every value the codec does not restore.
    */
module Alp {
  import opened Arith
  import opened Arrow
  import opened BitPacked
  import opened Bytes
  import opened FrameOfReference
  import opened Ieee
  import opened Native
  import opened Unpacking
  import opened Wrappers

  /** Encoding and decoding of single values under the chosen exponents, whatever they compute. */
  datatype Codec = Codec(bits: nat, enc: Double -> int, dec: int -> Double) {
    ghost predicate Valid() {
      && (bits == 32 || bits == 64)
      && forall v: Double :: IsSigned(enc(v), bits)
    }

    /** The encoder's own test: does the value come back equal? */
    predicate NeedsPatch(v: Double) {
      !Eq(dec(enc(v)), v)
    }

    function IntType(): NativeType {
      NativeType(bits, true)
    }
  }

  /** The rows before `n` that need a patch, in order; null rows are not excepted. */
  function PatchRows(values: seq<Double>, codec: Codec, n: nat): (s: seq<nat>)
    requires n <= |values|
  {
    if n == 0 then []
    else if codec.NeedsPatch(values[n - 1]) then PatchRows(values, codec, n - 1) + [n - 1]
    else PatchRows(values, codec, n - 1)
  }

  /** The patch rows are ascending, and are exactly the rows that need one. */
  lemma {:induction false} PatchRowsExact(values: seq<Double>, codec: Codec, n: nat)
    requires n <= |values|
    ensures var s := PatchRows(values, codec, n);
            && |s| <= n
            && (forall j :: 0 <= j < |s| ==> s[j] < n && codec.NeedsPatch(values[s[j]]))
            && (forall j, k :: 0 <= j < k < |s| ==> s[j] < s[k])
            && (forall i :: 0 <= i < n && codec.NeedsPatch(values[i]) ==> i in s)
            && (forall i {:trigger i in s} :: 0 <= i < n ==>
                  (i in s <==> !Eq(codec.dec(codec.enc(values[i])), values[i])))
  {
    if n > 0 {
      PatchRowsExact(values, codec, n - 1);
    }
  }

  /** Every row needs a patch precisely when there are as many patches as rows. */
  lemma {:induction false} AllPatchedIff(values: seq<Double>, codec: Codec, n: nat)
    requires n <= |values|
    ensures |PatchRows(values, codec, n)| <= n
    ensures |PatchRows(values, codec, n)| == n <==> forall i :: 0 <= i < n ==> codec.NeedsPatch(values[i])
  {
    if n > 0 {
      AllPatchedIff(values, codec, n - 1);
    }
  }

  /** The first row at or after `i` that needs no patch, or the length. */
  function FirstUnpatched(values: seq<Double>, codec: Codec, i: nat): (r: nat)
    requires i <= |values|
    ensures i <= r <= |values|
    ensures forall j :: i <= j < r ==> codec.NeedsPatch(values[j])
    ensures r < |values| ==> !codec.NeedsPatch(values[r])
    decreases |values| - i
  {
    if i == |values| || !codec.NeedsPatch(values[i]) then i else FirstUnpatched(values, codec, i + 1)
  }

  /** The integers that are packed: rows that need a patch take the integer of the first that needs none, if there is
      one. */
  function Filled(values: seq<Double>, codec: Codec): (s: seq<int>)
    ensures |s| == |values|
    ensures forall i :: 0 <= i < |s| ==>
              s[i] == codec.enc(if codec.NeedsPatch(values[i]) && FirstUnpatched(values, codec, 0) < |values|
                                then values[FirstUnpatched(values, codec, 0)] else values[i])
  {
    var f := FirstUnpatched(values, codec, 0);
    seq(|values|, i requires 0 <= i < |values| =>
      codec.enc(if codec.NeedsPatch(values[i]) && f < |values| then values[f] else values[i]))
  }

  /** They range over all rows, null or not. */
  function IntsOf(c: Column<Double>, codec: Codec): (ints: Column<int>)
    ensures ints.WellFormed() && |ints.values| == |c.values| && ints.NullCount() == 0
    ensures forall i :: 0 <= i < |ints.values| ==> ints.IsValid(i)
  {
    Column(Filled(c.values, codec), None)
  }

  function Select<T>(values: seq<T>, rows: seq<nat>): (s: seq<T>)
    requires forall j :: 0 <= j < |rows| ==> rows[j] < |values|
    ensures |s| == |rows|
    ensures forall j :: 0 <= j < |rows| ==> s[j] == values[rows[j]]
  {
    seq(|rows|, j requires 0 <= j < |rows| => values[rows[j]])
  }

  /** Writing the first `k` patches over the values. */
  function Patched<T>(values: seq<T>, rows: seq<nat>, patches: seq<T>, k: nat): (s: seq<T>)
    requires k <= |rows| == |patches|
    requires forall j :: 0 <= j < |rows| ==> rows[j] < |values|
    ensures |s| == |values|
  {
    if k == 0 then values else Patched(values, rows, patches, k - 1)[rows[k - 1] := patches[k - 1]]
  }

  /** A patched row holds its patch, any other row its value. */
  lemma {:induction false} PatchedAt<T>(values: seq<T>, rows: seq<nat>, patches: seq<T>, k: nat, i: nat)
    requires k <= |rows| == |patches| && i < |values|
    requires forall j :: 0 <= j < |rows| ==> rows[j] < |values|
    requires forall j, k :: 0 <= j < k < |rows| ==> rows[j] < rows[k]
    ensures forall j :: 0 <= j < k && rows[j] == i ==> Patched(values, rows, patches, k)[i] == patches[j]
    ensures i !in rows[..k] ==> Patched(values, rows, patches, k)[i] == values[i]
  {
    if k > 0 {
      PatchedAt(values, rows, patches, k - 1, i);
    }
  }

  /** The values that packed integers and patches stand for. */
  function DecodeFloat(p: Packed, reference: int, codec: Codec, rows: seq<nat>,
                       patches: seq<Double>): (c: Column<Double>)
    requires p.Sound() && codec.bits > 0 && |rows| == |patches|
    requires forall j :: 0 <= j < |rows| ==> rows[j] < p.length
    ensures c.WellFormed()
  {
    Column(Patched(Unpatched(p, reference, codec), rows, patches, |rows|), p.NullBuffer())
  }

  /** The integer decoded at every row. */
  function Integers(p: Packed, reference: int, codec: Codec): (s: seq<int>)
    requires codec.bits > 0
    ensures |s| == p.length
    ensures forall i :: 0 <= i < p.length ==>
              s[i] == Restore(Mask(p.Element(i), codec.bits), reference, codec.IntType())
  {
    seq(p.length, i requires 0 <= i < p.length =>
      Restore(Mask(p.Element(i), codec.bits), reference, codec.IntType()))
  }

  function Unpatched(p: Packed, reference: int, codec: Codec): (s: seq<Double>)
    requires codec.bits > 0
    ensures |s| == p.length
    ensures forall i :: 0 <= i < p.length ==> s[i] == codec.dec(Integers(p, reference, codec)[i])
  {
    var ints := Integers(p, reference, codec);
    seq(p.length, i requires 0 <= i < p.length => codec.dec(ints[i]))
  }

  /** Same rows, same nulls, and every value that is not null comes back: identical when patched, equal otherwise. */
  ghost predicate Lossless(d: Column<Double>, c: Column<Double>, codec: Codec)
    requires c.WellFormed() && d.WellFormed()
  {
    && |d.values| == |c.values|
    && forall i :: 0 <= i < |c.values| ==>
         && d.IsValid(i) == c.IsValid(i)
         && (c.IsValid(i) ==>
               if codec.NeedsPatch(c.values[i]) then d.values[i] == c.values[i] else Eq(d.values[i], c.values[i]))
  }

  /** At every valid row that needs no patch, the integer decodes to a value equal to the row's. */
  ghost predicate IntegersAgree(ints: seq<int>, c: Column<Double>, codec: Codec)
    requires c.WellFormed() && |ints| == |c.values|
  {
    forall i :: 0 <= i < |ints| && c.IsValid(i) && !codec.NeedsPatch(c.values[i]) ==>
        Eq(codec.dec(ints[i]), c.values[i])
  }

  /** Integers with the patches are lossless if and only if the integers agree with the column off the patches. */
  lemma PatchesComplete(p: Packed, reference: int, codec: Codec, c: Column<Double>, rows: seq<nat>)
    requires c.WellFormed() && p.Sound() && codec.Valid() && p.length == |c.values|
    requires p.nullBitmap == ArrayBitmap(c) && KeepsNulls(c)
    requires rows == PatchRows(c.values, codec, |c.values|)
    ensures forall j :: 0 <= j < |rows| ==> rows[j] < p.length
    ensures Lossless(DecodeFloat(p, reference, codec, rows, Select(c.values, rows)), c, codec)
       <==> IntegersAgree(Integers(p, reference, codec), c, codec)
  {
    PatchRowsExact(c.values, codec, |c.values|);
    var patches := Select(c.values, rows);
    var d := DecodeFloat(p, reference, codec, rows, patches);
    forall i | 0 <= i < |c.values|
      ensures d.IsValid(i) == c.IsValid(i)
      ensures d.values[i] == if codec.NeedsPatch(c.values[i]) then c.values[i]
                else codec.dec(Integers(p, reference, codec)[i])
    {
      SameNulls(p, c, i);
      PatchedRow(p, reference, codec, c.values, rows, i);
    }
  }

  lemma PatchedRow(p: Packed, reference: int, codec: Codec, values: seq<Double>, rows: seq<nat>, i: nat)
    requires p.Sound() && codec.Valid() && p.length == |values| && i < p.length
    requires rows == PatchRows(values, codec, |values|) && forall j :: 0 <= j < |rows| ==> rows[j] < p.length
    ensures DecodeFloat(p, reference, codec, rows, Select(values, rows)).values[i]
         == if codec.NeedsPatch(values[i]) then values[i] else codec.dec(Integers(p, reference, codec)[i])
  {
    PatchRowsExact(values, codec, |values|);
    PatchedAt(Unpatched(p, reference, codec), rows, Select(values, rows), |rows|, i);
    if codec.NeedsPatch(values[i]) {
      var j :| 0 <= j < |rows| && rows[j] == i;
    } else {
      assert i !in rows[..|rows|];
    }
  }

  // ---------------------------------------------------------------- the packed form of a column

  /** The packed form of a column that is not all null: the filled integers, relative to the least of all of them. */
  ghost predicate EncodesFloat(p: Packed, c: Column<Double>, codec: Codec, lo: int)
    requires c.WellFormed() && codec.Valid()
  {
    && p.Sound() && p.nullBitmap == ArrayBitmap(c)
    && exists hi :: Encodes(p.(nullBitmap := []), IntsOf(c, codec), codec.IntType(), lo, hi)
  }

  lemma IntsContained(c: Column<Double>, codec: Codec)
    requires codec.Valid()
    ensures AllContained(IntsOf(c, codec).values, codec.IntType())
  {
  }

  /** A wrapping offset at the width of the range gives the integer of the seen row back. */
  lemma IntegerRestored(p: Packed, c: Column<Double>, codec: Codec, lo: int, avx2: bool, i: nat)
    requires c.WellFormed() && codec.Valid() && EncodesFloat(p, c, codec, lo) && i < |c.values|
    ensures SeenRow(|c.values|, p.bitWidth, codec.bits, avx2, i) <= i
    ensures Integers(Seen(p, codec.bits, avx2), lo, codec)[i]
         == Filled(c.values, codec)[SeenRow(|c.values|, p.bitWidth, codec.bits, avx2, i)]
  {
    var bare := p.(nullBitmap := []);
    var hi :| Encodes(bare, IntsOf(c, codec), codec.IntType(), lo, hi);
    IntsContained(c, codec);
    SeenValue(bare, IntsOf(c, codec), codec.IntType(), lo, hi, avx2, i);
    assert Seen(p, codec.bits, avx2).Element(i) == Seen(bare, codec.bits, avx2).Element(i);
  }

  /** Every valid row that needs no patch is equal to what the integer of its seen row decodes to. */
  ghost predicate FloatsAgree(c: Column<Double>, codec: Codec, bw: nat, avx2: bool)
    requires c.WellFormed()
  {
    forall i {:trigger SeenRow(|c.values|, bw, codec.bits, avx2, i)} ::
      0 <= i < |c.values| && c.IsValid(i) && !codec.NeedsPatch(c.values[i]) ==>
        var r := SeenRow(|c.values|, bw, codec.bits, avx2, i);
        r <= i && Eq(codec.dec(Filled(c.values, codec)[r]), c.values[i])
  }

  lemma FloatsAgreeUnlessRewound(c: Column<Double>, codec: Codec, bw: nat, avx2: bool)
    requires c.WellFormed() && !Rewinds(|c.values|, bw, codec.bits, avx2)
    ensures FloatsAgree(c, codec, bw, avx2)
  {
  }

  /** What a bulk path decodes is lossless if and only if the rows it confuses decode to equal values. */
  lemma SeenFloats(p: Packed, c: Column<Double>, codec: Codec, lo: int, avx2: bool, rows: seq<nat>)
    requires c.WellFormed() && codec.Valid() && EncodesFloat(p, c, codec, lo) && KeepsNulls(c)
    requires rows == PatchRows(c.values, codec, |c.values|)
    ensures Seen(p, codec.bits, avx2).Sound() && forall j :: 0 <= j < |rows| ==> rows[j] < p.length
    ensures Lossless(DecodeFloat(Seen(p, codec.bits, avx2), lo, codec, rows, Select(c.values, rows)), c, codec)
       <==> FloatsAgree(c, codec, p.bitWidth, avx2)
  {
    var q := Seen(p, codec.bits, avx2);
    SeenNulls(p, codec.bits, avx2);
    PatchesComplete(q, lo, codec, c, rows);
    forall i | 0 <= i < |c.values|
      ensures SeenRow(|c.values|, p.bitWidth, codec.bits, avx2, i) <= i
      ensures Integers(q, lo, codec)[i] == Filled(c.values, codec)[SeenRow(|c.values|, p.bitWidth, codec.bits, avx2, i)]
    {
      IntegerRestored(p, c, codec, lo, avx2, i);
    }
  }

  /** The packed form is lossless, unless the bitmap is dropped. */
  lemma EncodedFloats(p: Packed, c: Column<Double>, codec: Codec, lo: int, rows: seq<nat>)
    requires c.WellFormed() && codec.Valid() && EncodesFloat(p, c, codec, lo)
    requires rows == PatchRows(c.values, codec, |c.values|)
    ensures forall j :: 0 <= j < |rows| ==> rows[j] < p.length
    ensures Lossless(DecodeFloat(p, lo, codec, rows, Select(c.values, rows)), c, codec) <==> KeepsNulls(c)
  {
    PatchRowsExact(c.values, codec, |c.values|);
    if KeepsNulls(c) {
      SeenFloats(p, c, codec, lo, false, rows);
      FloatsAgreeUnlessRewound(c, codec, p.bitWidth, false);
    } else {
      FloatNullsLost(p, c, DecodeFloat(p, lo, codec, rows, Select(c.values, rows)), codec);
    }
  }

  lemma FloatNullsLost(p: Packed, c: Column<Double>, d: Column<Double>, codec: Codec)
    requires c.WellFormed() && p.Sound() && p.length == |c.values| == |d.values| && d.validity == p.NullBuffer()
    requires p.nullBitmap == [] && !KeepsNulls(c)
    ensures !Lossless(d, c, codec)
  {
    NoNull(c);
    var i :| 0 <= i < |c.values| && !c.IsValid(i);
    assert d.IsValid(i);
  }

  /** The packing width of a column: that of the range of its filled integers, or 0 when every row is null. */
  ghost predicate FloatWidthIs(c: Column<Double>, codec: Codec, bw: nat)
    requires c.WellFormed()
  {
    if c.NullCount() == |c.values| then bw == 0 else WidthIs(IntsOf(c, codec), bw)
  }

  class LiquidFloatArray {
    const codec: Codec
    const referenceValue: int
    const bitPacked: BitPackedArray
    const patchIndices: seq<nat>
    const patchValues: seq<Double>

    constructor (codec: Codec, referenceValue: int, bitPacked: BitPackedArray,
                 patchIndices: seq<nat>, patchValues: seq<Double>)
      ensures this.codec == codec && this.referenceValue == referenceValue && this.bitPacked == bitPacked
      ensures this.patchIndices == patchIndices && this.patchValues == patchValues
    {
      this.codec, this.referenceValue, this.bitPacked := codec, referenceValue, bitPacked;
      this.patchIndices, this.patchValues := patchIndices, patchValues;
    }

    ghost predicate Valid()
      reads bitPacked
    {
      && codec.Valid() && bitPacked.View().Sound()
      && |patchIndices| == |patchValues|
      && forall j :: 0 <= j < |patchIndices| ==> patchIndices[j] < bitPacked.length
    }

    ghost function Decoded(): (c: Column<Double>)
      requires Valid()
      reads bitPacked
      ensures c.WellFormed()
    {
      DecodeFloat(bitPacked.View(), referenceValue, codec, patchIndices, patchValues)
    }

    /** Encodes under the codec of the exponents found, whichever they are. */
    static method FromArrow(c: Column<Double>, codec: Codec) returns (a: LiquidFloatArray)
      requires c.WellFormed() && codec.Valid() && |c.values| < TWO_32
      ensures fresh(a) && fresh(a.bitPacked) && a.codec == codec
      ensures a.Valid() && (Lossless(a.Decoded(), c, codec) <==> KeepsNulls(c))
      ensures FloatWidthIs(c, codec, a.bitPacked.bitWidth) && a.bitPacked.length == |c.values|
      ensures c.NullCount() == |c.values| ==> a.referenceValue == 0 && a.patchIndices == []
      ensures c.NullCount() < |c.values| ==>
                && EncodesFloat(a.bitPacked.View(), c, codec, a.referenceValue)
                && a.patchIndices == PatchRows(c.values, codec, |c.values|)
                && a.patchValues == Select(c.values, a.patchIndices)
    {
      var n := |c.values|;
      if c.NullCount() == n {
        var packed := new BitPackedArray(Zeros(n), Some(Zeros(CeilDiv8(n))), 0);
        a := new LiquidFloatArray(codec, 0, packed, [], []);
        NullFloats(packed.View(), c, codec);
        return;
      }
      var encoded, rows, patches := Integerise(c.values, codec);
      IntsContained(c, codec);
      var packed, lo := PackIntegers(c, encoded, codec);
      a := new LiquidFloatArray(codec, lo, packed, rows, patches);
      EncodedFloats(packed.View(), c, codec, lo, rows);
    }

    /** The encoding, patch-collecting and filling loops. */
    static method Integerise(values: seq<Double>, codec: Codec)
      returns (encoded: seq<int>, rows: seq<nat>, patches: seq<Double>)
      requires codec.Valid()
      ensures rows == PatchRows(values, codec, |values|)
      ensures forall j :: 0 <= j < |rows| ==> rows[j] < |values|
      ensures patches == Select(values, rows)
      ensures encoded == Filled(values, codec)
    {
      var n := |values|;
      encoded := [];
      for i := 0 to n
        invariant |encoded| == i
        invariant forall j :: 0 <= j < i ==> encoded[j] == codec.enc(values[j])
      {
        encoded := encoded + [codec.enc(values[i])];
      }
      rows, patches := CollectPatches(values, encoded, codec);
      PatchRowsExact(values, codec, n);
      AllPatchedIff(values, codec, n);
      if |rows| > 0 && n > |rows| {
        encoded := FillPatched(values, encoded, rows, codec);
      }
    }

    /** Offsets from the least integer, packed at the width of the range. */
    static method PackIntegers(c: Column<Double>, ints: seq<int>, codec: Codec)
      returns (packed: BitPackedArray, lo: int)
      requires c.WellFormed() && codec.Valid() && 0 < |c.values| < TWO_32
      requires ints == IntsOf(c, codec).values && AllContained(ints, codec.IntType())
      ensures fresh(packed) && EncodesFloat(packed.View(), c, codec, lo)
      ensures WidthIs(IntsOf(c, codec), packed.bitWidth)
    {
      var hi;
      lo, hi := IntBounds(c, ints, codec);
      packed := PackOffsets(c, ints, lo, GetBitWidth(Mask(hi - lo, codec.bits)), codec);
      PackedRange(packed.View(), c, codec, lo, hi);
    }

    static method IntBounds(c: Column<Double>, ints: seq<int>, codec: Codec) returns (lo: int, hi: int)
      requires codec.Valid() && |c.values| > 0 && ints == IntsOf(c, codec).values
      ensures RangeOf(IntsOf(c, codec), lo, hi)
      ensures Mask(hi - lo, codec.bits) == hi - lo && GetBitWidth(hi - lo) <= codec.bits
    {
      lo, hi := MinMax(ints);
      IntRange(c, codec, lo, hi);
      SpanFits(lo, hi, codec);
    }

    static method PackOffsets(c: Column<Double>, ints: seq<int>, lo: int, bw: nat, codec: Codec)
      returns (packed: BitPackedArray)
      requires c.WellFormed() && codec.Valid() && |ints| == |c.values| < TWO_32 && bw <= 64
      ensures fresh(packed) && packed.View().Sound()
      ensures packed.View().Holds(OffsetsOf(ints, lo, codec.IntType()), bw) && packed.nullBitmap == ArrayBitmap(c)
    {
      var offsets := OffsetsFrom(ints, lo, codec.bits);
      OffsetsMatch(ints, lo, codec.bits, offsets);
      packed := new BitPackedArray(offsets, c.KeptBitmap(), bw);
    }

    method ToArrow(avx2: bool) returns (c: Column<Double>, nulls: nat)
      requires Valid() && Ends(bitPacked.length, bitPacked.bitWidth, codec.bits, avx2)
      ensures Seen(bitPacked.View(), codec.bits, avx2).Sound()
      ensures c == DecodeFloat(Seen(bitPacked.View(), codec.bits, avx2), referenceValue, codec, patchIndices,
                patchValues)
      ensures nulls == c.NullCount()
    {
      var n := bitPacked.length;
      ghost var p := Seen(bitPacked.View(), codec.bits, avx2);
      SeenNulls(bitPacked.View(), codec.bits, avx2);
      var temp := new nat[n];
      bitPacked.BulkUnpackTo(temp, codec.bits, avx2);
      var values := DecodeLoop(temp, Unpatched(p, referenceValue, codec));
      for j := 0 to |patchIndices|
        invariant values == Patched(Unpatched(p, referenceValue, codec), patchIndices, patchValues, j)
      {
        values := values[patchIndices[j] := patchValues[j]];
      }
      nulls := bitPacked.NullCount();
      c := Column(values, bitPacked.View().NullBuffer());
      NullCountAgrees(p, values);
    }

    /** The single pass over the unpacked offsets. */
    method DecodeLoop(temp: array<nat>, ghost decoded: seq<Double>) returns (values: seq<Double>)
      requires codec.bits > 0 && temp.Length == |decoded|
      requires forall i {:trigger decoded[i]} :: 0 <= i < |decoded| ==>
                 decoded[i] == codec.dec(Restore(temp[i], referenceValue, codec.IntType()))
      ensures values == decoded
    {
      values := [];
      for i := 0 to temp.Length
        invariant values == decoded[..i]
      {
        assert decoded[i] == codec.dec(Restore(temp[i], referenceValue, codec.IntType()));
        values := values + [codec.dec(Restore(temp[i], referenceValue, codec.IntType()))];
      }
    }
  }

  lemma IntRange(c: Column<Double>, codec: Codec, lo: int, hi: int)
    requires codec.Valid() && |c.values| > 0
    requires var ints := IntsOf(c, codec).values;
             lo in ints && hi in ints && forall i :: 0 <= i < |ints| ==> lo <= ints[i] <= hi
    ensures RangeOf(IntsOf(c, codec), lo, hi)
    ensures IsSigned(lo, codec.bits) && IsSigned(hi, codec.bits)
  {
    assert RangeOf(IntsOf(c, codec), lo, hi);
    IntsContained(c, codec);
    BoundsContained(IntsOf(c, codec), codec.IntType(), lo, hi);
  }

  lemma SpanFits(lo: int, hi: int, codec: Codec)
    requires codec.Valid() && lo <= hi && IsSigned(lo, codec.bits) && IsSigned(hi, codec.bits)
    ensures Mask(hi - lo, codec.bits) == hi - lo && GetBitWidth(hi - lo) <= codec.bits
  {
    RangeWidth(lo, hi, codec.IntType());
  }

  lemma PackedRange(p: Packed, c: Column<Double>, codec: Codec, lo: int, hi: int)
    requires c.WellFormed() && codec.Valid() && |c.values| > 0 && RangeOf(IntsOf(c, codec), lo, hi)
    requires p.Sound() && p.nullBitmap == ArrayBitmap(c)
    requires p.Holds(OffsetsOf(IntsOf(c, codec).values, lo, codec.IntType()), GetBitWidth(hi - lo))
    ensures EncodesFloat(p, c, codec, lo) && WidthIs(IntsOf(c, codec), p.bitWidth)
  {
    assert Encodes(p.(nullBitmap := []), IntsOf(c, codec), codec.IntType(), lo, hi);
  }

  lemma OffsetsMatch(ints: seq<int>, lo: int, b: nat, offsets: seq<nat>)
    requires (b == 32 || b == 64) && |offsets| == |ints|
    requires forall j :: 0 <= j < |ints| ==> offsets[j] == Mask(ints[j] - lo, b)
    ensures offsets == OffsetsOf(ints, lo, NativeType(b, true))
  {
    forall j | 0 <= j < |ints| ensures offsets[j] == OffsetsOf(ints, lo, NativeType(b, true))[j] {
      MaskDiff(ints[j], lo, b);
    }
  }

  method OffsetsFrom(ints: seq<int>, lo: int, b: nat) returns (offsets: seq<nat>)
    requires b <= 64
    ensures |offsets| == |ints|
    ensures forall j :: 0 <= j < |ints| ==> offsets[j] == Mask(ints[j] - lo, b) && offsets[j] < TWO_64
  {
    offsets := [];
    for i := 0 to |ints|
      invariant |offsets| == i
      invariant forall j :: 0 <= j < i ==> offsets[j] == Mask(ints[j] - lo, b) && offsets[j] < TWO_64
    {
      OffsetFits(ints[i] - lo, b);
      offsets := offsets + [Mask(ints[i] - lo, b)];
    }
  }

  /** The patch-collecting loop. */
  method CollectPatches(values: seq<Double>, encoded: seq<int>, codec: Codec)
    returns (rows: seq<nat>, patches: seq<Double>)
    requires |encoded| == |values| && forall i :: 0 <= i < |values| ==> encoded[i] == codec.enc(values[i])
    ensures rows == PatchRows(values, codec, |values|)
    ensures |patches| == |rows|
    ensures forall j :: 0 <= j < |rows| ==> rows[j] < |values| && patches[j] == values[rows[j]]
  {
    rows, patches := [], [];
    for i := 0 to |values|
      invariant rows == PatchRows(values, codec, i) && |patches| == |rows|
      invariant forall j :: 0 <= j < |rows| ==> rows[j] < |values| && patches[j] == values[rows[j]]
    {
      if !Eq(codec.dec(encoded[i]), values[i]) {
        rows := rows + [i];
        patches := patches + [values[i]];
      }
    }
  }

  /** Patched rows are overwritten with the first integer that needs no patch. */
  method FillPatched(values: seq<Double>, encoded: seq<int>, rows: seq<nat>, codec: Codec) returns (filled: seq<int>)
    requires |encoded| == |values| > 0
    requires forall i :: 0 <= i < |values| ==> encoded[i] == codec.enc(values[i])
    requires forall j :: 0 <= j < |rows| ==> rows[j] < |values|
    requires forall i :: 0 <= i < |values| ==> (i in rows <==> codec.NeedsPatch(values[i]))
    requires exists i :: 0 <= i < |values| && !codec.NeedsPatch(values[i])
    ensures filled == Filled(values, codec)
  {
    var fill := encoded[0];
    var i := 0;
    while i < |values| && i in rows
      invariant i <= |values| && FirstUnpatched(values, codec, 0) == FirstUnpatched(values, codec, i)
    {
      i := i + 1;
    }
    assert i < |values| && i == FirstUnpatched(values, codec, 0);
    if i < |values| {
      fill := encoded[i];
    }
    filled := encoded;
    for j := 0 to |rows|
      invariant |filled| == |values|
      invariant forall i :: 0 <= i < |values| ==> filled[i] == if i in rows[..j] then fill else encoded[i]
    {
      filled := filled[rows[j] := fill];
    }
    assert rows[..|rows|] == rows;
  }

  method MinMax(s: seq<int>) returns (lo: int, hi: int)
    requires |s| > 0
    ensures lo in s && hi in s
    ensures forall i :: 0 <= i < |s| ==> lo <= s[i] <= hi
  {
    lo, hi := s[0], s[0];
    for i := 1 to |s|
      invariant lo in s && hi in s
      invariant forall j :: 0 <= j < i ==> lo <= s[j] <= hi
    {
      if s[i] < lo { lo := s[i]; }
      if s[i] > hi { hi := s[i]; }
    }
  }

  lemma OffsetFits(x: int, b: nat)
    requires b <= 64
    ensures Mask(x, b) < TWO_64 && GetBitWidth(Mask(x, b)) <= 64
  {
    var w := 64;
    MaskBound(x, b);
    Pow2Mono(b, w);
    Pow2Width(w);
    GetBitWidthLeast(Mask(x, b), w);
  }

  lemma NullFloats(p: Packed, c: Column<Double>, codec: Codec)
    requires c.WellFormed() && codec.Valid() && c.NullCount() == |c.values|
    requires p.Sound() && p.length == |c.values|
    requires p.nullBitmap == if KeepsNulls(c) then Zeros(CeilDiv8(p.length)) else []
    ensures Lossless(DecodeFloat(p, 0, codec, [], []), c, codec) <==> KeepsNulls(c)
  {
    var d := DecodeFloat(p, 0, codec, [], []);
    if KeepsNulls(c) {
      AllNull(c);
      NothingSet(p.length);
      forall i | 0 <= i < |c.values| ensures !d.IsValid(i) && !c.IsValid(i) {
        assert d.validity.value == p.nullBitmap;
      }
    } else {
      FloatNullsLost(p, c, d, codec);
    }
  }

  /** The float encoding is lossless whatever exponents were chosen, even when every value needs a patch, if and only if
      the rows that the 32-bit byte index of a copy confuses decode to equal values. */
  method RoundTrip(c: Column<Double>, codec: Codec, avx2: bool) returns (d: Column<Double>, nulls: nat, bw: nat)
    requires c.WellFormed() && codec.Valid() && AllEnd(|c.values|, avx2)
    ensures d.WellFormed() && nulls == d.NullCount() && FloatWidthIs(c, codec, bw)
    ensures Lossless(d, c, codec) <==> FloatsAgree(c, codec, bw, avx2)
    ensures !Rewinds(|c.values|, bw, codec.bits, avx2) ==> Lossless(d, c, codec)
  {
    var a := LiquidFloatArray.FromArrow(c, codec);
    bw := a.bitPacked.bitWidth;
    EndsAtAnyWidth(|c.values|, bw, codec.bits, avx2);
    d, nulls := a.ToArrow(avx2);
    SeenLossless(a.bitPacked.View(), c, codec, a.referenceValue, avx2, a.patchIndices, a.patchValues);
  }

  lemma SeenLossless(p: Packed, c: Column<Double>, codec: Codec, lo: int, avx2: bool, rows: seq<nat>,
                     patches: seq<Double>)
    requires c.WellFormed() && codec.Valid() && KeepsNulls(c) && p.Sound() && p.length == |c.values|
    requires |rows| == |patches| && forall j :: 0 <= j < |rows| ==> rows[j] < p.length
    requires Lossless(DecodeFloat(p, lo, codec, rows, patches), c, codec)
    requires c.NullCount() == |c.values| ==> p.bitWidth == 0
    requires c.NullCount() < |c.values| ==>
               && EncodesFloat(p, c, codec, lo)
               && rows == PatchRows(c.values, codec, |c.values|) && patches == Select(c.values, rows)
    ensures Seen(p, codec.bits, avx2).Sound()
    ensures Lossless(DecodeFloat(Seen(p, codec.bits, avx2), lo, codec, rows, patches), c, codec)
       <==> FloatsAgree(c, codec, p.bitWidth, avx2)
    ensures !Rewinds(|c.values|, p.bitWidth, codec.bits, avx2) ==> FloatsAgree(c, codec, p.bitWidth, avx2)
  {
    SeenNulls(p, codec.bits, avx2);
    if c.NullCount() < |c.values| {
      SeenFloats(p, c, codec, lo, avx2, rows);
    }
    if !Rewinds(|c.values|, p.bitWidth, codec.bits, avx2) {
      FloatsAgreeUnlessRewound(c, codec, p.bitWidth, avx2);
    }
  }
}
