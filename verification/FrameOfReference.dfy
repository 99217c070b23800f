/** `LiquidPrimitiveArray`: offsets from the least value, bit-packed at the width of the range. */
module FrameOfReference {
  import opened Arith
  import opened Arrow
  import opened BitPacked
  import opened Bytes
  import opened Native
  import opened Wrappers
  import opened Unpacking

  /** Least and greatest value over the rows that are not null, or 0 and 0 when there is none. */
  method ComputeMinMax(c: Column<int>) returns (lo: int, hi: int)
    requires c.WellFormed()
    ensures forall i :: 0 <= i < |c.values| && c.IsValid(i) ==> lo <= c.values[i] <= hi
    ensures (exists i :: 0 <= i < |c.values| && c.IsValid(i)) ==>
              && (exists i :: 0 <= i < |c.values| && c.IsValid(i) && c.values[i] == lo)
              && (exists i :: 0 <= i < |c.values| && c.IsValid(i) && c.values[i] == hi)
    ensures !(exists i :: 0 <= i < |c.values| && c.IsValid(i)) ==> lo == 0 && hi == 0
  {
    var n := |c.values|;
    if c.NullCount() == n {
      AllNull(c);
      return 0, 0;
    }
    var i := 0;
    while i < n && !c.IsValid(i)
      invariant i <= n
      invariant forall j :: 0 <= j < i ==> !c.IsValid(j)
    {
      i := i + 1;
    }
    if i >= n {
      return 0, 0;
    }
    lo, hi := c.values[i], c.values[i];
    ghost var atLo, atHi := i, i;
    i := i + 1;
    while i < n
      invariant i <= n && 0 <= atLo < i && 0 <= atHi < i
      invariant c.IsValid(atLo) && c.values[atLo] == lo
      invariant c.IsValid(atHi) && c.values[atHi] == hi
      invariant forall j :: 0 <= j < i && c.IsValid(j) ==> lo <= c.values[j] <= hi
    {
      if c.IsValid(i) {
        var v := c.values[i];
        if v < lo { lo, atLo := v, i; }
        if v > hi { hi, atHi := v, i; }
      }
      i := i + 1;
    }
  }

  /** The least and the greatest value of the rows that are not null. */
  ghost predicate RangeOf(c: Column<int>, lo: int, hi: int)
    requires c.WellFormed()
  {
    && lo <= hi
    && (forall i :: 0 <= i < |c.values| && c.IsValid(i) ==> lo <= c.values[i] <= hi)
    && (exists i :: 0 <= i < |c.values| && c.IsValid(i) && c.values[i] == lo)
    && (exists i :: 0 <= i < |c.values| && c.IsValid(i) && c.values[i] == hi)
  }

  lemma AllNull<T>(c: Column<T>)
    requires c.WellFormed()
    ensures c.NullCount() == |c.values| <==> forall i :: 0 <= i < |c.values| ==> !c.IsValid(i)
  {
    if c.validity.Some? {
      CountExtremes(c.validity.value, |c.values|);
      assert forall i :: 0 <= i < |c.values| ==> c.IsValid(i) == BitSet(c.validity.value, i);
    } else if |c.values| > 0 {
      assert c.IsValid(0);
    }
  }

  /** The unsigned, wrapping difference of two values of the type. */
  function Offset(v: int, lo: int, ty: NativeType): nat
    requires ty.bits > 0
  {
    Mask(Mask(v, ty.bits) - Mask(lo, ty.bits), ty.bits)
  }

  /** The 64-bit number handed to packing: the difference of types narrower than `int` is promoted, and extends its
      sign. */
  function StoredOffset(v: int, lo: int, ty: NativeType): nat
    requires ty.bits > 0
  {
    Mask(Mask(v, ty.bits) - Mask(lo, ty.bits), if ty.bits < 32 then 64 else ty.bits)
  }

  /** The promotion does not show at any width the type can ask for. */
  lemma StoredCut(v: int, lo: int, ty: NativeType, bw: nat)
    requires ty.Valid() && bw <= ty.bits
    ensures Mask(StoredOffset(v, lo, ty), bw) == Mask(Offset(v, lo, ty), bw)
  {
    var d := Mask(v, ty.bits) - Mask(lo, ty.bits);
    MaskMask(d, bw, ty.bits);
    MaskMask(d, bw, 64);
  }

  /** The offsets of all rows, null or not. */
  function OffsetsOf(values: seq<int>, lo: int, ty: NativeType): (s: seq<nat>)
    requires ty.bits > 0
    ensures |s| == |values|
    ensures forall i {:trigger StoredOffset(values[i], lo, ty)} :: 0 <= i < |s| ==>
              s[i] == StoredOffset(values[i], lo, ty)
  {
    seq(|values|, i requires 0 <= i < |values| => StoredOffset(values[i], lo, ty))
  }

  /** The value decoded from an unpacked offset. */
  function Restore(temp: nat, lo: int, ty: NativeType): int
    requires ty.bits > 0
  {
    ty.Wrap(lo + ty.Wrap(temp))
  }

  lemma OffsetIsDifference(v: int, lo: int, ty: NativeType)
    requires ty.bits > 0 && ty.Contains(v) && ty.Contains(lo) && lo <= v
    ensures Offset(v, lo, ty) == v - lo
  {
    MaskDiff(v, lo, ty.bits);
    ty.Span(lo, v);
    MaskSmall(v - lo, ty.bits);
  }

  /** A value whose offset fits the packing width is decoded. */
  lemma RestoreDifference(v: int, lo: int, ty: NativeType, bw: nat)
    requires ty.bits > 0 && ty.Contains(lo) && ty.Contains(v) && lo <= v && v - lo < Pow2(bw)
    ensures Restore(Mask(Mask(v - lo, bw), ty.bits), lo, ty) == v
  {
    MaskSmall(v - lo, bw);
    ty.Span(lo, v);
    MaskSmall(v - lo, ty.bits);
    ty.WrapSum(lo, v - lo);
    ty.WrapInRange(v);
  }

  /** The width of a range. */
  lemma RangeWidth(lo: int, hi: int, ty: NativeType)
    requires ty.Valid() && ty.Contains(lo) && ty.Contains(hi) && lo <= hi
    ensures Offset(hi, lo, ty) == Mask(hi - lo, ty.bits) == hi - lo < TWO_64
    ensures GetBitWidth(hi - lo) <= ty.bits
  {
    OffsetIsDifference(hi, lo, ty);
    ty.Span(lo, hi);
    MaskSmall(hi - lo, ty.bits);
    WidthWithin(hi - lo, ty.bits);
  }

  lemma WidthWithin(x: nat, bits: nat)
    requires 0 < bits <= 64 && x < Pow2(bits)
    ensures x < TWO_64 && GetBitWidth(x) <= bits
  {
    GetBitWidthLeast(x, bits);
    Pow2Mono(bits, 64);
    Pow2Width(64);
  }

  /** Every value between the bounds survives: offset, cut to the width of the range, and wrapping addition. */
  lemma RestoreOffset(v: int, lo: int, hi: int, ty: NativeType)
    requires ty.Valid() && ty.Contains(lo) && ty.Contains(v) && ty.Contains(hi) && lo <= v <= hi
    ensures Restore(Mask(Mask(StoredOffset(v, lo, ty), GetBitWidth(hi - lo)), ty.bits), lo, ty) == v
  {
    RangeWidth(lo, hi, ty);
    StoredCut(v, lo, ty, GetBitWidth(hi - lo));
    OffsetIsDifference(v, lo, ty);
    RestoreDifference(v, lo, ty, GetBitWidth(hi - lo));
  }

  /** At the width of the type every value survives, between the bounds or not. */
  lemma RestoreFull(v: int, lo: int, ty: NativeType)
    requires ty.Valid() && ty.Contains(v)
    ensures Restore(Mask(Mask(StoredOffset(v, lo, ty), ty.bits), ty.bits), lo, ty) == v
  {
    FullOffset(v, lo, ty);
    RestoreResidue(v, lo, ty);
  }

  lemma FullOffset(v: int, lo: int, ty: NativeType)
    requires ty.Valid()
    ensures Mask(Mask(StoredOffset(v, lo, ty), ty.bits), ty.bits) == Mask(v - lo, ty.bits)
  {
    StoredCut(v, lo, ty, ty.bits);
    MaskDiff(v, lo, ty.bits);
    MaskMask(v - lo, ty.bits, ty.bits);
  }

  lemma RestoreResidue(v: int, lo: int, ty: NativeType)
    requires ty.bits > 0 && ty.Contains(v)
    ensures Restore(Mask(v - lo, ty.bits), lo, ty) == v
  {
    ty.WrapOfMask(v - lo);
    ty.WrapSum(lo, v - lo);
    ty.WrapInRange(v);
  }

  /** The column that a reference value and packed offsets stand for. */
  function Decode(p: Packed, reference: int, ty: NativeType): (c: Column<int>)
    requires ty.Valid() && p.Sound()
    ensures c.WellFormed()
  {
    Column(seq(p.length, i requires 0 <= i < p.length => Restore(Mask(p.Element(i), ty.bits), reference, ty)),
           p.NullBuffer())
  }

  lemma StoredOffsetFits(v: int, lo: int, ty: NativeType)
    requires ty.Valid()
    ensures StoredOffset(v, lo, ty) < TWO_64
  {
    RegisterFits(Mask(v, ty.bits) - Mask(lo, ty.bits), if ty.bits < 32 then 64 else ty.bits);
  }

  lemma RegisterFits(d: int, w: nat)
    requires w == 32 || w == 64
    ensures Mask(d, w) < TWO_64
  {
    MaskBound(d, w);
    WidthWithin(Mask(d, w), w);
  }

  /** The zeroed bitmap of an all-null column marks every row as null. */
  lemma NothingSet(n: nat)
    ensures forall i :: 0 <= i < n ==> !BitSet(Zeros(CeilDiv8(n)), i)
  {
    forall i | 0 <= i < n ensures !BitSet(Zeros(CeilDiv8(n)), i) {
      BitsZero(0, i % 8, 1);
    }
  }

  /** The zero buffer with a zeroed bitmap decodes to a column of nulls. */
  lemma NullColumn(p: Packed, c: Column<int>, d: Column<int>)
    requires c.WellFormed() && c.NullCount() == |c.values|
    requires p.Sound() && p.length == |c.values| == |d.values| && d.validity == p.NullBuffer()
    requires p.nullBitmap == if KeepsNulls(c) then Zeros(CeilDiv8(p.length)) else []
    ensures SameColumn(d, c) <==> KeepsNulls(c)
  {
    AllNull(c);
    if KeepsNulls(c) {
      NothingSet(p.length);
      forall i | 0 <= i < |c.values| ensures !d.IsValid(i) && !c.IsValid(i) {
        assert d.validity.value == p.nullBitmap;
      }
    } else {
      assert d.IsValid(0) && !c.IsValid(0);
    }
  }

  /** Does the array keep the column's bitmap? It is dropped when the count lies within seven of 2^32. */
  predicate KeepsNulls<T>(c: Column<T>)
    requires c.WellFormed()
  {
    c.NullCount() == 0 || |c.values| + 7 < TWO_32
  }

  lemma NoNull<T>(c: Column<T>)
    requires c.WellFormed()
    ensures c.NullCount() == 0 <==> forall i :: 0 <= i < |c.values| ==> c.IsValid(i)
  {
    if c.validity.Some? {
      CountExtremes(c.validity.value, |c.values|);
      assert forall i :: 0 <= i < |c.values| ==> c.IsValid(i) == BitSet(c.validity.value, i);
    }
  }

  lemma SameKeep<S, T>(c: Column<S>, d: Column<T>)
    requires c.WellFormed() && d.WellFormed() && |c.values| == |d.values|
    requires forall i :: 0 <= i < |c.values| ==> c.IsValid(i) == d.IsValid(i)
    ensures KeepsNulls(c) == KeepsNulls(d)
  {
    NoNull(c);
    NoNull(d);
  }

  /** The bitmap of a packed array that is built with the one an encoder keeps. */
  function ArrayBitmap<T>(c: Column<T>): seq<byte>
    requires c.WellFormed()
  {
    if c.KeptBitmap().Some? && |c.values| + 7 < TWO_32 then c.KeptBitmap().value else []
  }

  /** A packed buffer built with the bitmap an encoder keeps has the null rows of the column. */
  lemma SameNulls<T>(p: Packed, c: Column<T>, i: nat)
    requires c.WellFormed() && p.Sound() && p.length == |c.values| && i < p.length
    requires p.nullBitmap == ArrayBitmap(c) && KeepsNulls(c)
    ensures (p.NullBuffer().None? || BitSet(p.NullBuffer().value, i)) == c.IsValid(i)
    ensures p.IsNull(i) == !c.IsValid(i)
  {
    KeptBitmapSameNulls(c, i);
  }

  /** A dropped bitmap makes null rows valid. */
  lemma NullsLost<T>(p: Packed, c: Column<T>, d: Column<T>)
    requires c.WellFormed() && p.Sound() && p.length == |c.values| == |d.values| && d.validity == p.NullBuffer()
    requires p.nullBitmap == ArrayBitmap(c) && !KeepsNulls(c)
    ensures !SameColumn(d, c)
  {
    CountExtremes(c.validity.value, |c.values|);
    var i :| 0 <= i < |c.values| && !BitSet(c.validity.value, i);
    assert d.IsValid(i) && !c.IsValid(i);
  }

  /** The null count that decoding reports is that of the column it builds. */
  lemma NullCountAgrees<T>(p: Packed, values: seq<T>)
    requires p.Sound() && |values| == p.length
    ensures Column(values, p.NullBuffer()).NullCount() == p.NullCount()
  {
    if p.nullBitmap != [] {
      CountPrefix(p.nullBitmap, CeilDiv8(p.length), p.length);
    }
  }

  /** The packed form of a column whose valid rows range from `lo` to `hi`: the offsets at the width of the range. */
  ghost predicate Encodes(p: Packed, c: Column<int>, ty: NativeType, lo: int, hi: int)
    requires c.WellFormed() && ty.Valid()
  {
    && p.Sound() && RangeOf(c, lo, hi)
    && p.Holds(OffsetsOf(c.values, lo, ty), GetBitWidth(hi - lo))
    && p.nullBitmap == ArrayBitmap(c)
  }

  /** Every value of a column is one of the type. */
  predicate AllContained(values: seq<int>, ty: NativeType)
    requires ty.bits > 0
  {
    forall i :: 0 <= i < |values| ==> ty.Contains(values[i])
  }

  lemma EncodedElement(p: Packed, c: Column<int>, ty: NativeType, lo: int, hi: int, i: nat)
    requires c.WellFormed() && ty.Valid() && Encodes(p, c, ty, lo, hi) && i < |c.values|
    ensures p.Element(i) == Mask(StoredOffset(c.values[i], lo, ty), GetBitWidth(hi - lo))
  {
    GetAfterPack(p, OffsetsOf(c.values, lo, ty), p.bitWidth, i);
    assert OffsetsOf(c.values, lo, ty)[i] == StoredOffset(c.values[i], lo, ty);
  }

  /** The bounds of a column are values of its type. */
  lemma BoundsContained(c: Column<int>, ty: NativeType, lo: int, hi: int)
    requires c.WellFormed() && ty.Valid() && AllContained(c.values, ty) && RangeOf(c, lo, hi)
    ensures ty.Contains(lo) && ty.Contains(hi)
  {
    var i :| 0 <= i < |c.values| && c.IsValid(i) && c.values[i] == lo;
    assert ty.Contains(c.values[i]);
    var j :| 0 <= j < |c.values| && c.IsValid(j) && c.values[j] == hi;
    assert ty.Contains(c.values[j]);
  }

  /** The packed offsets of a column decode to the column, null slots outside the range or not, unless its bitmap is
      dropped. */
  lemma EncodedColumn(p: Packed, c: Column<int>, ty: NativeType, lo: int, hi: int)
    requires c.WellFormed() && ty.Valid() && AllContained(c.values, ty) && Encodes(p, c, ty, lo, hi)
    ensures SameColumn(Decode(p, lo, ty), c) <==> KeepsNulls(c)
  {
    var d := Decode(p, lo, ty);
    if KeepsNulls(c) {
      BoundsContained(c, ty, lo, hi);
      forall i | 0 <= i < |c.values|
        ensures d.IsValid(i) == c.IsValid(i) && (c.IsValid(i) ==> d.values[i] == c.values[i])
      {
        SameNulls(p, c, i);
        if c.IsValid(i) {
          EncodedElement(p, c, ty, lo, hi, i);
          RestoreOffset(c.values[i], lo, hi, ty);
        }
      }
    } else {
      NullsLost(p, c, d);
    }
  }

  // ---------------------------------------------------------------- what the bulk paths restore

  /** The rows of `d` are those of `c` as a bulk path sees them: the same nulls, and at every other row the value of its
      seen row. */
  ghost predicate SeenAs<T>(d: Column<T>, c: Column<T>, bw: nat, tbits: nat, avx2: bool)
    requires d.WellFormed() && c.WellFormed()
  {
    && |d.values| == |c.values|
    && forall i :: 0 <= i < |c.values| ==>
         var r := SeenRow(|c.values|, bw, tbits, avx2, i);
         d.IsValid(i) == c.IsValid(i) && r <= i && (c.IsValid(i) ==> d.values[i] == c.values[r])
  }

  /** Every row that is not null holds the value of its seen row. */
  ghost predicate SeenAgrees<T>(c: Column<T>, bw: nat, tbits: nat, avx2: bool)
    requires c.WellFormed()
  {
    forall i {:trigger SeenRow(|c.values|, bw, tbits, avx2, i)} :: 0 <= i < |c.values| && c.IsValid(i) ==>
      var r := SeenRow(|c.values|, bw, tbits, avx2, i);
      r <= i && c.values[i] == c.values[r]
  }

  /** The column comes back if and only if the rows that the bulk path confuses hold equal values. */
  lemma SeenAsIff<T>(d: Column<T>, c: Column<T>, bw: nat, tbits: nat, avx2: bool)
    requires d.WellFormed() && c.WellFormed() && SeenAs(d, c, bw, tbits, avx2)
    ensures SameColumn(d, c) <==> SeenAgrees(c, bw, tbits, avx2)
    ensures !Rewinds(|c.values|, bw, tbits, avx2) ==> SameColumn(d, c)
  {
    forall i | 0 <= i < |c.values|
      ensures SeenRow(|c.values|, bw, tbits, avx2, i) <= i
      ensures d.IsValid(i) == c.IsValid(i)
      ensures c.IsValid(i) ==> d.values[i] == c.values[SeenRow(|c.values|, bw, tbits, avx2, i)]
    {
    }
  }

  /** The value decoded at a valid row is that of its seen row, at any width. */
  lemma SeenValue(p: Packed, c: Column<int>, ty: NativeType, lo: int, hi: int, avx2: bool, i: nat)
    requires c.WellFormed() && ty.Valid() && AllContained(c.values, ty) && Encodes(p, c, ty, lo, hi)
    requires i < |c.values| && c.IsValid(i)
    ensures SeenRow(p.length, p.bitWidth, ty.bits, avx2, i) <= i
    ensures Restore(Mask(Seen(p, ty.bits, avx2).Element(i), ty.bits), lo, ty)
       == c.values[SeenRow(p.length, p.bitWidth, ty.bits, avx2, i)]
  {
    var r := SeenRow(p.length, p.bitWidth, ty.bits, avx2, i);
    SeenElement(p, ty.bits, avx2, i);
    EncodedElement(p, c, ty, lo, hi, r);
    if Rewinds(p.length, p.bitWidth, ty.bits, avx2) {
      RestoreFull(c.values[r], lo, ty);
    } else {
      BoundsContained(c, ty, lo, hi);
      RestoreOffset(c.values[i], lo, hi, ty);
    }
  }

  /** What the bulk path decodes are the seen rows. */
  lemma SeenColumn(p: Packed, c: Column<int>, ty: NativeType, lo: int, hi: int, avx2: bool)
    requires c.WellFormed() && ty.Valid() && AllContained(c.values, ty) && Encodes(p, c, ty, lo, hi) && KeepsNulls(c)
    ensures Seen(p, ty.bits, avx2).Sound()
    ensures SeenAs(Decode(Seen(p, ty.bits, avx2), lo, ty), c, p.bitWidth, ty.bits, avx2)
  {
    var q := Seen(p, ty.bits, avx2);
    SeenNulls(p, ty.bits, avx2);
    var d := Decode(q, lo, ty);
    forall i | 0 <= i < |c.values|
      ensures d.IsValid(i) == c.IsValid(i)
      ensures SeenRow(|c.values|, p.bitWidth, ty.bits, avx2, i) <= i
      ensures c.IsValid(i) ==> d.values[i] == c.values[SeenRow(|c.values|, p.bitWidth, ty.bits, avx2, i)]
    {
      SameNulls(p, c, i);
      SeenRowBound(p.length, p.bitWidth, ty.bits, avx2, i);
      if c.IsValid(i) {
        SeenValue(p, c, ty, lo, hi, avx2, i);
      }
    }
  }

  /** A column whose array no copy rewinds is seen as it is. */
  lemma SameIsSeenAs<T>(d: Column<T>, c: Column<T>, bw: nat, tbits: nat, avx2: bool)
    requires d.WellFormed() && c.WellFormed() && SameColumn(d, c) && !Rewinds(|c.values|, bw, tbits, avx2)
    ensures SeenAs(d, c, bw, tbits, avx2)
  {
  }

  /** The packing width of a column: that of the range of its valid rows, or 0 when there is none. */
  ghost predicate WidthIs(c: Column<int>, bw: nat)
    requires c.WellFormed()
  {
    if c.NullCount() == |c.values| then bw == 0
    else exists lo, hi :: RangeOf(c, lo, hi) && bw == GetBitWidth(hi - lo)
  }

  class LiquidPrimitiveArray {
    const ty: NativeType
    const referenceValue: int
    const bitPacked: BitPackedArray

    constructor (ty: NativeType, referenceValue: int, bitPacked: BitPackedArray)
      ensures this.ty == ty && this.referenceValue == referenceValue && this.bitPacked == bitPacked
    {
      this.ty, this.referenceValue, this.bitPacked := ty, referenceValue, bitPacked;
    }

    ghost predicate Valid()
      reads bitPacked
    {
      ty.Valid() && bitPacked.View().Sound()
    }

    ghost function Decoded(): (c: Column<int>)
      requires Valid()
      reads bitPacked
      ensures c.WellFormed()
    {
      Decode(bitPacked.View(), referenceValue, ty)
    }

    static method FromArrow(c: Column<int>, ty: NativeType) returns (a: LiquidPrimitiveArray)
      requires c.WellFormed() && ty.Valid() && |c.values| < TWO_32 && AllContained(c.values, ty)
      ensures fresh(a) && fresh(a.bitPacked) && a.ty == ty
      ensures a.Valid() && (SameColumn(a.Decoded(), c) <==> KeepsNulls(c))
      ensures WidthIs(c, a.bitPacked.bitWidth) && a.bitPacked.length == |c.values|
      ensures !KeepsNulls(c) ==> a.bitPacked.nullBitmap == []
      ensures c.NullCount() == |c.values| ==> a.referenceValue == 0
      ensures c.NullCount() < |c.values| ==> exists hi :: Encodes(a.bitPacked.View(), c, ty, a.referenceValue, hi)
    {
      var n := |c.values|;
      if c.NullCount() == n {
        var packed := new BitPackedArray(Zeros(n), Some(Zeros(CeilDiv8(n))), 0);
        a := new LiquidPrimitiveArray(ty, 0, packed);
        NullColumn(packed.View(), c, a.Decoded());
        return;
      }
      ghost var hi;
      a, hi := EncodeRange(c, ty);
      EncodedColumn(a.bitPacked.View(), c, ty, a.referenceValue, hi);
      assert RangeOf(c, a.referenceValue, hi);
    }

    /** The encoding of a column that is not all null. */
    static method EncodeRange(c: Column<int>, ty: NativeType) returns (a: LiquidPrimitiveArray, ghost hi: int)
      requires c.WellFormed() && ty.Valid() && |c.values| < TWO_32 && AllContained(c.values, ty)
               && c.NullCount() < |c.values|
      ensures fresh(a) && fresh(a.bitPacked) && a.ty == ty
      ensures Encodes(a.bitPacked.View(), c, ty, a.referenceValue, hi)
    {
      var lo, top := Bounds(c, ty);
      hi := top;
      RangeWidth(lo, hi, ty);
      var packed := PackRange(c, ty, lo, GetBitWidth(Offset(top, lo, ty)));
      assert Encodes(packed.View(), c, ty, lo, hi);
      a := new LiquidPrimitiveArray(ty, lo, packed);
    }

    /** Offsets and bitmap, packed. */
    static method PackRange(c: Column<int>, ty: NativeType, lo: int, bw: nat) returns (packed: BitPackedArray)
      requires c.WellFormed() && ty.Valid() && |c.values| < TWO_32 && bw <= 64
      ensures fresh(packed) && packed.View().Sound()
      ensures packed.View().Holds(OffsetsOf(c.values, lo, ty), bw)
      ensures packed.nullBitmap == ArrayBitmap(c)
    {
      var offsets := OffsetsFrom(c.values, lo, ty);
      packed := new BitPackedArray(offsets, c.KeptBitmap(), bw);
    }

    /** The range of a column that is not all null; its ends are values of the column. */
    static method Bounds(c: Column<int>, ty: NativeType) returns (lo: int, hi: int)
      requires c.WellFormed() && ty.Valid() && AllContained(c.values, ty) && c.NullCount() < |c.values|
      ensures RangeOf(c, lo, hi) && ty.Contains(lo) && ty.Contains(hi)
    {
      AllNull(c);
      lo, hi := ComputeMinMax(c);
      BoundsContained(c, ty, lo, hi);
    }

    static method OffsetsFrom(values: seq<int>, lo: int, ty: NativeType) returns (offsets: seq<nat>)
      requires ty.Valid()
      ensures offsets == OffsetsOf(values, lo, ty)
      ensures forall i :: 0 <= i < |values| ==> offsets[i] < TWO_64
    {
      offsets := [];
      for i := 0 to |values|
        invariant |offsets| == i
        invariant forall j :: 0 <= j < i ==> offsets[j] == OffsetsOf(values, lo, ty)[j] < TWO_64
      {
        StoredOffsetFits(values[i], lo, ty);
        offsets := offsets + [StoredOffset(values[i], lo, ty)];
      }
    }

    /** The loop of the bulk path must come to an end; what is decoded is what that path sees. */
    method ToArrow(avx2: bool) returns (c: Column<int>, nulls: nat)
      requires Valid() && Ends(bitPacked.length, bitPacked.bitWidth, ty.bits, avx2)
      ensures Seen(bitPacked.View(), ty.bits, avx2).Sound()
      ensures c == Decode(Seen(bitPacked.View(), ty.bits, avx2), referenceValue, ty)
      ensures nulls == c.NullCount()
    {
      ghost var p := Seen(bitPacked.View(), ty.bits, avx2);
      SeenNulls(bitPacked.View(), ty.bits, avx2);
      var n := bitPacked.length;
      var temp := new nat[n];
      bitPacked.BulkUnpackTo(temp, ty.bits, avx2);
      var values := [];
      for i := 0 to n
        invariant |values| == i
        invariant forall j :: 0 <= j < i ==> values[j] == Restore(Mask(p.Element(j), ty.bits), referenceValue, ty)
      {
        values := values + [Restore(temp[i], referenceValue, ty)];
      }
      nulls := bitPacked.NullCount();
      c := Column(values, bitPacked.View().NullBuffer());
      NullCountAgrees(bitPacked.View(), values);
    }
  }

  /** Encoding and decoding, over the full range of every type, for every count at which the loops end: each row comes
      back as the bulk path sees it, which is as it was unless copies run past 2^32 bytes. */
  method RoundTrip(c: Column<int>, ty: NativeType, avx2: bool) returns (d: Column<int>, nulls: nat, bw: nat)
    requires c.WellFormed() && ty.Valid() && AllContained(c.values, ty) && AllEnd(|c.values|, avx2)
    ensures d.WellFormed() && nulls == d.NullCount() && WidthIs(c, bw)
    ensures SeenAs(d, c, bw, ty.bits, avx2)
    ensures SameColumn(d, c) <==> SeenAgrees(c, bw, ty.bits, avx2)
    ensures !Rewinds(|c.values|, bw, ty.bits, avx2) ==> SameColumn(d, c)
  {
    var a := LiquidPrimitiveArray.FromArrow(c, ty);
    bw := a.bitPacked.bitWidth;
    EndsAtAnyWidth(|c.values|, bw, ty.bits, avx2);
    d, nulls := a.ToArrow(avx2);
    SeenDecoded(a.bitPacked.View(), c, ty, a.referenceValue, avx2);
    SeenAsIff(d, c, bw, ty.bits, avx2);
  }

  lemma SeenDecoded(p: Packed, c: Column<int>, ty: NativeType, reference: int, avx2: bool)
    requires c.WellFormed() && ty.Valid() && AllContained(c.values, ty) && KeepsNulls(c)
    requires p.Sound() && p.length == |c.values| && SameColumn(Decode(p, reference, ty), c)
    requires c.NullCount() == |c.values| ==> p.bitWidth == 0
    requires c.NullCount() < |c.values| ==> exists hi :: Encodes(p, c, ty, reference, hi)
    ensures Seen(p, ty.bits, avx2).Sound()
    ensures SeenAs(Decode(Seen(p, ty.bits, avx2), reference, ty), c, p.bitWidth, ty.bits, avx2)
  {
    if c.NullCount() < |c.values| {
      var hi :| Encodes(p, c, ty, reference, hi);
      SeenColumn(p, c, ty, reference, hi, avx2);
    } else {
      SameIsSeenAs(Decode(p, reference, ty), c, p.bitWidth, ty.bits, avx2);
    }
  }

  const LEAST: int := -0x8000_0000
  const GREATEST: int := 0x7fff_ffff

  /** The first row is the least 32-bit integer, every other the greatest. */
  function Step(n: nat): (c: Column<int>)
    ensures c.WellFormed() && |c.values| == n && c.NullCount() == 0
    ensures forall i :: 0 <= i < n ==> c.IsValid(i) && c.values[i] == if i == 0 then LEAST else GREATEST
  {
    Column(seq(n, i => if i == 0 then LEAST else GREATEST), None)
  }

  lemma StepWidth(n: nat, bw: nat)
    requires n >= 2 && WidthIs(Step(n), bw)
    ensures bw == 32
  {
    var c := Step(n);
    var lo, hi :| RangeOf(c, lo, hi) && bw == GetBitWidth(hi - lo);
    assert c.values[0] == LEAST && c.values[1] == GREATEST;
    assert c.IsValid(0) && c.IsValid(1);
    assert hi - lo == TWO_32 - 1;
    FullWidth(bw);
  }

  lemma FullWidth(bw: nat)
    requires bw == GetBitWidth(TWO_32 - 1)
    ensures bw == 32
  {
    var w := 32;
    Pow2Width(w);
    GetBitWidthLeast(TWO_32 - 1, w);
    if bw < w {
      Pow2Mono(bw, w - 1);
      assert false;
    }
  }

  /** In a column of 2^30 + 1 such rows the vector build decodes the last row as the first. */
  method StepMisread() returns (d: Column<int>)
    ensures d.WellFormed() && |d.values| == 0x4000_0001
    ensures d.values[0x4000_0000] == LEAST && Step(0x4000_0001).values[0x4000_0000] == GREATEST
  {
    var n := 0x4000_0001;
    var nulls, bw;
    StepContained(n);
    d, nulls, bw := RoundTrip(Step(n), NativeType(32, true), true);
    StepWidth(n, bw);
    assert SeenRow(n, bw, 32, true, 0x4000_0000) == 0;
  }

  lemma StepContained(n: nat)
    ensures AllContained(Step(n).values, NativeType(32, true))
  {
    var w := 32;
    Pow2Width(w);
  }
}
