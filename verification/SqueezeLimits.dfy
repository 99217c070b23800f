/**
  Columns for which a squeezed comparison returns a mask with a wrong bit. All are encoded in tenths, one of the
  exponent pairs of the encoder, over a range of 255 tenths: eight bits, of which squeezing keeps four.
 */
module SqueezeLimits {
  import opened Arith
  import opened Alp
  import opened Arrow
  import opened BitPacked
  import opened Bytes
  import opened FrameOfReference
  import opened Ieee
  import opened Native
  import opened Quantized
  import opened Unpacking
  import opened Wrappers

  /** Ten times the value, rounded and saturated; anything not finite is encoded as 0. */
  function TenthsOf(v: Double, half: int): int
    requires half > 0
  {
    if !v.IsFinite() then 0
    else
      var x := Round(10.0 * v.Num());
      if x < -half then -half else if x >= half then half - 1 else x
  }

  function Tenths(bits: nat): (codec: Codec)
    requires bits == 32 || bits == 64
    ensures codec.Valid() && codec.bits == bits
  {
    var half := Pow2(bits - 1);
    Codec(bits, (v: Double) => TenthsOf(v, half), x => Finite(x as real / 10.0))
  }

  lemma TenthsExact(bits: nat, v: Double, x: int)
    requires (bits == 32 || bits == 64) && v == Finite(x as real / 10.0) && -500 <= x <= 500
    ensures Tenths(bits).enc(v) == x && Eq(Tenths(bits).dec(x), v) && !Tenths(bits).NeedsPatch(v)
  {
    Pow2Mono(9, bits - 1);
    assert Pow2(9) == 512;
    assert 10.0 * v.Num() == x as real;
  }

  /** The integers range over 255 tenths from `lo`. */
  ghost predicate Spans(ints: seq<int>, lo: int) {
    && (forall i :: 0 <= i < |ints| ==> lo <= ints[i] <= lo + 255)
    && lo in ints && lo + 255 in ints
  }

  lemma SpanIs(c: Column<Double>, codec: Codec, lo: int, low: int, high: int)
    requires codec.Valid() && Spans(Filled(c.values, codec), lo) && RangeOf(IntsOf(c, codec), low, high)
    ensures low == lo && high == lo + 255
  {
    var ints := IntsOf(c, codec);
    var i :| 0 <= i < |ints.values| && ints.values[i] == lo;
    var j :| 0 <= j < |ints.values| && ints.values[j] == lo + 255;
    assert ints.IsValid(i) && ints.IsValid(j);
  }

  lemma ByteWide()
    ensures GetBitWidth(255) == 8
  {
    assert Pow2(8) == 256;
    assert BitLength(255) == 1 + BitLength(127) == 2 + BitLength(63) == 3 + BitLength(31) == 4 + BitLength(15);
  }

  lemma PackedReference(p: Packed, c: Column<Double>, codec: Codec, reference: int, lo: int)
    requires c.WellFormed() && codec.Valid() && EncodesFloat(p, c, codec, reference)
             && Spans(Filled(c.values, codec), lo)
    ensures reference == lo && p.bitWidth == 8
  {
    var high :| Encodes(p.(nullBitmap := []), IntsOf(c, codec), codec.IntType(), reference, high);
    SpanIs(c, codec, lo, reference, high);
    ByteWide();
  }

  /** The array of such a column: reference, width and the integer of every row. */
  lemma PackedSpan(p: Packed, c: Column<Double>, codec: Codec, reference: int, lo: int, avx2: bool)
    requires c.WellFormed() && codec.Valid() && EncodesFloat(p, c, codec, reference)
             && Spans(Filled(c.values, codec), lo)
    ensures reference == lo && p.bitWidth == 8 && Seen(p, codec.bits, avx2) == p
    ensures Integers(p, lo, codec) == Filled(c.values, codec)
  {
    PackedReference(p, c, codec, reference, lo);
    forall i | 0 <= i < |c.values| ensures Integers(p, lo, codec)[i] == Filled(c.values, codec)[i] {
      IntegerRestored(p, c, codec, lo, avx2, i);
    }
  }

  /** The lower end of the bucket of integer `x`; the upper end is 16 more. */
  function BucketOf(x: int, lo: int): int { 16 * (lo / 16 + (x / 16 - lo / 16) % 16) + lo }

  /** The bucket of an eight-bit row, squeezed to four. */
  lemma NibbleBucket(full: int, reference: int, s: nat, b: nat)
    requires s == 4 && (b == 32 || b == 64) && -500 <= full <= 500 && -500 <= reference <= 500
    ensures RowLow(full, reference, s, s, b) == BucketOf(full, reference)
    ensures RowHigh(full, reference, s, s, b) == BucketOf(full, reference) + 16
  {
    var i := reference / 16 + (full / 16 - reference / 16) % 16;
    NibbleIndex(full, reference, s);
    NibbleRange(full, reference, i);
    NibbleEnds(i, reference, s, b);
    EndsAt(full, reference, s, b, i);
  }

  lemma EndsAt(full: int, reference: int, s: nat, b: nat, i: int)
    requires b > 0 && StoredIndex(full, reference, s, s) == i
    ensures RowLow(full, reference, s, s, b) == ToSigned(Shl(i, s) + reference, b)
    ensures RowHigh(full, reference, s, s, b) == ToSigned(Shl(i + 1, s) + reference, b)
  {
  }

  lemma NibbleRange(full: int, reference: int, i: int)
    requires -500 <= reference <= 500 && i == reference / 16 + (full / 16 - reference / 16) % 16
    ensures -99 <= i < 100 && BucketOf(full, reference) == 16 * i + reference
  {
  }

  lemma NibbleEnds(i: int, reference: int, s: nat, b: nat)
    requires s == 4 && (b == 32 || b == 64) && -99 <= i < 100 && -500 <= reference <= 500
    ensures ToSigned(Shl(i, s) + reference, b) == 16 * i + reference
    ensures ToSigned(Shl(i + 1, s) + reference, b) == 16 * i + reference + 16
  {
    NibbleEnd(i, reference, s, b);
    NibbleEnd(i + 1, reference, s, b);
  }

  lemma NibbleIndex(full: int, reference: int, s: nat)
    requires s == 4
    ensures StoredIndex(full, reference, s, s) == reference / 16 + (full / 16 - reference / 16) % 16
  {
    NibbleBits(full);
    NibbleBits(reference);
    NibbleBits(full / 16 - reference / 16);
  }

  lemma NibbleEnd(i: int, reference: int, s: nat, b: nat)
    requires s == 4 && (b == 32 || b == 64) && -100 <= i <= 100 && -500 <= reference <= 500
    ensures ToSigned(Shl(i, s) + reference, b) == 16 * i + reference
  {
    NibbleBits(i);
    Pow2Mono(15, b - 1);
    Pow2Values();
    SignedRoundTrip(16 * i + reference, b);
  }

  /** A number of tenths, decoded. */
  function Tenth(x: int): Double { Finite(x as real / 10.0) }

  lemma TenthsDecode(bits: nat, x: int)
    requires bits == 32 || bits == 64
    ensures Tenths(bits).dec(x) == Tenth(x)
  {
  }

  /** The array of a column, as it is squeezed; the bucket of row `i` reaches from `lows[i]` tenths to 16 more. */
  ghost predicate Encoded(f: Floats, c: Column<Double>, bits: nat, lows: seq<int>)
    requires (bits == 32 || bits == 64) && c.WellFormed()
  {
    && f.Valid() && f.p.length == |c.values| == |lows| && f.rows == PatchRows(c.values, Tenths(bits), |c.values|)
    && forall i {:trigger f.p.IsNull(i)} {:trigger f.Low(i)} :: 0 <= i < |lows| ==>
         f.p.IsNull(i) == !c.IsValid(i) && f.Low(i) == Tenth(lows[i]) && f.High(i) == Tenth(lows[i] + 16)
  }

  function BucketsOf(ints: seq<int>, lo: int): (s: seq<int>)
    ensures |s| == |ints|
  {
    seq(|ints|, i requires 0 <= i < |ints| => BucketOf(ints[i], lo))
  }

  /** The buckets of the integers of a column. */
  ghost predicate BucketsAre(ints: seq<int>, lo: int, lows: seq<int>) { lows == BucketsOf(ints, lo) }

  lemma EncodedRow(f: Floats, bits: nat, lo: int, i: nat, x: int, low: int)
    requires (bits == 32 || bits == 64) && f.Valid() && f.codec == Tenths(bits) && i < f.p.length
    requires f.reference == lo && f.p.bitWidth == 8 && -200 <= lo <= 200 && -500 <= x <= 500
    requires Integers(f.p, lo, f.codec)[i] == x && low == BucketOf(x, lo)
    ensures f.Low(i) == Tenth(low) && f.High(i) == Tenth(low + 16)
  {
    var s := Shift(f.p.bitWidth);
    NibbleBucket(x, lo, s, bits);
    RowDecoded(f, bits, i, x, s, low);
  }

  lemma RowDecoded(f: Floats, bits: nat, i: nat, x: int, s: nat, low: int)
    requires (bits == 32 || bits == 64) && f.Valid() && f.codec == Tenths(bits) && i < f.p.length
    requires Integers(f.p, f.reference, f.codec)[i] == x && s == Shift(f.p.bitWidth) == NewWidth(f.p.bitWidth)
    requires RowLow(x, f.reference, s, s, bits) == low && RowHigh(x, f.reference, s, s, bits) == low + 16
    ensures f.Low(i) == Tenth(low) && f.High(i) == Tenth(low + 16)
  {
    TenthsDecode(bits, low);
    TenthsDecode(bits, low + 16);
  }

  lemma FloatsValid(f: Floats, c: Column<Double>)
    requires c.WellFormed() && f.codec.Valid() && f.p.Sound() && f.p.bitWidth == 8 && f.p.length == |c.values|
    requires f.rows == PatchRows(c.values, f.codec, |c.values|) && |f.rows| == |f.patches|
    ensures f.Valid()
  {
    PatchRowsExact(c.values, f.codec, |c.values|);
  }

  lemma IsEncoded(f: Floats, c: Column<Double>, bits: nat, lo: int, lows: seq<int>, avx2: bool)
    requires (bits == 32 || bits == 64) && c.WellFormed() && f.codec == Tenths(bits) && KeepsNulls(c)
    requires EncodesFloat(f.p, c, f.codec, f.reference) && Spans(Filled(c.values, f.codec), lo) && -200 <= lo <= 200
    requires f.rows == PatchRows(c.values, f.codec, |c.values|) && RowsWithin(f.rows, |c.values|)
    requires f.patches == Select(c.values, f.rows) && BucketsAre(Filled(c.values, f.codec), lo, lows)
    ensures Encoded(f, c, bits, lows) && Seen(f.p, bits, avx2) == f.p
  {
    PackedSpan(f.p, c, f.codec, f.reference, lo, avx2);
    FloatsValid(f, c);
    EncodedRows(f, c, bits, lo, lows);
    forall i | 0 <= i < |c.values| ensures f.p.IsNull(i) == !c.IsValid(i) {
      SameNulls(f.p, c, i);
    }
  }

  lemma EncodedRows(f: Floats, c: Column<Double>, bits: nat, lo: int, lows: seq<int>)
    requires (bits == 32 || bits == 64) && c.WellFormed() && f.Valid() && f.codec == Tenths(bits)
    requires f.reference == lo && f.p.bitWidth == 8 && -200 <= lo <= 200 && Spans(Filled(c.values, f.codec), lo)
    requires f.p.length == |c.values| && Integers(f.p, lo, f.codec) == Filled(c.values, f.codec)
    requires BucketsAre(Filled(c.values, f.codec), lo, lows)
    ensures forall i {:trigger f.Low(i)} :: 0 <= i < |lows| ==>
              f.Low(i) == Tenth(lows[i]) && f.High(i) == Tenth(lows[i] + 16)
  {
    var ints := Filled(c.values, f.codec);
    forall i {:trigger f.Low(i)} | 0 <= i < |lows|
      ensures f.Low(i) == Tenth(lows[i]) && f.High(i) == Tenth(lows[i] + 16)
    {
      BucketAt(ints, lo, lows, i);
      EncodedRow(f, bits, lo, i, ints[i], lows[i]);
    }
  }

  lemma BucketAt(ints: seq<int>, lo: int, lows: seq<int>, i: nat)
    requires BucketsAre(ints, lo, lows) && i < |ints|
    ensures i < |lows| && lows[i] == BucketOf(ints[i], lo)
  {
  }

  /** What a column of tenths must be to be asked. */
  ghost predicate Askable(c: Column<Double>, bits: nat, lo: int, lows: seq<int>)
    requires bits == 32 || bits == 64
  {
    && c.WellFormed() && c.NullCount() < |c.values| < 100 && -200 <= lo <= 200
    && Spans(Filled(c.values, Tenths(bits)), lo) && BucketsAre(Filled(c.values, Tenths(bits)), lo, lows)
  }

  /** Encodes a column of tenths, squeezes it and asks. */
  method Ask(c: Column<Double>, bits: nat, ghost lo: int, ghost lows: seq<int>, op: Operator, literal: Double,
             avx2: bool)
    returns (r: Option<BooleanArray>, ghost f: Floats)
    requires (bits == 32 || bits == 64) && Askable(c, bits, lo, lows)
    ensures Encoded(f, c, bits, lows)
    ensures r.None? <==> exists i :: 0 <= i < f.p.length && !f.p.IsNull(i) && f.Answer(op, literal, i).None?
    ensures r.Some? ==> HoldsAnswers(f, op, literal, r.value)
  {
    var a := LiquidFloatArray.FromArrow(c, Tenths(bits));
    IsEncoded(Floats(a.bitPacked.View(), a.referenceValue, a.codec, a.patchIndices, a.patchValues), c, bits, lo, lows,
              avx2);
    r, f := SqueezedPredicate(a, op, literal, avx2);
  }

  /** Every row that is not null is given the same answer. */
  ghost predicate Unanimous(c: Column<Double>, bits: nat, lows: seq<int>, op: Operator, k: Double, answer: bool)
    requires (bits == 32 || bits == 64) && c.WellFormed()
  {
    forall f: Floats, i :: Encoded(f, c, bits, lows) && 0 <= i < |c.values| && c.IsValid(i) ==>
        f.Answer(op, k, i) == Some(answer)
  }

  /** When every row that is not null has an answer, the mask holds them. */
  method AskAll(c: Column<Double>, bits: nat, ghost lo: int, ghost lows: seq<int>, op: Operator, literal: Double,
                avx2: bool,
                ghost answer: bool)
    returns (r: Option<BooleanArray>)
    requires (bits == 32 || bits == 64) && Askable(c, bits, lo, lows) && Unanimous(c, bits, lows, op, literal, answer)
    ensures r.Some? && r.value.length == |c.values| && |r.value.bits| == CeilDiv8(|c.values|)
    ensures forall i :: 0 <= i < |c.values| && c.IsValid(i) ==> BitRows(r.value.bits, |c.values|)[i] == answer
  {
    ghost var f;
    r, f := Ask(c, bits, lo, lows, op, literal, avx2);
    forall i | 0 <= i < |c.values| && c.IsValid(i) ensures !f.p.IsNull(i) && f.Answer(op, literal, i) == Some(answer) {
    }
  }

  // ---------------------------------------------------------------- the three columns

  /** 1.6 and 27.1: reference 16 is not within the remainder 0 of the first row. */
  const ABOVE: Column<Double> := Column([Finite(1.6), Finite(27.1)], None)

  /** -0.1 and 25.4: the quantum 16 of the second row is cut to 0. */
  const BELOW: Column<Double> := Column([Finite(-0.1), Finite(25.4)], None)

  lemma {:induction false} NoPatches(c: Column<Double>, codec: Codec, n: nat)
    requires n <= |c.values| && forall i :: 0 <= i < n ==> !codec.NeedsPatch(c.values[i])
    ensures PatchRows(c.values, codec, n) == []
  {
    if n > 0 {
      NoPatches(c, codec, n - 1);
    }
  }

  lemma TwoTenths(c: Column<Double>, bits: nat, x: int, y: int)
    requires (bits == 32 || bits == 64) && -500 <= x <= 500 && -500 <= y <= 500
    requires c.values == [Tenth(x), Tenth(y)]
    ensures Filled(c.values, Tenths(bits)) == [x, y] && PatchRows(c.values, Tenths(bits), 2) == []
  {
    TenthsExact(bits, c.values[0], x);
    TenthsExact(bits, c.values[1], y);
    NoPatches(c, Tenths(bits), 2);
  }

  lemma TwoRows(c: Column<Double>, bits: nat, x: int, y: int, lows: seq<int>)
    requires (bits == 32 || bits == 64) && c.validity.None? && c.values == [Tenth(x), Tenth(y)] && y == x + 255
    requires -200 <= x <= 200 && lows == [BucketOf(x, x), BucketOf(y, x)]
    ensures Askable(c, bits, x, lows) && c.IsValid(0) && c.IsValid(1) && PatchRows(c.values, Tenths(bits), 2) == []
  {
    TwoTenths(c, bits, x, y);
    TwoBuckets([x, y], x, y, lows);
  }

  lemma TwoBuckets(ints: seq<int>, x: int, y: int, lows: seq<int>)
    requires ints == [x, y] && y == x + 255 && lows == [BucketOf(x, x), BucketOf(y, x)]
    ensures BucketsAre(ints, x, lows) && Spans(ints, x)
  {
    assert ints[0] == x && ints[1] == y;
    assert lows == BucketsOf(ints, x);
  }

  lemma SaysUnequal(lo: int, hi: int, k: int)
    requires k < lo || hi < k
    ensures Handle(OpEq, Tenth(lo), Tenth(hi), Tenth(k)) == Some(false)
  {
  }

  /** Without patches, every row is answered with no when the literal lies outside its bucket. */
  lemma AllOutside(c: Column<Double>, bits: nat, lows: seq<int>, k: int)
    requires (bits == 32 || bits == 64) && c.WellFormed() && PatchRows(c.values, Tenths(bits), |c.values|) == []
    requires forall i :: 0 <= i < |lows| ==> k < lows[i] || lows[i] + 16 < k
    ensures Unanimous(c, bits, lows, OpEq, Tenth(k), false)
  {
    forall f: Floats, i | Encoded(f, c, bits, lows) && 0 <= i < |c.values| && c.IsValid(i)
      ensures f.Answer(OpEq, Tenth(k), i) == Some(false)
    {
      SaysUnequal(lows[i], lows[i] + 16, k);
      assert f.Low(i) == Tenth(lows[i]);
    }
  }

  /** A row is said not to equal its own value: the reference is added to an index that contains it already. */
  method ReferenceMisleads(bits: nat, avx2: bool) returns (r: Option<BooleanArray>)
    requires bits == 32 || bits == 64
    ensures r.Some? && r.value.length == 2 && |r.value.bits| == 1
    ensures !BitRows(r.value.bits, 2)[0] && Compare(OpEq, ABOVE.values[0], Finite(1.6))
  {
    assert ABOVE.values == [Tenth(16), Tenth(271)];
    TwoRows(ABOVE, bits, 16, 271, [32, 272]);
    AllOutside(ABOVE, bits, [32, 272], 16);
    r := AskAll(ABOVE, bits, 16, [32, 272], OpEq, Finite(1.6), avx2, false);
  }

  /** A row is said not to equal its own value: half the width does not hold its quantum. */
  method CutMisleads(bits: nat, avx2: bool) returns (r: Option<BooleanArray>)
    requires bits == 32 || bits == 64
    ensures r.Some? && r.value.length == 2 && |r.value.bits| == 1
    ensures !BitRows(r.value.bits, 2)[1] && Compare(OpEq, BELOW.values[1], Finite(25.4))
  {
    assert BELOW.values == [Tenth(-1), Tenth(254)];
    TwoRows(BELOW, bits, -1, 254, [-17, -17]);
    AllOutside(BELOW, bits, [-17, -17], 254);
    r := AskAll(BELOW, bits, -1, [-17, -17], OpEq, Finite(25.4), avx2, false);
  }

  /** A null row of any content that needs a patch, NaN, 0 and 25.5. */
  const PATCHED: Column<Double> := Column([NaN(0), NaN(0), Finite(0.0), Finite(25.5)], Some([14]))

  lemma PatchedNulls()
    ensures PATCHED.WellFormed() && PATCHED.NullCount() < 4
    ensures !PATCHED.IsValid(0) && PATCHED.IsValid(1) && PATCHED.IsValid(2) && PATCHED.IsValid(3)
  {
    assert Bits(14, 0, 1) == 0 && Bits(14, 1, 1) == 1 && Bits(14, 2, 1) == 1 && Bits(14, 3, 1) == 1;
    AllNull(PATCHED);
    assert PATCHED.IsValid(1);
  }

  lemma PatchedRows(bits: nat)
    requires bits == 32 || bits == 64
    ensures Filled(PATCHED.values, Tenths(bits)) == [0, 0, 0, 255]
    ensures PatchRows(PATCHED.values, Tenths(bits), 4) == [0, 1]
    ensures Spans(Filled(PATCHED.values, Tenths(bits)), 0)
  {
    var v, codec := PATCHED.values, Tenths(bits);
    TenthsExact(bits, v[2], 0);
    TenthsExact(bits, v[3], 255);
    assert codec.NeedsPatch(v[0]) && codec.NeedsPatch(v[1]);
    assert PatchRows(v, codec, 1) == [0];
    assert PatchRows(v, codec, 2) == [0, 1];
    assert PatchRows(v, codec, 3) == [0, 1];
    assert FirstUnpatched(v, codec, 0) == 2;
  }

  /** The patch of a null row stops the cursor. */
  lemma CursorStops(f: Floats, i: nat)
    requires f.Valid() && f.rows == [0, 1] && i < f.p.length && f.p.IsNull(0)
    ensures !f.Left(i)
  {
    assert PassablePatches([0, 1], NonNull(f.p)) == 0;
  }

  lemma SaysLess(lo: int, hi: int, k: int)
    requires lo <= hi < k
    ensures Handle(OpLt, Tenth(lo), Tenth(hi), Tenth(k)) == Some(true)
  {
  }

  /** Every other row is answered with yes when its bucket lies below the literal. */
  lemma AllBelow(c: Column<Double>, bits: nat, lows: seq<int>, k: int)
    requires (bits == 32 || bits == 64) && c.WellFormed() && |c.values| > 1 && !c.IsValid(0)
    requires PatchRows(c.values, Tenths(bits), |c.values|) == [0, 1]
    requires forall i :: 0 <= i < |lows| ==> lows[i] + 16 < k
    ensures Unanimous(c, bits, lows, OpLt, Tenth(k), true)
  {
    forall f: Floats, i | Encoded(f, c, bits, lows) && 0 <= i < |c.values| && c.IsValid(i)
      ensures f.Answer(OpLt, Tenth(k), i) == Some(true)
    {
      CursorStops(f, i);
      SaysLess(lows[i], lows[i] + 16, k);
      assert f.Low(i) == Tenth(lows[i]);
    }
  }

  lemma BucketIs(x: int, lo: int, q: int, r: int)
    requires 16 * q <= x < 16 * q + 16 && lo == 16 * r && 0 <= q - r < 16
    ensures BucketOf(x, lo) == 16 * q + lo
  {
    DivModUnique(x, 16, q, x - 16 * q);
    DivModUnique(lo, 16, r, 0);
    ModSmall(q - r, 16);
  }

  lemma FourBuckets(ints: seq<int>, lo: int, r: int, lows: seq<int>)
    requires lo == 16 * r && ints == [lo, lo, lo, lo + 255] && lows == [2 * lo, 2 * lo, 2 * lo, 2 * lo + 240]
    ensures BucketsAre(ints, lo, lows) && Spans(ints, lo)
  {
    BucketIs(lo, lo, r, r);
    BucketIs(lo + 255, lo, r + 15, r);
    assert ints[0] == lo && ints[3] == lo + 255;
    forall i | 0 <= i < 4 ensures lows[i] == BucketOf(ints[i], lo) {
      if i < 3 {
        assert ints[i] == lo && lows[i] == 2 * lo;
      }
    }
    assert lows == BucketsOf(ints, lo);
  }

  lemma FourBelow(lows: seq<int>, lo: int, k: int)
    requires lows == [2 * lo, 2 * lo, 2 * lo, 2 * lo + 240] && 2 * lo + 256 < k
    ensures forall i :: 0 <= i < |lows| ==> lows[i] + 16 < k
  {
  }

  /** A column whose first row is null and patched, and whose second is patched: every other row is said to be less. */
  method AskPatched(c: Column<Double>, bits: nat, ghost lo: int, ghost r: int, k: int, avx2: bool)
    returns (m: Option<BooleanArray>)
    requires (bits == 32 || bits == 64) && c.WellFormed() && c.NullCount() < |c.values| == 4 && !c.IsValid(0)
    requires PatchRows(c.values, Tenths(bits), 4) == [0, 1] && Filled(c.values, Tenths(bits)) == [lo, lo, lo, lo + 255]
    requires lo == 16 * r && -200 <= lo <= 200 && 2 * lo + 256 < k
    ensures m.Some? && m.value.length == 4 && |m.value.bits| == 1
    ensures forall i :: 0 <= i < 4 && c.IsValid(i) ==> BitRows(m.value.bits, 4)[i]
  {
    ghost var lows := [2 * lo, 2 * lo, 2 * lo, 2 * lo + 240];
    FourBuckets(Filled(c.values, Tenths(bits)), lo, r, lows);
    FourBelow(lows, lo, k);
    AllBelow(c, bits, lows, k);
    m := AskAll(c, bits, lo, lows, OpLt, Tenth(k), avx2, true);
  }

  lemma PatchedReady(bits: nat)
    requires bits == 32 || bits == 64
    ensures PATCHED.WellFormed() && PATCHED.NullCount() < |PATCHED.values| == 4
    ensures !PATCHED.IsValid(0) && PATCHED.IsValid(1)
    ensures PatchRows(PATCHED.values, Tenths(bits), 4) == [0, 1]
    ensures Filled(PATCHED.values, Tenths(bits)) == [0, 0, 0, 0 + 255]
  {
    PatchedNulls();
    PatchedRows(bits);
  }

  /** NaN is said to be less than 30: the cursor does not get past the patch of the null row, so the second row is
      answered from the bucket of its filler, and its patch can no longer take the answer back. */
  method NullPatchMisleads(bits: nat, avx2: bool) returns (r: Option<BooleanArray>)
    requires bits == 32 || bits == 64
    ensures PATCHED.WellFormed() && PATCHED.IsValid(1)
    ensures r.Some? && r.value.length == 4 && |r.value.bits| == 1
    ensures BitRows(r.value.bits, 4)[1] && !Compare(OpLt, PATCHED.values[1], Finite(30.0))
  {
    PatchedReady(bits);
    r := AskPatched(PATCHED, bits, 0, 0, 300, avx2);
  }
}
