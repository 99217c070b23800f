/**
  Columns as the Apache Arrow Columnar Format lays them out: one value slot per row, and an
  optional validity bitmap in which a set bit means that the row is not null
  (section "Validity bitmaps"). A null row still has a value slot, of any content.
 */
module Arrow {
  import opened Arith
  import opened Bytes
  import opened Wrappers

  datatype Column<+T> = Column(values: seq<T>, validity: Option<seq<byte>>) {
    predicate WellFormed() {
      validity.Some? ==> CeilDiv8(|values|) <= |validity.value|
    }

    predicate IsValid(i: nat)
      requires WellFormed() && i < |values|
    {
      validity.None? || BitSet(validity.value, i)
    }

    function NullCount(): (n: nat)
      requires WellFormed()
      ensures n <= |values|
    {
      if validity.None? then 0 else CountUnset(validity.value, |values|)
    }

    /** The validity of every row, read bit by bit. */
    function ValidRows(): (s: seq<bool>)
      requires WellFormed()
      ensures |s| == |values|
      ensures forall i :: 0 <= i < |values| ==> s[i] == IsValid(i)
    {
      seq(|values|, i requires 0 <= i < |values| => IsValid(i))
    }

    /** The bitmap an encoder keeps: none when no row is null. */
    function KeptBitmap(): Option<seq<byte>>
      requires WellFormed()
    {
      if NullCount() > 0 then Some(validity.value[..CeilDiv8(|values|)]) else None
    }
  }

  predicate BitSet(bm: seq<byte>, i: nat)
    requires i / 8 < |bm|
  {
    Bits(bm[i / 8], i % 8, 1) == 1
  }

  /** The number of unset bits among the first `n`. */
  function CountUnset(bm: seq<byte>, n: nat): (c: nat)
    requires CeilDiv8(n) <= |bm|
    ensures c <= n
  {
    if n == 0 then 0 else CountUnset(bm, n - 1) + (if BitSet(bm, n - 1) then 0 else 1)
  }

  /** Bit `i` is the one of weight `2^(i % 8)` in byte `i / 8`. */
  lemma BitSetMeans(bm: seq<byte>, i: nat)
    requires i / 8 < |bm|
    ensures BitSet(bm, i) <==> bm[i / 8] / Pow2(i % 8) % 2 == 1
  {
    ShrIsQuotient(bm[i / 8], i % 8);
    assert Mask(Shr(bm[i / 8], i % 8), 1) == Shr(bm[i / 8], i % 8) % 2;
  }

  /** The rows among the first `n` whose bit is unset, as a set. */
  function UnsetRows(bm: seq<byte>, n: nat): set<nat>
    requires CeilDiv8(n) <= |bm|
  {
    set i: nat | i < n && !BitSet(bm, i)
  }

  lemma NextUnset(bm: seq<byte>, k: nat)
    requires CeilDiv8(k + 1) <= |bm|
    ensures BitSet(bm, k) ==> UnsetRows(bm, k + 1) == UnsetRows(bm, k)
    ensures !BitSet(bm, k) ==> UnsetRows(bm, k + 1) == UnsetRows(bm, k) + {k} && k !in UnsetRows(bm, k)
  {
  }

  /** The count is the number of these rows. */
  lemma {:induction false} CountUnsetExact(bm: seq<byte>, n: nat)
    requires CeilDiv8(n) <= |bm|
    ensures CountUnset(bm, n) == |UnsetRows(bm, n)|
  {
    if n > 0 {
      var k: nat := n - 1;
      CountUnsetExact(bm, k);
      NextUnset(bm, k);
    }
  }

  /** Two columns agree: same length, same null rows, same value at every row that is not null. */
  ghost predicate SameColumn<T>(a: Column<T>, b: Column<T>)
    requires a.WellFormed() && b.WellFormed()
  {
    && |a.values| == |b.values|
    && forall i :: 0 <= i < |a.values| ==>
         && a.IsValid(i) == b.IsValid(i)
         && (a.IsValid(i) ==> a.values[i] == b.values[i])
  }

  lemma {:induction false} CountExtremes(bm: seq<byte>, n: nat)
    requires CeilDiv8(n) <= |bm|
    ensures CountUnset(bm, n) == 0 <==> forall i :: 0 <= i < n ==> BitSet(bm, i)
    ensures CountUnset(bm, n) == n <==> forall i :: 0 <= i < n ==> !BitSet(bm, i)
  {
    if n > 0 {
      CountExtremes(bm, n - 1);
    }
  }

  lemma {:induction false} CountPrefix(bm: seq<byte>, m: nat, n: nat)
    requires CeilDiv8(n) <= m <= |bm|
    ensures CountUnset(bm[..m], n) == CountUnset(bm, n)
  {
    if n > 0 {
      CountPrefix(bm, m, n - 1);
    }
  }

  /** Dropping the bitmap of a column without nulls, or cutting it to length, changes no row. */
  lemma KeptBitmapSameNulls<T>(c: Column<T>, i: nat)
    requires c.WellFormed() && i < |c.values|
    ensures c.KeptBitmap().Some? <==> c.NullCount() > 0
    ensures c.KeptBitmap().Some? ==> |c.KeptBitmap().value| == CeilDiv8(|c.values|)
    ensures c.IsValid(i) == (c.KeptBitmap().None? || BitSet(c.KeptBitmap().value, i))
  {
    if c.validity.Some? {
      CountExtremes(c.validity.value, |c.values|);
    }
  }

  lemma KeptBitmapSize<T>(c: Column<T>)
    requires c.WellFormed()
    ensures c.KeptBitmap().Some? ==> |c.KeptBitmap().value| == CeilDiv8(|c.values|)
  {
  }

  // ---------------------------------------------------------------- setting bits

  /** `bm[i / 8] |= 1 << (i % 8)`. */
  function SetBit(bm: seq<byte>, i: nat): (r: seq<byte>)
    requires i / 8 < |bm|
    ensures |r| == |bm|
  {
    var x := Or(bm[i / 8], Shl(1, i % 8));
    BitInByte(bm[i / 8], i % 8);
    bm[i / 8 := x]
  }

  lemma BitInByte(b: byte, k: nat)
    requires k < 8
    ensures Or(b, Shl(1, k)) < 256
  {
    assert Pow2(8) == 256;
    ByteRoom(k + 1);
    OrBound(b, Shl(1, k), 8);
  }

  lemma SetBitSets(bm: seq<byte>, i: nat, j: nat)
    requires i / 8 < |bm| && j / 8 < |bm|
    ensures BitSet(SetBit(bm, i), j) <==> j == i || BitSet(bm, j)
  {
    OrBit(bm[i / 8], i % 8, j % 8);
  }

  /** The first `n` bits. */
  function BitRows(bm: seq<byte>, n: nat): (s: seq<bool>)
    requires CeilDiv8(n) <= |bm|
    ensures |s| == n
    ensures forall i {:trigger BitSet(bm, i)} :: 0 <= i < n ==> s[i] == BitSet(bm, i)
  {
    seq(n, i requires 0 <= i < n => BitSet(bm, i))
  }

  lemma BitRowsSet(bm: seq<byte>, n: nat, i: nat)
    requires CeilDiv8(n) <= |bm| && i < n
    ensures BitRows(SetBit(bm, i), n) == BitRows(bm, n)[i := true]
  {
    forall j | 0 <= j < n ensures BitRows(SetBit(bm, i), n)[j] == BitRows(bm, n)[i := true][j] {
      SetBitSets(bm, i, j);
    }
  }

  lemma BitRowsZeros(n: nat)
    ensures forall i :: 0 <= i < n ==> !BitRows(Zeros(CeilDiv8(n)), n)[i]
  {
    forall i | 0 <= i < n ensures !BitRows(Zeros(CeilDiv8(n)), n)[i] {
      BitsZero(0, i % 8, 1);
      assert !BitSet(Zeros(CeilDiv8(n)), i);
    }
  }

  // ---------------------------------------------------------------- building a bitmap

  /** The bitmap whose bit `i` is `bits[i]`, as an array builder makes it. */
  function PackBools(bits: seq<bool>): (bm: seq<byte>)
    ensures |bm| == CeilDiv8(|bits|)
  {
    if bits == [] then []
    else [ByteOf(bits, 8)] + PackBools(bits[Min(8, |bits|)..])
  }

  /** The byte that holds the first `n` of the bits, least significant first. */
  function ByteOf(bits: seq<bool>, n: nat): (b: byte)
    requires n <= 8
    ensures b < Pow2(n)
  {
    if n == 0 then 0
    else
      var rest := ByteOf(bits, n - 1);
      Pow2Mono(n, 8);
      ByteRoom(n);
      if n <= |bits| && bits[n - 1] then rest + Shl(1, n - 1) else rest
  }

  lemma ByteRoom(n: nat)
    requires 0 < n <= 8
    ensures Shl(1, n - 1) == Pow2(n - 1) < Pow2(n) <= 256
  {
    ShlMul(1, n - 1);
    Pow2Mono(n, 8);
    assert Pow2(8) == 256;
  }

  lemma {:induction false} ByteOfBit(bits: seq<bool>, n: nat, k: nat)
    requires k < n <= 8
    ensures Bits(ByteOf(bits, n), k, 1) == 1 <==> k < |bits| && bits[k]
  {
    var rest := ByteOf(bits, n - 1);
    if k < n - 1 {
      ByteOfBit(bits, n - 1, k);
      BitsBelow(rest, 1, n - 1, k, 1);
    } else {
      BitsTop(rest, 1, k, 1);
      BitsZero(rest, k, 1);
    }
  }

  lemma {:induction false} PackBoolsBit(bits: seq<bool>, i: nat)
    requires i < |bits|
    ensures BitSet(PackBools(bits), i) == bits[i]
  {
    if i < 8 {
      ByteOfBit(bits, 8, i);
    } else {
      PackBoolsBit(bits[8..], i - 8);
    }
  }
}
