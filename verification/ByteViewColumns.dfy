/** Whole byte-string columns: from flat arrays and from dictionary arrays, there and back. */
module ByteViewColumns {
  import opened Arith
  import opened Arrow
  import opened BitPacked
  import opened ByteView
  import opened ByteViewArrays
  import ByteViewBytes
  import Offsets
  import opened Bytes
  import opened Chunks
  import opened FrameOfReference
  import opened Fsst
  import opened Native
  import opened Unpacking
  import opened Wrappers

  /** The distinct values of the rows that are not null. */
  function Dictionary(c: Column<Text>): seq<Text>
    requires c.WellFormed()
  {
    Distinct(c.values, c.ValidRows(), |c.values|)
  }

  /** A view built from the column's dictionary, keys and bitmap. */
  ghost predicate Encodes(v: View, c: Column<Text>, keys: seq<nat>)
    requires c.WellFormed()
  {
    && v.Sound() && v.Entries() == Dictionary(c) && v.keys.length == |c.values| == |keys|
    && Stores(v.keys, keys, KeyWidth(|Dictionary(c)|, 16))
    && v.keys.nullBitmap == ArrayBitmap(c)
    && forall i :: 0 <= i < |keys| ==> keys[i] == KeyOf(c.values, c.ValidRows(), i)
  }

  /** An index that fits the packing width and 16 bits is unpacked whole. */
  lemma KeyUnpacked(element: nat, key: nat, bw: nat, last: nat)
    requires element == Mask(key, bw) && key <= last < KEYS && bw == GetBitWidth(last)
    ensures Mask(element, 16) == key
  {
    MaskSmall(key, bw);
    Pow2Values();
    MaskSmall(key, 16);
  }

  lemma SmallKeyWidth(n: nat)
    requires 0 < n <= KEYS
    ensures KeyWidth(n, 16) == GetBitWidth(n - 1)
  {
    Pow2Values();
    MaskSmall(n - 1, 16);
  }

  lemma KeyRestored(element: nat, key: nat, n: nat)
    requires key < n <= KEYS && element == Mask(key, KeyWidth(n, 16))
    ensures Mask(element, 16) == key
  {
    SmallKeyWidth(n);
    KeyUnpacked(element, key, KeyWidth(n, 16), n - 1);
  }

  /** A row decodes to the entry of its key. */
  lemma RowIs(v: View, i: nat, d: nat, dict: seq<Text>)
    requires v.Sound() && v.Entries() == dict && i < v.keys.length && !v.keys.IsNull(i) && d < |dict|
    requires Mask(v.keys.Element(i), 16) == d
    ensures v.RowValue(i) == dict[d]
  {
    assert v.Entries()[d] == v.Entry(d);
  }

  /** The key unpacked at a row that is not null. */
  lemma StoredKey(v: View, c: Column<Text>, keys: seq<nat>, i: nat)
    requires c.WellFormed() && Encodes(v, c, keys) && KeepsNulls(c) && i < |c.values| && c.IsValid(i)
    ensures v.Sound() && v.Entries() == Dictionary(c) && i < v.keys.length
    ensures !v.keys.IsNull(i) && c.values[i] in Dictionary(c)
    ensures v.keys.Element(i) == Mask(IndexOf(Dictionary(c), c.values[i]) % KEYS, KeyWidth(|Dictionary(c)|, 16))
  {
    assert c.ValidRows()[i];
    DistinctExact(c.values, c.ValidRows(), |c.values|);
    SameNulls(v.keys, c, i);
    assert keys[i] == KeyOf(c.values, c.ValidRows(), i);
  }

  /** With at most 65536 distinct values, every row that is not null decodes to its value. */
  lemma RowRestored(v: View, c: Column<Text>, keys: seq<nat>, i: nat)
    requires c.WellFormed() && Encodes(v, c, keys) && KeepsNulls(c) && i < |c.values| && c.IsValid(i)
             && |Dictionary(c)| <= KEYS
    ensures v.RowValue(i) == c.values[i]
  {
    var dict := Dictionary(c);
    StoredKey(v, c, keys, i);
    var d := IndexOf(dict, c.values[i]);
    ModSmall(d, KEYS);
    KeyRestored(v.keys.Element(i), d, |dict|);
    RowIs(v, i, d, dict);
  }

  lemma LateValue(c: Column<Text>) returns (i: nat)
    requires c.WellFormed() && |Dictionary(c)| > KEYS
    ensures i < |c.values| && c.IsValid(i) && c.values[i] in Dictionary(c)
    ensures IndexOf(Dictionary(c), c.values[i]) == KEYS && Dictionary(c)[0] != c.values[i]
  {
    var dict, valid := Dictionary(c), c.ValidRows();
    DistinctExact(c.values, valid, |c.values|);
    assert dict[KEYS] in dict;
    i :| 0 <= i < |c.values| && valid[i] && c.values[i] == dict[KEYS];
    IndexUnique(dict, KEYS);
    assert dict[0] != dict[KEYS];
  }

  /** With more, the row that brings in the 65537th distinct value decodes to the first one instead. */
  lemma RowLost(v: View, c: Column<Text>, keys: seq<nat>) returns (i: nat)
    requires c.WellFormed() && Encodes(v, c, keys) && KeepsNulls(c) && |Dictionary(c)| > 0x1_0000
    ensures i < |c.values| && c.IsValid(i) && v.RowValue(i) != c.values[i]
  {
    i := LateValue(c);
    StoredKey(v, c, keys, i);
    ZeroKey(KeyWidth(|Dictionary(c)|, 16));
    RowIs(v, i, 0, Dictionary(c));
  }

  lemma ZeroKey(bw: nat)
    ensures Mask(Mask(0, bw), 16) == 0
  {
    MaskSmall(0, bw);
    MaskSmall(0, 16);
  }

  /** The encoding restores a column precisely when it has at most 65536 distinct values and its bitmap is kept; then
      the null rows always agree. */
  lemma RestoredExactly(v: View, c: Column<Text>, keys: seq<nat>)
    requires c.WellFormed() && Encodes(v, c, keys)
    ensures |v.Decoded().values| == |c.values|
    ensures KeepsNulls(c) ==> forall i :: 0 <= i < |c.values| ==> v.Decoded().IsValid(i) == c.IsValid(i)
    ensures SameColumn(v.Decoded(), c) <==> |Dictionary(c)| <= 0x1_0000 && KeepsNulls(c)
  {
    if KeepsNulls(c) {
      RestoredIff(v, c, keys);
    } else {
      NullsLost(v.keys, c, v.Decoded());
    }
  }

  lemma RestoredIff(v: View, c: Column<Text>, keys: seq<nat>)
    requires c.WellFormed() && Encodes(v, c, keys) && KeepsNulls(c)
    ensures |v.Decoded().values| == |c.values|
    ensures forall i :: 0 <= i < |c.values| ==> v.Decoded().IsValid(i) == c.IsValid(i)
    ensures SameColumn(v.Decoded(), c) <==> |Dictionary(c)| <= 0x1_0000
  {
    var d := v.Decoded();
    forall i | 0 <= i < |c.values| ensures d.IsValid(i) == c.IsValid(i) {
      SameNulls(v.keys, c, i);
    }
    if |Dictionary(c)| <= KEYS {
      forall i | 0 <= i < |c.values| && c.IsValid(i) ensures d.values[i] == c.values[i] {
        RowRestored(v, c, keys, i);
      }
    } else {
      var i := RowLost(v, c, keys);
      assert d.values[i] != c.values[i];
    }
  }

  // ---------------------------------------------------------------- what the bulk path restores

  /** The rows as the bulk path sees their keys: the entry of the key of the seen row. */
  function SeenValues(c: Column<Text>, avx2: bool): (s: seq<Text>)
    requires c.WellFormed()
    ensures |s| == |c.values|
  {
    var bw := KeyWidth(|Dictionary(c)|, 16);
    seq(|c.values|, i requires 0 <= i < |c.values| => SeenText(c, SeenRow(|c.values|, bw, 16, avx2, i)))
  }

  /** The entry of the key stored at a row; a null row stores key 0. */
  function SeenText(c: Column<Text>, r: nat): Text
    requires c.WellFormed()
  {
    if r < |c.values| && KeyOf(c.values, c.ValidRows(), r) < |Dictionary(c)|
        then Dictionary(c)[KeyOf(c.values, c.ValidRows(), r)]
    else []
  }

  /** The key of every row, null or not, is unpacked whole. */
  lemma RowKey(v: View, c: Column<Text>, keys: seq<nat>, r: nat)
    requires c.WellFormed() && Encodes(v, c, keys) && r < |c.values| && 0 < |Dictionary(c)| <= KEYS
    ensures keys[r] == KeyOf(c.values, c.ValidRows(), r) < |Dictionary(c)|
    ensures Mask(v.keys.Element(r), 16) == keys[r]
  {
    var dict := Dictionary(c);
    DistinctExact(c.values, c.ValidRows(), |c.values|);
    assert keys[r] == KeyOf(c.values, c.ValidRows(), r);
    if c.IsValid(r) {
      ModSmall(IndexOf(dict, c.values[r]), KEYS);
    }
    KeyRestored(v.keys.Element(r), keys[r], |dict|);
  }

  /** A valid row is given the entry of the key of its seen row. */
  lemma SeenRestored(v: View, c: Column<Text>, keys: seq<nat>, avx2: bool, i: nat)
    requires c.WellFormed() && Encodes(v, c, keys) && KeepsNulls(c) && v.keys.bitWidth == KeyWidth(|Dictionary(c)|, 16)
    requires |Dictionary(c)| <= KEYS && i < |c.values| && c.IsValid(i)
    ensures SeenView(v, avx2).Sound() && SeenView(v, avx2).RowValue(i) == SeenValues(c, avx2)[i]
  {
    var r := SeenRow(|c.values|, v.keys.bitWidth, 16, avx2, i);
    StoredKey(v, c, keys, i);
    SeenElement(v.keys, 16, avx2, i);
    RowKey(v, c, keys, r);
    SeenRowValue(v, avx2, i, keys[r]);
  }

  /** Every valid row is equal to the one the bulk path gives it. */
  predicate TextsAgree(c: Column<Text>, avx2: bool)
    requires c.WellFormed()
  {
    forall i :: 0 <= i < |c.values| && c.IsValid(i) ==> SeenValues(c, avx2)[i] == c.values[i]
  }

  /** What the bulk path decodes are the seen rows. */
  lemma SeenDecoded(v: View, c: Column<Text>, keys: seq<nat>, avx2: bool)
    requires c.WellFormed() && Encodes(v, c, keys) && KeepsNulls(c) && v.keys.bitWidth == KeyWidth(|Dictionary(c)|, 16)
    requires |Dictionary(c)| <= KEYS
    ensures SeenView(v, avx2).Sound()
    ensures SameColumn(SeenView(v, avx2).Decoded(), Column(SeenValues(c, avx2), c.validity))
    ensures SameColumn(SeenView(v, avx2).Decoded(), c) <==> TextsAgree(c, avx2)
  {
    SeenViewSound(v, avx2);
    var d, texts := SeenView(v, avx2).Decoded(), SeenValues(c, avx2);
    forall i | 0 <= i < |c.values| ensures d.IsValid(i) == c.IsValid(i) && (c.IsValid(i) ==> d.values[i] == texts[i]) {
      SameNulls(v.keys, c, i);
      if c.IsValid(i) {
        SeenRestored(v, c, keys, avx2, i);
      }
    }
    SameTexts(d, c, texts, avx2);
  }

  lemma SameTexts(d: Column<Text>, c: Column<Text>, texts: seq<Text>, avx2: bool)
    requires d.WellFormed() && c.WellFormed() && |d.values| == |c.values| && texts == SeenValues(c, avx2)
    requires forall i :: 0 <= i < |c.values| ==>
               d.IsValid(i) == c.IsValid(i) && (c.IsValid(i) ==> d.values[i] == texts[i])
    ensures SameColumn(d, Column(texts, c.validity))
    ensures SameColumn(d, c) <==> TextsAgree(c, avx2)
  {
    var e := Column(texts, c.validity);
    assert forall i :: 0 <= i < |c.values| ==> e.IsValid(i) == c.IsValid(i);
  }

  /** Within 2^32 bytes of keys every row is given its own. */
  lemma AgreeUnlessRewound(c: Column<Text>, avx2: bool)
    requires c.WellFormed() && |Dictionary(c)| <= KEYS && !Rewinds(|c.values|, KeyWidth(|Dictionary(c)|, 16), 16, avx2)
    ensures TextsAgree(c, avx2)
  {
    forall i | 0 <= i < |c.values| && c.IsValid(i) ensures SeenValues(c, avx2)[i] == c.values[i] {
      DistinctExact(c.values, c.ValidRows(), |c.values|);
      assert c.ValidRows()[i] && c.values[i] in Dictionary(c);
      ModSmall(IndexOf(Dictionary(c), c.values[i]), KEYS);
    }
  }

  ghost predicate EncodesColumn(v: View, c: Column<Text>)
    requires c.WellFormed()
  {
    v.keys.bitWidth == KeyWidth(|Dictionary(c)|, 16) && exists keys :: Encodes(v, c, keys)
  }

  /** Encodes a flat column, with a given compressor or a trained one. */
  method FromArrow(c: Column<Text>, isBinary: bool, isAscii: bool, compressor: FsstCompressor?,
                   train: seq<byte> -> seq<Symbol>, fit: seq<nat> -> (int, int))
    returns (a: LiquidByteViewArray)
    requires c.WellFormed() && |c.values| < TWO_32
    requires OutputBytes(c.values, c.ValidRows(), |c.values|) < TWO_31
    requires compressor != null ==> compressor.Usable() && Bounded(compressor.symbols)
    requires Trains(train)
    ensures fresh(a) && fresh(a.compressor) && fresh(a.dictionaryKeys)
    ensures a.Valid() && a.cachedDict == None && Printable(a.AsView()) && a.AsView().Entries() == Dictionary(c)
    ensures SameColumn(a.AsView().Decoded(), c) <==> |Dictionary(c)| <= 0x1_0000 && KeepsNulls(c)
    ensures EncodesColumn(a.AsView(), c)
    ensures Sized(a.AsView(), |Concat(Dictionary(c))|)
    ensures a.isBinary == isBinary && a.isAscii == isAscii && a.sharedPrefix == SharedPrefix(Dictionary(c))
    ensures compressor != null ==> a.AsView().symbols == compressor.symbols
  {
    var dict, keys := Deduplicate(c.values, c.ValidRows());
    DictionaryBytes(c.values, c.ValidRows(), |c.values|);
    KeysSmall(c, keys);
    KeptBitmapSize(c);
    a := LiquidByteViewArray.BuildEncodedDict(isBinary, isAscii, dict, keys, c.KeptBitmap(), 16, compressor, train,
                                              fit);
    BuiltFor(a.AsView(), c, keys);
  }

  lemma BuiltFor(v: View, c: Column<Text>, keys: seq<nat>)
    requires c.WellFormed() && Encodes(v, c, keys) && v.keys.bitWidth == KeyWidth(|Dictionary(c)|, 16)
    ensures EncodesColumn(v, c) && (SameColumn(v.Decoded(), c) <==> |Dictionary(c)| <= 0x1_0000 && KeepsNulls(c))
  {
    RestoredExactly(v, c, keys);
  }

  lemma KeysSmall(c: Column<Text>, keys: seq<nat>)
    requires c.WellFormed() && |keys| == |c.values|
    requires forall i :: 0 <= i < |keys| ==> keys[i] == KeyOf(c.values, c.ValidRows(), i)
    ensures forall i :: 0 <= i < |keys| ==> keys[i] < TWO_64
  {
    forall i | 0 <= i < |keys| ensures keys[i] < KEYS {
      DistinctExact(c.values, c.ValidRows(), |c.values|);
    }
  }

  /** Encoding and decoding a column of at most 65536 distinct values, under any symbol table (even one trained on
      other data) and any fitted line: the nulls come back, and each row as the bulk path sees its key, which is its
      own unless 16-bit keys fill more than 2^32 bytes. */
  method RoundTrip(c: Column<Text>, isBinary: bool, isAscii: bool, compressor: FsstCompressor?,
                   train: seq<byte> -> seq<Symbol>, fit: seq<nat> -> (int, int), avx2: bool)
    returns (s: StringColumn, nulls: nat)
    requires c.WellFormed() && AllEnd(|c.values|, avx2) && |Dictionary(c)| <= 0x1_0000
    requires OutputBytes(c.values, c.ValidRows(), |c.values|) < TWO_31
    requires OutputBytes(SeenValues(c, avx2), c.ValidRows(), |c.values|) < TWO_31
    requires compressor != null ==> compressor.Usable() && Bounded(compressor.symbols)
    requires Trains(train)
    ensures s.Sound() && nulls == s.AsColumn().NullCount()
    ensures SameColumn(s.AsColumn(), Column(SeenValues(c, avx2), c.validity))
    ensures SameColumn(s.AsColumn(), c) <==> TextsAgree(c, avx2)
    ensures !Rewinds(|c.values|, KeyWidth(|Dictionary(c)|, 16), 16, avx2) ==> SameColumn(s.AsColumn(), c)
  {
    var a := FromArrow(c, isBinary, isAscii, compressor, train, fit);
    DictionaryBytes(c.values, c.ValidRows(), |c.values|);
    Decodable(a.AsView(), c, avx2);
    s, nulls := a.ToArrow(avx2);
  }

  /** An encoded view is ready to be decoded, to the seen rows. */
  lemma Decodable(v: View, c: Column<Text>, avx2: bool)
    requires c.WellFormed() && EncodesColumn(v, c) && |Dictionary(c)| <= KEYS && AllEnd(|c.values|, avx2)
    requires OutputBytes(SeenValues(c, avx2), c.ValidRows(), |c.values|) < TWO_31
    ensures Ends(v.keys.length, v.keys.bitWidth, 16, avx2)
    ensures SeenView(v, avx2).Sound() && |Concat(SeenView(v, avx2).RowValues())| < TWO_31
    ensures SameColumn(SeenView(v, avx2).Decoded(), Column(SeenValues(c, avx2), c.validity))
    ensures SameColumn(SeenView(v, avx2).Decoded(), c) <==> TextsAgree(c, avx2)
    ensures !Rewinds(|c.values|, KeyWidth(|Dictionary(c)|, 16), 16, avx2) ==> TextsAgree(c, avx2)
  {
    var keys :| Encodes(v, c, keys);
    EndsAtAnyWidth(|c.values|, v.keys.bitWidth, 16, avx2);
    SeenDecoded(v, c, keys, avx2);
    SeenRowsBytes(SeenView(v, avx2), c, SeenValues(c, avx2));
    if !Rewinds(|c.values|, KeyWidth(|Dictionary(c)|, 16), 16, avx2) {
      AgreeUnlessRewound(c, avx2);
    }
  }

  lemma SeenRowsBytes(w: View, c: Column<Text>, texts: seq<Text>)
    requires c.WellFormed() && |texts| == |c.values| && w.Sound() && SameColumn(w.Decoded(), Column(texts, c.validity))
    ensures |Concat(w.RowValues())| == OutputBytes(texts, c.ValidRows(), |texts|)
  {
    DecodedBytes(w, Column(texts, c.validity));
    assert Column(texts, c.validity).ValidRows() == c.ValidRows();
  }

  /** A column none of whose keys is misread takes as many bytes as it seems to. */
  lemma SeenBytes(c: Column<Text>, avx2: bool)
    requires c.WellFormed() && TextsAgree(c, avx2)
    ensures OutputBytes(SeenValues(c, avx2), c.ValidRows(), |c.values|)
       == OutputBytes(c.values, c.ValidRows(), |c.values|)
  {
    SameBytes(SeenValues(c, avx2), c.values, c.ValidRows(), |c.values|);
  }

  lemma {:induction false} SameBytes(a: seq<Text>, b: seq<Text>, valid: seq<bool>, n: nat)
    requires n <= |a| == |b| == |valid| && forall i :: 0 <= i < n && valid[i] ==> a[i] == b[i]
    ensures OutputBytes(a, valid, n) == OutputBytes(b, valid, n)
  {
    if n > 0 {
      SameBytes(a, b, valid, n - 1);
    }
  }

  /** The decoded rows take as many bytes as the column. */
  lemma DecodedBytes(v: View, c: Column<Text>)
    requires c.WellFormed() && v.Sound() && SameColumn(v.Decoded(), c)
    ensures |Concat(v.RowValues())| == OutputBytes(c.values, c.ValidRows(), |c.values|)
  {
    var rows, valid := v.RowValues(), c.ValidRows();
    forall i | 0 <= i < |rows| ensures rows[i] == if valid[i] then c.values[i] else [] {
      NullRow(v, i);
      assert valid[i] == c.IsValid(i) == v.Decoded().IsValid(i);
    }
    RowsBytes(c.values, valid, rows, |rows|);
    ConcatAll(rows);
  }

  // ---------------------------------------------------------------- stored and reread

  /** An encoded column is a live array. */
  lemma EncodedLive(v: View, c: Column<Text>)
    requires c.WellFormed() && |c.values| < TWO_32 && v.Sound() && v.keys.length == |c.values| && Printable(v)
    requires Sized(v, |Concat(Dictionary(c))|) && |Concat(Dictionary(c))| < TWO_31
    ensures ByteViewBytes.Live(v)
  {
  }

  /** The sizes of its sections fit for 2^30 rows, 2^30 bytes and 65536 distinct values. */
  lemma SizesFit(v: View, c: Column<Text>)
    requires c.WellFormed() && v.Sound() && EncodesColumn(v, c) && Sized(v, |Concat(Dictionary(c))|) && Printable(v)
    requires |c.values| <= 0x4000_0000 && |Dictionary(c)| <= KEYS && |Concat(Dictionary(c))| <= 0x4000_0000
    ensures ByteViewBytes.Small(ByteViewBytes.HeaderOf(v))
  {
    var keys :| Encodes(v, c, keys);
    KeyPart(v, |c.values|, |Dictionary(c)|);
    OffsetsFit(v);
    SectionFits(v);
    HeaderSmall(v);
  }

  lemma HeaderSmall(v: View)
    requires v.Sound() && |BitPacked.Print(v.keys)| < TWO_32 && |Offsets.Print(v.offsets)| < TWO_32
    requires |v.sharedPrefix| < TWO_32 && |ByteViewBytes.FsstSection(v)| < TWO_32
    ensures ByteViewBytes.Small(ByteViewBytes.HeaderOf(v))
  {
  }

  lemma KeyPart(v: View, n: nat, entries: nat)
    requires v.Sound() && n <= 0x4000_0000 && entries <= KEYS
    requires |v.keys.packedData| == PackedBytes(n, KeyWidth(entries, 16)) && |v.keys.nullBitmap| <= CeilDiv8(n)
    ensures |BitPacked.Print(v.keys)| < TWO_32
  {
    KeyWidthSixteen(entries);
    PackedBytesBound(n, KeyWidth(entries, 16));
    PrintSize(v.keys);
  }

  lemma PackedBytesBound(n: nat, bw: nat)
    requires bw <= 16 && n <= 0x4000_0000
    ensures PackedBytes(n, bw) <= 0x8000_0000 && CeilDiv8(n) <= 0x1000_0000
  {
    MulMono(bw, 16, n);
    var bits := n * bw;
    assert bits <= n * 16;
  }

  lemma KeyWidthSixteen(entries: nat)
    requires entries <= KEYS
    ensures KeyWidth(entries, 16) <= 16
  {
    Pow2Values();
    if entries > 0 {
      SmallKeyWidth(entries);
      GetBitWidthLeast(entries - 1, 16);
    } else {
      GetBitWidthLeast(0, 16);
    }
  }

  lemma OffsetsFit(v: View)
    requires v.Sound() && v.DictSize() <= KEYS
    ensures |Offsets.Print(v.offsets)| < TWO_32
  {
    MulMono(Offsets.ResidualBytes(v.offsets.offsetBytes), 4, |v.offsets.residuals|);
  }

  lemma SectionFits(v: View)
    requires v.Sound() && |v.compressedData| <= 0x8000_0000
    ensures |ByteViewBytes.FsstSection(v)| < TWO_32
  {
  }

  /** Does a printed array come back from its bytes, whatever follows them? */
  ghost predicate ComesBack(v: View)
    requires ByteViewBytes.HasFields(v)
  {
    forall trailing {:trigger ByteViewBytes.Print(v) + trailing} ::
      ByteViewBytes.Parse(ByteViewBytes.Print(v) + trailing) == Success(v)
  }

  /** Encodes a column and serializes it. The bytes parse back to the array if and only if the sizes of the sections
      fit. */
  method Store(c: Column<Text>, isBinary: bool, isAscii: bool, compressor: FsstCompressor?,
               train: seq<byte> -> seq<Symbol>, fit: seq<nat> -> (int, int))
    returns (bytes: seq<byte>, ghost v: View)
    requires c.WellFormed() && |c.values| < TWO_32
    requires OutputBytes(c.values, c.ValidRows(), |c.values|) < TWO_31
    requires compressor != null ==> compressor.Usable() && Bounded(compressor.symbols)
    requires Trains(train)
    ensures v.Sound() && EncodesColumn(v, c) && v.Entries() == Dictionary(c) && ByteViewBytes.Live(v)
    ensures ByteViewBytes.HasFields(v) && bytes == ByteViewBytes.Print(v)
    ensures ComesBack(v) <==> ByteViewBytes.Small(ByteViewBytes.HeaderOf(v))
    ensures (|c.values| <= 0x4000_0000 && |Dictionary(c)| <= 0x1_0000
             && OutputBytes(c.values, c.ValidRows(), |c.values|) <= 0x4000_0000) ==> ComesBack(v)
  {
    var a := FromArrow(c, isBinary, isAscii, compressor, train, fit);
    v := a.AsView();
    DictionaryBytes(c.values, c.ValidRows(), |c.values|);
    bytes := ByteViewBytes.ToBytes(a);
    StoredSizes(v, c);
  }

  /** An encoded column comes back from its bytes if and only if the sizes of its sections fit their 32-bit fields, as
      they do for 2^30 rows, 2^30 bytes and 65536 distinct values. */
  lemma StoredSizes(v: View, c: Column<Text>)
    requires c.WellFormed() && |c.values| < TWO_32 && v.Sound() && EncodesColumn(v, c) && Printable(v)
    requires Sized(v, |Concat(Dictionary(c))|) && |Concat(Dictionary(c))| < TWO_31
    ensures ByteViewBytes.Live(v) && ByteViewBytes.HasFields(v)
    ensures ComesBack(v) <==> ByteViewBytes.Small(ByteViewBytes.HeaderOf(v))
    ensures |c.values| <= 0x4000_0000 && |Dictionary(c)| <= 0x1_0000 && |Concat(Dictionary(c))| <= 0x4000_0000 ==>
              ComesBack(v)
  {
    EncodedLive(v, c);
    ComesBackIff(v);
    if |c.values| <= 0x4000_0000 && |Dictionary(c)| <= KEYS && |Concat(Dictionary(c))| <= 0x4000_0000 {
      SizesFit(v, c);
    }
  }

  lemma ComesBackIff(v: View)
    requires ByteViewBytes.Live(v)
    ensures ByteViewBytes.HasFields(v) && (ComesBack(v) <==> ByteViewBytes.Small(ByteViewBytes.HeaderOf(v)))
  {
    forall trailing {:trigger ByteViewBytes.Print(v) + trailing}
      ensures ByteViewBytes.Parse(ByteViewBytes.Print(v) + trailing) == Success(v)
         <==> ByteViewBytes.Small(ByteViewBytes.HeaderOf(v))
    {
      ByteViewBytes.ParsesBackIff(v, trailing);
    }
    var none := ByteViewBytes.Print(v) + [];
  }

  /** Rereads a stored column from its bytes, with whatever follows them, and decodes it as the bulk path sees it. */
  method Reread(bytes: seq<byte>, trailing: seq<byte>, avx2: bool, ghost v: View, ghost c: Column<Text>)
    returns (s: StringColumn)
    requires c.WellFormed() && v.Sound() && EncodesColumn(v, c) && v.Entries() == Dictionary(c)
    requires ByteViewBytes.HasFields(v) && ComesBack(v) && bytes == ByteViewBytes.Print(v) + trailing
    requires AllEnd(|c.values|, avx2) && |Dictionary(c)| <= 0x1_0000 && |Concat(Dictionary(c))| < TWO_31
    requires OutputBytes(SeenValues(c, avx2), c.ValidRows(), |c.values|) < TWO_31
    ensures s.Sound() && (SameColumn(s.AsColumn(), c) <==> TextsAgree(c, avx2))
    ensures !Rewinds(|c.values|, KeyWidth(|Dictionary(c)|, 16), 16, avx2) ==> SameColumn(s.AsColumn(), c)
  {
    var a := ByteViewBytes.FromBytes(bytes);
    Decodable(v, c, avx2);
    var nulls;
    s, nulls := a.value.ToArrow(avx2);
  }

  /** End to end: encoded, serialized, reread with whatever follows, decoded. Up to 2^30 rows no copy rewinds, so every
      row and every null comes back. */
  method StoreAndReread(c: Column<Text>, isBinary: bool, isAscii: bool, compressor: FsstCompressor?,
                        train: seq<byte> -> seq<Symbol>, fit: seq<nat> -> (int, int), trailing: seq<byte>, avx2: bool)
    returns (s: StringColumn)
    requires c.WellFormed() && |c.values| <= 0x4000_0000 && |Dictionary(c)| <= 0x1_0000
    requires OutputBytes(c.values, c.ValidRows(), |c.values|) <= 0x4000_0000
    requires compressor != null ==> compressor.Usable() && Bounded(compressor.symbols)
    requires Trains(train)
    ensures s.Sound() && SameColumn(s.AsColumn(), c)
  {
    ghost var v;
    var bytes;
    bytes, v := Store(c, isBinary, isAscii, compressor, train, fit);
    DictionaryBytes(c.values, c.ValidRows(), |c.values|);
    AgreeUnlessRewound(c, avx2);
    SeenBytes(c, avx2);
    s := Reread(bytes + trailing, trailing, avx2, v, c);
  }

  lemma NullRow(v: View, i: nat)
    requires v.Sound() && i < v.keys.length
    ensures v.Decoded().IsValid(i) == !v.keys.IsNull(i)
    ensures v.keys.IsNull(i) ==> v.RowValue(i) == []
  {
  }

  // ---------------------------------------------------------------- dictionary arrays

  /** An array that already is a dictionary: values, one index a row, and an optional bitmap. */
  datatype DictionaryArray = DictionaryArray(dictionary: Column<Text>, indices: seq<nat>, validity: Option<seq<byte>>) {
    predicate WellFormed() {
      && dictionary.WellFormed() && |dictionary.values| < TWO_32 && |indices| < TWO_32
      && (validity.Some? ==> CeilDiv8(|indices|) <= |validity.value|)
      && forall i :: 0 <= i < |indices| && IsValid(i) ==> indices[i] < |dictionary.values|
    }

    predicate IsValid(i: nat)
      requires i < |indices| && (validity.Some? ==> CeilDiv8(|indices|) <= |validity.value|)
    {
      validity.None? || BitSet(validity.value, i)
    }

    /** A row is null when its index is, or when the entry it names is. */
    predicate Present(i: nat)
      requires WellFormed() && i < |indices|
    {
      IsValid(i) && dictionary.IsValid(indices[i])
    }

    function PresentRows(): (s: seq<bool>)
      requires WellFormed()
      ensures |s| == |indices| && forall i :: 0 <= i < |s| ==> s[i] == Present(i)
    {
      seq(|indices|, i requires 0 <= i < |indices| => Present(i))
    }

    /** The column it stands for. */
    function AsColumn(): (c: Column<Text>)
      requires WellFormed()
      ensures c.WellFormed() && |c.values| == |indices|
      ensures forall i :: 0 <= i < |indices| && IsValid(i) ==> c.values[i] == Entries()[indices[i]]
    {
      Column(seq(|indices|, i requires 0 <= i < |indices| => if IsValid(i) then Entries()[indices[i]] else []),
             Some(PackBools(PresentRows())))
    }

    /** The entries as they are copied: a null entry becomes empty. */
    function Entries(): (s: seq<Text>)
      requires dictionary.WellFormed()
      ensures |s| == |dictionary.values|
      ensures forall d :: 0 <= d < |s| ==> s[d] == if dictionary.IsValid(d) then dictionary.values[d] else []
    {
      seq(|dictionary.values|, d requires 0 <= d < |dictionary.values| =>
        if dictionary.IsValid(d) then dictionary.values[d] else [])
    }
  }

  /** Reuses the values and indices of a dictionary array. A row decodes to the entry at its index cut to 16 bits,
      which is its own entry whenever the dictionary has at most 65536 entries. */
  method FromDictArray(d: DictionaryArray, isBinary: bool, isAscii: bool, train: seq<byte> -> seq<Symbol>,
                       fit: seq<nat> -> (int, int))
    returns (a: LiquidByteViewArray)
    requires d.WellFormed() && |Concat(d.Entries())| < TWO_31 && Trains(train)
    ensures fresh(a) && a.Valid() && a.AsView().Entries() == d.Entries() && Printable(a.AsView())
    ensures a.AsView().keys.length == |d.indices|
    ensures a.isBinary == isBinary && a.isAscii == isAscii && a.sharedPrefix == SharedPrefix(d.Entries())
    ensures forall i :: 0 <= i < |d.indices| ==> DictRowRestored(a.AsView(), d, i)
  {
    var dict := CopyEntries(d.dictionary);
    assert dict == d.Entries();
    var keys := CopyIndices(d);
    a := LiquidByteViewArray.BuildEncodedDict(isBinary, isAscii, dict, keys, d.validity, 32, null, train, fit);
    DictRows(a.AsView(), d, keys);
  }

  method CopyEntries(c: Column<Text>) returns (dict: seq<Text>)
    requires c.WellFormed()
    ensures |dict| == |c.values|
    ensures forall e :: 0 <= e < |dict| ==> dict[e] == if c.IsValid(e) then c.values[e] else []
  {
    dict := [];
    for e := 0 to |c.values|
      invariant |dict| == e && forall f :: 0 <= f < e ==> dict[f] == if c.IsValid(f) then c.values[f] else []
    {
      dict := dict + [if c.IsValid(e) then c.values[e] else []];
    }
  }

  method CopyIndices(d: DictionaryArray) returns (keys: seq<nat>)
    requires d.WellFormed()
    ensures |keys| == |d.indices|
    ensures forall i :: 0 <= i < |keys| ==> keys[i] == (if d.IsValid(i) then d.indices[i] else 0) < TWO_32
  {
    keys := [];
    for i := 0 to |d.indices|
      invariant |keys| == i && forall j :: 0 <= j < i ==> keys[j] == (if d.IsValid(j) then d.indices[j] else 0) < TWO_32
    {
      keys := keys + [if d.IsValid(i) then d.indices[i] else 0];
    }
  }

  /** Is the bitmap of the indices kept? */
  predicate KeepsIndexNulls(d: DictionaryArray) {
    d.validity.None? || |d.indices| + 7 < TWO_32
  }

  ghost predicate DictRowRestored(v: View, d: DictionaryArray, i: nat)
    requires d.WellFormed() && v.Sound() && |v.Entries()| == |d.Entries()| && v.keys.length == |d.indices|
             && i < |d.indices|
  {
    && v.Decoded().IsValid(i) == (d.IsValid(i) || !KeepsIndexNulls(d))
    && (d.IsValid(i) ==> v.RowValue(i) == d.Entries()[d.indices[i] % 0x1_0000])
  }

  /** Is the index null and kept, or does it name an entry that is not null and equal to the one at the index cut to 16
      bits? */
  predicate DictRowKept(d: DictionaryArray, i: nat)
    requires d.WellFormed() && i < |d.indices|
  {
    if d.IsValid(i)
        then d.dictionary.IsValid(d.indices[i]) && d.Entries()[d.indices[i] % 0x1_0000] == d.Entries()[d.indices[i]]
    else KeepsIndexNulls(d)
  }

  /** A row that names a null entry comes back valid and empty. So the column comes back if and only if every row is
      kept. */
  lemma DictRestoredIff(v: View, d: DictionaryArray)
    requires d.WellFormed() && v.Sound() && |v.Entries()| == |d.Entries()| && v.keys.length == |d.indices|
    requires forall i :: 0 <= i < |d.indices| ==> DictRowRestored(v, d, i)
    ensures SameColumn(v.Decoded(), d.AsColumn())
       <==> forall i :: 0 <= i < |d.indices| ==> DictRowKept(d, i)
  {
    forall i | 0 <= i < |d.indices| ensures SameRow(v.Decoded(), d.AsColumn(), i) <==> DictRowKept(d, i) {
      assert DictRowRestored(v, d, i);
      PresentAt(d, i);
    }
    SameByRows(v.Decoded(), d.AsColumn());
  }

  lemma SameByRows(a: Column<Text>, b: Column<Text>)
    requires a.WellFormed() && b.WellFormed() && |a.values| == |b.values|
    ensures SameColumn(a, b) <==> forall i :: 0 <= i < |a.values| ==> SameRow(a, b, i)
  {
    forall i | 0 <= i < |a.values|
      ensures SameRow(a, b, i) <==> a.IsValid(i) == b.IsValid(i) && (a.IsValid(i) ==> a.values[i] == b.values[i])
    {
    }
  }

  ghost predicate SameRow(a: Column<Text>, b: Column<Text>, i: nat)
    requires a.WellFormed() && b.WellFormed() && i < |a.values| == |b.values|
  {
    a.IsValid(i) == b.IsValid(i) && (a.IsValid(i) ==> a.values[i] == b.values[i])
  }

  lemma PresentAt(d: DictionaryArray, i: nat)
    requires d.WellFormed() && i < |d.indices|
    ensures d.AsColumn().IsValid(i) == d.Present(i)
  {
    PackBoolsBit(d.PresentRows(), i);
  }

  lemma DictRows(v: View, d: DictionaryArray, keys: seq<nat>)
    requires d.WellFormed() && v.Sound() && v.Entries() == d.Entries() && |d.indices| == |keys|
    requires Stores(v.keys, keys, KeyWidth(|d.Entries()|, 32))
    requires v.keys.nullBitmap == if d.validity.Some? && |keys| + 7 < TWO_32 then d.validity.value[..CeilDiv8(|keys|)]
               else []
    requires forall i :: 0 <= i < |keys| ==> keys[i] == if d.IsValid(i) then d.indices[i] else 0
    ensures forall i :: 0 <= i < |d.indices| ==> DictRowRestored(v, d, i)
  {
    forall i | 0 <= i < |d.indices| ensures DictRowRestored(v, d, i) {
      DictRow(v, d, keys, i);
    }
  }

  lemma DictRow(v: View, d: DictionaryArray, keys: seq<nat>, i: nat)
    requires d.WellFormed() && v.Sound() && v.Entries() == d.Entries() && i < |d.indices| == |keys|
    requires Stores(v.keys, keys, KeyWidth(|d.Entries()|, 32))
    requires v.keys.nullBitmap == if d.validity.Some? && |keys| + 7 < TWO_32 then d.validity.value[..CeilDiv8(|keys|)]
               else []
    requires d.IsValid(i) ==> keys[i] == d.indices[i]
    ensures DictRowRestored(v, d, i)
  {
    NullRow(v, i);
    if d.IsValid(i) {
      WideKey(v.keys.Element(i), keys[i], |d.Entries()|, 32);
      RowIs(v, i, d.indices[i] % KEYS, d.Entries());
    }
  }

  /** A 32-bit index is unpacked whole, and then cut to 16 bits. */
  lemma WideKey(element: nat, key: nat, n: nat, w: nat)
    requires w == 32 && key < n < TWO_32 && element == Mask(key, KeyWidth(n, w))
    ensures Mask(element, 16) == key % KEYS < n
  {
    Pow2Width(w);
    MaskSmall(n - 1, w);
    MaskSmall(key, KeyWidth(n, w));
    SixteenBits(key);
  }

  lemma SixteenBits(x: nat)
    ensures Mask(x, 16) == x % KEYS <= x
  {
    var q, r := x / KEYS, x % KEYS;
    Pow2Values();
    ShlMul(q, 16);
    MaskOfSum(r, q, 16, 16);
    MaskSmall(r, 16);
  }
}
