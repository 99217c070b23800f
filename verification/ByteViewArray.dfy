/** The byte-string array itself: encoding, the lazily built dictionary, and decoding into flat buffers. */
module ByteViewArrays {
  import opened Arith
  import opened Arrow
  import opened BitPacked
  import opened ByteView
  import opened Bytes
  import opened Chunks
  import opened FrameOfReference
  import opened Fsst
  import opened Native
  import opened Unpacking
  import opened Wrappers
  import Offsets

  const TWO_31: nat := 0x8000_0000

  /** The decompressed dictionary: entries, their lengths, and all bytes in one buffer with the start of each. */
  datatype DecompressedDict = DecompressedDict(entries: seq<Text>, lengths: seq<int>, flatData: seq<byte>,
                                               flatOffsets: seq<int>)

  function DictOf(entries: seq<Text>): (d: DecompressedDict)
  {
    DecompressedDict(entries, EntryLengths(entries), Concat(entries), Starts(entries))
  }

  function EntryLengths(entries: seq<Text>): (s: seq<int>)
    ensures |s| == |entries|
    ensures forall d :: 0 <= d < |entries| ==> s[d] == |entries[d]|
  {
    seq(|entries|, d requires 0 <= d < |entries| => |entries[d]|)
  }

  /** A decoded column: 32-bit offsets into one data buffer, and a validity buffer. */
  datatype StringColumn = StringColumn(offsets: seq<int>, data: seq<byte>, validity: Option<seq<byte>>) {
    predicate Sound() {
      && |offsets| > 0
      && (forall i {:trigger offsets[i]} :: 0 <= i < |offsets| ==> 0 <= offsets[i] <= |data|)
      && (forall i {:trigger Ordered(i)} :: 0 <= i < |offsets| - 1 ==> Ordered(i))
      && (validity.Some? ==> CeilDiv8(|offsets| - 1) <= |validity.value|)
    }

    predicate Ordered(i: nat)
      requires i < |offsets| - 1
    {
      offsets[i] <= offsets[i + 1]
    }

    function Row(i: nat): Text
      requires Sound() && i < |offsets| - 1
    {
      assert Ordered(i);
      data[offsets[i]..offsets[i + 1]]
    }

    /** The column the buffers stand for. */
    function AsColumn(): (c: Column<Text>)
      requires Sound()
      ensures c.WellFormed()
    {
      Column(seq(|offsets| - 1, i requires 0 <= i < |offsets| - 1 => Row(i)), validity)
    }
  }

  /** Starts and bytes of the rows make a column of those rows. */
  lemma FlatColumn(rows: seq<Text>, validity: Option<seq<byte>>)
    requires validity.Some? ==> CeilDiv8(|rows|) <= |validity.value|
    ensures var s := StringColumn(Starts(rows), Concat(rows), validity);
            s.Sound() && s.AsColumn() == Column(rows, validity)
  {
    var s := StringColumn(Starts(rows), Concat(rows), validity);
    forall i | 0 <= i < |s.offsets| ensures 0 <= s.offsets[i] <= |s.data| {
      ConcatPrefix(rows, i);
    }
    forall i | 0 <= i < |rows| ensures s.Ordered(i) && s.data[s.offsets[i]..s.offsets[i + 1]] == rows[i] {
      ChunkAt(rows, i);
    }
    assert s.AsColumn().values == rows;
  }

  /** `memcpy` of a whole string into a buffer. */
  method CopyBytes(dst: array<byte>, at: nat, src: seq<byte>)
    requires at + |src| <= dst.Length
    modifies dst
    ensures dst[..at + |src|] == old(dst[..at]) + src
    ensures dst[at + |src|..] == old(dst[at + |src|..])
  {
    for i := 0 to |src|
      invariant dst[..at] == old(dst[..at]) && dst[at..at + i] == src[..i]
      invariant dst[at + |src|..] == old(dst[at + |src|..])
    {
      dst[at + i] := src[i];
    }
    assert dst[..at + |src|] == dst[..at] + dst[at..at + |src|];
  }

  /** A value below 2^31 survives the conversion to `int32_t`. */
  function Int32(x: nat): int { ToSigned(x, Offsets.W) }

  lemma Int32Small(x: nat)
    requires x < TWO_31
    ensures Int32(x) == x
  {
    var w := Offsets.W;
    Pow2Width(w);
    SignedRoundTrip(x, w);
  }

  /** Bytes a decoded column takes: every row that is not null in full. */
  function OutputBytes(values: seq<Text>, valid: seq<bool>, n: nat): nat
    requires n <= |values| == |valid|
  {
    if n == 0 then 0 else OutputBytes(values, valid, n - 1) + (if valid[n - 1] then |values[n - 1]| else 0)
  }

  /** The dictionary is no longer than the column. */
  lemma {:induction false} DictionaryBytes(values: seq<Text>, valid: seq<bool>, n: nat)
    requires n <= |values| == |valid|
    ensures |Concat(Distinct(values, valid, n))| <= OutputBytes(values, valid, n)
  {
    if n > 0 {
      DictionaryBytes(values, valid, n - 1);
      ConcatAppend(Distinct(values, valid, n - 1), values[n - 1]);
    }
  }

  lemma {:induction false} RowsBytes(values: seq<Text>, valid: seq<bool>, rows: seq<Text>, n: nat)
    requires n <= |values| == |valid| == |rows|
    requires forall i :: 0 <= i < n ==> rows[i] == if valid[i] then values[i] else []
    ensures |Concat(rows[..n])| == OutputBytes(values, valid, n)
  {
    if n > 0 {
      RowsBytes(values, valid, rows, n - 1);
      ConcatNext(rows, n - 1);
    }
  }

  /** A view as the bulk path reads its keys. */
  function SeenView(v: View, avx2: bool): View {
    v.(keys := Seen(v.keys, 16, avx2))
  }

  lemma SeenViewSound(v: View, avx2: bool)
    requires v.Sound()
    ensures SeenView(v, avx2).Sound() && SeenView(v, avx2).Entries() == v.Entries()
    ensures SeenView(v, avx2).keys.NullBuffer() == v.keys.NullBuffer()
    ensures !Rewinds(v.keys.length, v.keys.bitWidth, 16, avx2) ==> SeenView(v, avx2) == v
  {
    var w := SeenView(v, avx2);
    SeenNulls(v.keys, 16, avx2);
    assert forall d :: 0 <= d < v.DictSize() ==> w.HasStretch(d) == v.HasStretch(d);
    assert forall d :: 0 <= d < v.DictSize() ==> w.Entry(d) == v.Entry(d);
  }

  /** What the output loops know of the rows. */
  lemma SeenRowValue(v: View, avx2: bool, i: nat, key: nat)
    requires v.Sound() && i < v.keys.length && key == Mask(Seen(v.keys, 16, avx2).Element(i), 16)
    ensures SeenView(v, avx2).Sound()
    ensures SeenView(v, avx2).RowValue(i) == if !v.keys.IsNull(i) && key < |v.Entries()| then v.Entries()[key] else []
  {
    SeenViewSound(v, avx2);
    SeenNulls(v.keys, 16, avx2);
    if key < v.DictSize() {
      assert SeenView(v, avx2).Entries()[key] == SeenView(v, avx2).Entry(key);
    }
  }

  class LiquidByteViewArray {
    const isBinary: bool
    const isAscii: bool
    const compressor: FsstCompressor
    const uncompressedBytes: nat
    const compressedData: seq<byte>
    const compactOffsets: Offsets.CompactOffsets
    const dictionaryKeys: BitPackedArray
    const prefixKeys: seq<PrefixKey>
    const sharedPrefix: Text
    var cachedDict: Option<DecompressedDict>

    constructor (isBinary: bool, isAscii: bool, compressor: FsstCompressor, uncompressedBytes: nat,
                 compressedData: seq<byte>, compactOffsets: Offsets.CompactOffsets,
                 dictionaryKeys: BitPackedArray, prefixKeys: seq<PrefixKey>, sharedPrefix: Text)
      ensures this.compressor == compressor && this.dictionaryKeys == dictionaryKeys && cachedDict == None
      ensures AsView() == View(isBinary, isAscii, compressor.symbols, uncompressedBytes, compressedData,
                               compactOffsets, dictionaryKeys.View(), prefixKeys, sharedPrefix)
    {
      this.isBinary, this.isAscii, this.compressor := isBinary, isAscii, compressor;
      this.uncompressedBytes, this.compressedData := uncompressedBytes, compressedData;
      this.compactOffsets, this.dictionaryKeys := compactOffsets, dictionaryKeys;
      this.prefixKeys, this.sharedPrefix, cachedDict := prefixKeys, sharedPrefix, None;
    }

    function AsView(): View
      reads compressor, dictionaryKeys
    {
      View(isBinary, isAscii, compressor.symbols, uncompressedBytes, compressedData,
           compactOffsets, dictionaryKeys.View(), prefixKeys, sharedPrefix)
    }

    /** The parts fit together, and a cached dictionary is the right one. */
    ghost predicate Valid()
      reads this, compressor, dictionaryKeys
    {
      && AsView().Sound()
      && (cachedDict.Some? ==> cachedDict.value == DictOf(AsView().Entries()))
    }

    /** Decompresses the dictionary on first use only. */
    method EnsureDictCached() returns (dict: DecompressedDict)
      requires Valid() && |Concat(AsView().Entries())| < TWO_31
      modifies this`cachedDict
      ensures Valid() && cachedDict == Some(dict) && dict == DictOf(AsView().Entries())
    {
      if cachedDict.Some? {
        return cachedDict.value;
      }
      var dictSize := if |compactOffsets.residuals| > 0 then |compactOffsets.residuals| - 1 else 0;
      var entries, totalBytes := DecompressEntries(dictSize);
      var flatData, lengths, flatOffsets := Flatten(entries, totalBytes);
      dict := DecompressedDict(entries, lengths, flatData, flatOffsets);
      cachedDict := Some(dict);
    }

    method DecompressEntries(dictSize: nat) returns (entries: seq<Text>, totalBytes: nat)
      requires AsView().Sound() && dictSize == AsView().DictSize()
      ensures entries == AsView().Entries() && totalBytes == |Concat(entries)|
    {
      entries, totalBytes := [], 0;
      for d := 0 to dictSize
        invariant |entries| == d && entries == AsView().Entries()[..d] && totalBytes == |Concat(entries)|
      {
        var compStart, compEnd := compactOffsets.Get(d), compactOffsets.Get(d + 1);
        assert AsView().HasStretch(d);
        var entry := FsstCompressor.Decompress(compressor.symbols, compressedData[compStart..compEnd]);
        ConcatAppend(entries, sharedPrefix + entry);
        entries := entries + [sharedPrefix + entry];
        totalBytes := totalBytes + |sharedPrefix + entry|;
      }
    }

    /** The second pass: all entries in one buffer. */
    static method Flatten(entries: seq<Text>, totalBytes: nat)
      returns (flatData: seq<byte>, lengths: seq<int>, flatOffsets: seq<int>)
      requires totalBytes == |Concat(entries)| < TWO_31
      ensures flatData == Concat(entries) && lengths == EntryLengths(entries) && flatOffsets == Starts(entries)
    {
      var flat := new byte[totalBytes];
      lengths, flatOffsets := [], [];
      ghost var starts := Starts(entries);
      var off := 0;
      for d := 0 to |entries|
        invariant off == Start(entries, d) <= totalBytes && flat[..off] == Concat(entries[..d])
        invariant |lengths| == d && forall e :: 0 <= e < d ==> lengths[e] == |entries[e]|
        invariant |flatOffsets| == d && forall e :: 0 <= e < d ==> flatOffsets[e] == starts[e]
      {
        EntryStart(entries, d);
        lengths := lengths + [Int32(|entries[d]|)];
        flatOffsets := flatOffsets + [Int32(off)];
        CopyBytes(flat, off, entries[d]);
        off := off + |entries[d]|;
      }
      LastStart(entries, flatOffsets, off);
      flatOffsets := flatOffsets + [Int32(off)];
      flatData := flat[..];
    }

    /** The end of the last entry completes the starts. */
    static lemma LastStart(entries: seq<Text>, offsets: seq<int>, off: nat)
      requires |Concat(entries)| < TWO_31 && off == Start(entries, |entries|) && |offsets| == |entries|
      requires forall e :: 0 <= e < |offsets| ==> offsets[e] == Starts(entries)[e]
      ensures offsets + [Int32(off)] == Starts(entries)
      ensures Concat(entries[..|entries|]) == Concat(entries)
    {
      ConcatAll(entries);
      Int32Small(off);
    }

    static lemma EntryStart(entries: seq<Text>, d: nat)
      requires d < |entries| && |Concat(entries)| < TWO_31
      ensures Start(entries, d + 1) == Start(entries, d) + |entries[d]| <= |Concat(entries)|
      ensures Concat(entries[..d + 1]) == Concat(entries[..d]) + entries[d]
      ensures Int32(|entries[d]|) == |entries[d]| && Int32(Start(entries, d)) == Start(entries, d) == Starts(entries)[d]
    {
      ConcatNext(entries, d);
      ConcatPrefix(entries, d + 1);
      Int32Small(|entries[d]|);
      Int32Small(Start(entries, d));
    }

    /** Decodes through the cached dictionary into offsets and one data buffer, the rows as the bulk path sees their
        keys. */
    method ToArrow(avx2: bool) returns (c: StringColumn, nulls: nat)
      requires Valid() && |Concat(AsView().Entries())| < TWO_31
      requires Ends(dictionaryKeys.length, dictionaryKeys.bitWidth, 16, avx2)
      requires SeenView(AsView(), avx2).Sound() && |Concat(SeenView(AsView(), avx2).RowValues())| < TWO_31
      modifies this`cachedDict
      ensures Valid() && AsView() == old(AsView())
      ensures c.Sound() && c.AsColumn() == SeenView(AsView(), avx2).Decoded()
      ensures nulls == c.AsColumn().NullCount()
    {
      var len := dictionaryKeys.length;
      var dict := EnsureDictCached();
      var keys := new nat[len];
      dictionaryKeys.BulkUnpackTo(keys, 16, avx2);
      ghost var rows := SeenView(AsView(), avx2).RowValues();
      SeenViewSound(AsView(), avx2);
      forall i | 0 <= i < |rows| ensures RowKnown(dict, keys[i], rows[i], i) {
        SeenRowValue(AsView(), avx2, i, keys[i]);
      }
      var offsets, totalBytes := RowOffsets(dict, keys, rows);
      var data := CopyRows(dict, keys, offsets, totalBytes, rows);
      c := StringColumn(offsets, data, dictionaryKeys.View().NullBuffer());
      FlatColumn(rows, c.validity);
      nulls := dictionaryKeys.NullCount();
      NullCountAgrees(dictionaryKeys.View(), rows);
    }

    /** What the two output loops know of a row. */
    ghost predicate RowKnown(dict: DecompressedDict, key: nat, row: Text, i: nat)
      requires dictionaryKeys.View().Sound() && i < dictionaryKeys.length
      reads dictionaryKeys
    {
      row == if !dictionaryKeys.View().IsNull(i) && key < |dict.entries| then dict.entries[key] else []
    }

    lemma RowLength(dict: DecompressedDict, key: nat, row: Text, i: nat)
      requires dictionaryKeys.View().Sound() && i < dictionaryKeys.length
      requires dict == DictOf(dict.entries) && RowKnown(dict, key, row, i)
      ensures |row| == if !dictionaryKeys.IsNull(i) && key < |dict.entries| then dict.lengths[key] else 0
    {
    }

    lemma RowStart(rows: seq<Text>, i: nat)
      requires i < |rows| && |Concat(rows)| < TWO_31
      ensures Start(rows, i + 1) == Start(rows, i) + |rows[i]| <= |Concat(rows)|
      ensures Int32(Start(rows, i)) == Starts(rows)[i]
    {
      ConcatNext(rows, i);
      ConcatPrefix(rows, i + 1);
      Int32Small(Start(rows, i));
    }

    /** The single pass that computes the output offsets. */
    method RowOffsets(dict: DecompressedDict, keys: array<nat>, ghost rows: seq<Text>)
      returns (offsets: seq<int>, totalBytes: nat)
      requires dictionaryKeys.View().Sound() && keys.Length == |rows| == dictionaryKeys.length
      requires dict == DictOf(dict.entries) && |Concat(rows)| < TWO_31
      requires forall i {:trigger RowKnown(dict, keys[i], rows[i], i)} :: 0 <= i < |rows| ==>
                 RowKnown(dict, keys[i], rows[i], i)
      ensures offsets == Starts(rows) && totalBytes == |Concat(rows)|
    {
      offsets, totalBytes := [], 0;
      ghost var starts := Starts(rows);
      for i := 0 to keys.Length
        invariant |offsets| == i && forall j :: 0 <= j < i ==> offsets[j] == starts[j]
        invariant totalBytes == Start(rows, i) <= |Concat(rows)|
      {
        RowStart(rows, i);
        RowLength(dict, keys[i], rows[i], i);
        offsets := offsets + [Int32(totalBytes)];
        if !dictionaryKeys.IsNull(i) && keys[i] < |dict.entries| {
          totalBytes := totalBytes + dict.lengths[keys[i]];
        }
      }
      LastStart(rows, offsets, totalBytes);
      offsets := offsets + [Int32(totalBytes)];
    }

    /** The copying loop. */
    method CopyRows(dict: DecompressedDict, keys: array<nat>, offsets: seq<int>, totalBytes: nat, ghost rows: seq<Text>)
      returns (data: seq<byte>)
      requires dictionaryKeys.View().Sound() && keys.Length == |rows| == dictionaryKeys.length
      requires dict == DictOf(dict.entries)
      requires offsets == Starts(rows) && totalBytes == |Concat(rows)|
      requires forall i {:trigger RowKnown(dict, keys[i], rows[i], i)} :: 0 <= i < |rows| ==>
                 RowKnown(dict, keys[i], rows[i], i)
      ensures data == Concat(rows)
    {
      var buffer := new byte[totalBytes];
      for i := 0 to keys.Length
        invariant Start(rows, i) <= totalBytes && buffer[..Start(rows, i)] == Concat(rows[..i])
      {
        ConcatNext(rows, i);
        ConcatPrefix(rows, i + 1);
        assert offsets[i] == Start(rows, i);
        CopyRow(dict, keys[i], buffer, offsets[i], i, rows[i]);
      }
      ConcatAll(rows);
      data := buffer[..];
    }

    /** One row: its entry of the dictionary, or nothing. */
    method CopyRow(dict: DecompressedDict, key: nat, buffer: array<byte>, at: nat, i: nat, ghost row: Text)
      requires dictionaryKeys.View().Sound() && i < dictionaryKeys.length
      requires dict == DictOf(dict.entries) && RowKnown(dict, key, row, i) && at + |row| <= buffer.Length
      modifies buffer
      ensures buffer[..at + |row|] == old(buffer[..at]) + row
    {
      RowBytes(dict, key, row, i);
      if !dictionaryKeys.IsNull(i) && key < |dict.entries| {
        CopyBytes(buffer, at, dict.flatData[dict.flatOffsets[key]..dict.flatOffsets[key] + dict.lengths[key]]);
      }
    }

    /** The bytes that the copying loop takes for a row are the row. */
    lemma RowBytes(dict: DecompressedDict, key: nat, row: Text, i: nat)
      requires dictionaryKeys.View().Sound() && i < dictionaryKeys.length
      requires dict == DictOf(dict.entries) && RowKnown(dict, key, row, i)
      ensures !dictionaryKeys.IsNull(i) && key < |dict.entries| ==>
                && 0 <= dict.flatOffsets[key] <= dict.flatOffsets[key] + dict.lengths[key] <= |dict.flatData|
                && dict.flatData[dict.flatOffsets[key]..dict.flatOffsets[key] + dict.lengths[key]] == row
      ensures dictionaryKeys.IsNull(i) || key >= |dict.entries| ==> row == []
    {
      if key < |dict.entries| {
        ChunkAt(dict.entries, key);
      }
    }

    // -------------------------------------------------------------- encoding

    /** The encoding tail: shared prefix, compressed suffixes, offsets, prefix keys and packed keys.
        Without a given compressor, one is trained on the suffixes; `train` and `fit` may be any functions. */
    static method BuildEncodedDict(isBinary: bool, isAscii: bool, dict: seq<Text>, keys: seq<nat>,
                                   nulls: Option<seq<byte>>,
                                   keyBits: nat, compressor: FsstCompressor?, train: seq<byte> -> seq<Symbol>,
                                   fit: seq<nat> -> (int, int))
      returns (a: LiquidByteViewArray)
      requires |Concat(dict)| < TWO_31 && |keys| < TWO_32 && (keyBits == 16 || keyBits == 32)
      requires forall i :: 0 <= i < |keys| ==> keys[i] < TWO_64
      requires nulls.Some? ==> CeilDiv8(|keys|) <= |nulls.value|
      requires compressor != null ==> compressor.Usable() && Bounded(compressor.symbols)
      requires Trains(train)
      ensures fresh(a) && fresh(a.compressor) && fresh(a.dictionaryKeys)
      ensures a.Valid() && a.cachedDict == None && a.AsView().Entries() == dict && Printable(a.AsView())
      ensures a.sharedPrefix == SharedPrefix(dict)
      ensures forall d :: 0 <= d < |dict| ==>
                |a.sharedPrefix| <= |dict[d]| && d < |a.prefixKeys|
                    && a.prefixKeys[d] == MakePrefixKey(dict[d][|a.sharedPrefix|..])
      ensures compressor != null ==> a.AsView().symbols == compressor.symbols
      ensures compressor == null && a.uncompressedBytes > 0 ==>
                a.AsView().symbols == train(Concat(Suffixes(dict, a.sharedPrefix)))
      ensures a.uncompressedBytes == |Concat(Suffixes(dict, a.sharedPrefix))|
      ensures a.isBinary == isBinary && a.isAscii == isAscii
      ensures Stores(a.dictionaryKeys.View(), keys, KeyWidth(|dict|, keyBits))
      ensures a.dictionaryKeys.bitWidth == KeyWidth(|dict|, keyBits) && Sized(a.AsView(), |Concat(dict)|)
      ensures a.dictionaryKeys.nullBitmap
         == if nulls.Some? && |keys| + 7 < TWO_32 then nulls.value[..CeilDiv8(|keys|)] else []
    {
      var prefix := SharedPrefixOf(dict);
      var own, allSuffixes, buffer, compact := EncodeSuffixes(dict, prefix, compressor, train, fit);
      var prefixKeys := MakePrefixKeys(dict, |prefix|);
      var packed := PackKeys(keys, nulls, |dict|, keyBits);
      a := new LiquidByteViewArray(isBinary, isAscii, own, |allSuffixes|, buffer, compact, packed, prefixKeys, prefix);
      EntriesRestored(a.AsView(), dict);
      PartsSized(a.AsView(), |Concat(dict)|, |allSuffixes|);
    }

    /** The shared prefix begins every entry. */
    static method SharedPrefixOf(dict: seq<Text>) returns (prefix: Text)
      ensures prefix == SharedPrefix(dict) && |prefix| <= |Concat(dict)|
      ensures forall d :: 0 <= d < |dict| ==> prefix <= dict[d] && |prefix| <= |dict[d]|
    {
      prefix := ComputeSharedPrefix(dict);
      if dict != [] {
        SharedPrefixLongest(dict, prefix);
      }
      PrefixBytes(dict, prefix);
    }

    /** The suffixes, compressed with their offsets. */
    static method EncodeSuffixes(dict: seq<Text>, prefix: Text, compressor: FsstCompressor?,
                                 train: seq<byte> -> seq<Symbol>,
                                 fit: seq<nat> -> (int, int))
      returns (own: FsstCompressor, allSuffixes: seq<byte>, buffer: seq<byte>, compact: Offsets.CompactOffsets)
      requires |Concat(dict)| < TWO_31 && forall d :: 0 <= d < |dict| ==> |prefix| <= |dict[d]|
      requires compressor != null ==> compressor.Usable() && Bounded(compressor.symbols)
      requires Trains(train)
      ensures fresh(own) && Bounded(own.symbols) && |own.symbols| <= 255
      ensures compressor != null ==> own.symbols == compressor.symbols
      ensures compressor == null && allSuffixes != [] ==> own.symbols == train(allSuffixes)
      ensures allSuffixes == Concat(Suffixes(dict, prefix))
      ensures buffer == Concat(Codes(own.symbols, Suffixes(dict, prefix)))
      ensures |buffer| <= 2 * |allSuffixes| && |allSuffixes| <= |Concat(dict)|
      ensures compact.Valid() && Offsets.Represents(compact, Starts(Codes(own.symbols, Suffixes(dict, prefix))))
    {
      ghost var suffixes := Suffixes(dict, prefix);
      ConcatShorter(suffixes, dict, 1);
      var suffixOffsets;
      allSuffixes, suffixOffsets := CollectSuffixes(dict, |prefix|, suffixes);
      own := CompressorFor(allSuffixes, compressor, train);
      buffer, compact := CompressAndFit(own, allSuffixes, suffixOffsets, fit, suffixes);
    }

    static method PackKeys(keys: seq<nat>, nulls: Option<seq<byte>>, dictSize: nat, keyBits: nat)
      returns (packed: BitPackedArray)
      requires |keys| < TWO_32 && keyBits <= 64 && forall i :: 0 <= i < |keys| ==> keys[i] < TWO_64
      requires nulls.Some? ==> CeilDiv8(|keys|) <= |nulls.value|
      ensures fresh(packed) && packed.View().Sound() && Stores(packed.View(), keys, KeyWidth(dictSize, keyBits))
      ensures packed.bitWidth == KeyWidth(dictSize, keyBits)
              && |packed.packedData| == PackedBytes(packed.length, packed.bitWidth)
      ensures packed.nullBitmap == if nulls.Some? && |keys| + 7 < TWO_32 then nulls.value[..CeilDiv8(|keys|)] else []
    {
      KeyWidthFits(dictSize, keyBits);
      packed := new BitPackedArray(keys, nulls, KeyWidth(dictSize, keyBits));
      HoldsStores(packed.View(), keys, KeyWidth(dictSize, keyBits));
    }

    static method CompressAndFit(own: FsstCompressor, allSuffixes: seq<byte>, suffixOffsets: seq<nat>,
                                 fit: seq<nat> -> (int, int), ghost suffixes: seq<Text>)
      returns (buffer: seq<byte>, compact: Offsets.CompactOffsets)
      requires |own.symbols| <= 255 && (allSuffixes != [] ==> own.Usable())
      requires allSuffixes == Concat(suffixes) && suffixOffsets == Starts(suffixes) && |allSuffixes| < TWO_31
      ensures buffer == Concat(Codes(own.symbols, suffixes)) && |buffer| <= 2 * |allSuffixes|
      ensures compact.Valid() && Offsets.Represents(compact, Starts(Codes(own.symbols, suffixes)))
    {
      ghost var codes := Codes(own.symbols, suffixes);
      CodesBound(own.symbols, suffixes);
      var offsets;
      buffer, offsets := CompressSuffixes(own, allSuffixes, suffixOffsets, suffixes, codes);
      compact := FitOffsets(offsets, fit);
    }

    /** A copy of the given compressor, or one trained on the data; training on nothing builds no table. */
    static method CompressorFor(data: seq<byte>, compressor: FsstCompressor?, train: seq<byte> -> seq<Symbol>)
      returns (own: FsstCompressor)
      requires compressor != null ==> compressor.Usable() && Bounded(compressor.symbols)
      requires Trains(train)
      ensures fresh(own) && Bounded(own.symbols) && |own.symbols| <= 255
      ensures data != [] ==> own.Usable()
      ensures compressor != null ==> own.symbols == compressor.symbols
      ensures compressor == null ==> own.symbols == if data == [] then [] else train(data)
    {
      if compressor != null {
        own := new FsstCompressor.Copy(compressor);
      } else if |data| == 0 {
        own := new FsstCompressor.Untrained();
      } else {
        own := new FsstCompressor(train(data));
      }
    }

    /** Any line the regression returns is cut to 32-bit registers. */
    static method FitOffsets(offsets: seq<nat>, fit: seq<nat> -> (int, int)) returns (compact: Offsets.CompactOffsets)
      requires forall i :: 0 <= i < |offsets| ==> offsets[i] < TWO_32
      ensures compact.Valid() && Offsets.Represents(compact, offsets)
      ensures offsets != [] ==> compact.slope == ToSigned(fit(offsets).0, 32)
                                && compact.intercept == ToSigned(fit(offsets).1, 32)
    {
      var line := fit(offsets);
      ToSignedRange(line.0, Offsets.W);
      ToSignedRange(line.1, Offsets.W);
      compact := Offsets.Build(offsets, ToSigned(line.0, Offsets.W), ToSigned(line.1, Offsets.W));
    }

    static method MakePrefixKeys(dict: seq<Text>, spLen: nat) returns (keys: seq<PrefixKey>)
      requires forall d :: 0 <= d < |dict| ==> spLen <= |dict[d]|
      ensures |keys| == |dict| && forall d :: 0 <= d < |dict| ==> keys[d] == MakePrefixKey(dict[d][spLen..])
    {
      keys := [];
      for d := 0 to |dict|
        invariant |keys| == d && forall e :: 0 <= e < d ==> keys[e] == MakePrefixKey(dict[e][spLen..])
      {
        keys := keys + [MakePrefixKey(dict[d][spLen..])];
      }
    }

    /** The concatenating loop over the dictionary. */
    static method CollectSuffixes(dict: seq<Text>, spLen: nat, ghost suffixes: seq<Text>)
      returns (allSuffixes: seq<byte>, suffixOffsets: seq<nat>)
      requires |suffixes| == |dict| && |Concat(suffixes)| < TWO_31
      requires forall d :: 0 <= d < |dict| ==> spLen <= |dict[d]| && suffixes[d] == dict[d][spLen..]
      ensures allSuffixes == Concat(suffixes) && suffixOffsets == Starts(suffixes)
    {
      allSuffixes, suffixOffsets := [], [0];
      for d := 0 to |dict|
        invariant allSuffixes == Concat(suffixes[..d]) && |suffixOffsets| == d + 1
        invariant forall e :: 0 <= e <= d ==> suffixOffsets[e] == Starts(suffixes)[e]
      {
        NextChunk(suffixes, d);
        allSuffixes := allSuffixes + dict[d][spLen..];
        suffixOffsets := suffixOffsets + [|allSuffixes| % TWO_32];
      }
      ConcatAll(suffixes);
    }

    /** The compressing loop over the suffixes. */
    static method CompressSuffixes(compressor: FsstCompressor, allSuffixes: seq<byte>, suffixOffsets: seq<nat>,
                                   ghost suffixes: seq<Text>, ghost codes: seq<seq<byte>>)
      returns (buffer: seq<byte>, offsets: seq<nat>)
      requires |compressor.symbols| <= 255 && (allSuffixes != [] ==> compressor.Usable())
      requires allSuffixes == Concat(suffixes) && suffixOffsets == Starts(suffixes)
      requires |codes| == |suffixes| && |Concat(codes)| < TWO_32
      requires forall d {:trigger IsCode(compressor.symbols, suffixes[d], codes[d])} :: 0 <= d < |codes| ==>
                 IsCode(compressor.symbols, suffixes[d], codes[d])
      ensures buffer == Concat(codes) && offsets == Starts(codes)
      ensures forall i :: 0 <= i < |offsets| ==> offsets[i] < TWO_32
    {
      buffer, offsets := [], [0];
      ghost var starts := Starts(codes);
      for d := 0 to |suffixOffsets| - 1
        invariant buffer == Concat(codes[..d]) && |offsets| == d + 1
        invariant forall e :: 0 <= e <= d ==> offsets[e] == starts[e]
      {
        var offset;
        buffer, offset :=
            AppendCode(compressor, allSuffixes, suffixOffsets[d], suffixOffsets[d + 1], buffer, suffixes, codes, d);
        offsets := offsets + [offset];
      }
      ConcatAll(codes);
      StartsBound(codes);
    }

    static method AppendCode(compressor: FsstCompressor, data: seq<byte>, start: nat, end: nat, before: seq<byte>,
                             ghost suffixes: seq<Text>, ghost codes: seq<seq<byte>>, ghost d: nat)
      returns (buffer: seq<byte>, offset: nat)
      requires |compressor.symbols| <= 255 && (data != [] ==> compressor.Usable())
      requires d < |codes| == |suffixes| && data == Concat(suffixes)
      requires start == Starts(suffixes)[d] && end == Starts(suffixes)[d + 1]
      requires IsCode(compressor.symbols, suffixes[d], codes[d])
      requires before == Concat(codes[..d]) && |Concat(codes)| < TWO_32
      ensures buffer == Concat(codes[..d + 1]) && offset == Starts(codes)[d + 1] < TWO_32
    {
      SliceAt(suffixes, d, start, end);
      var compressed := compressor.Compress(data[start..end]);
      NextChunk(codes, d);
      buffer := before + compressed;
      offset := |buffer| % TWO_32;
    }
  }

  ghost predicate IsCode(symbols: seq<Symbol>, text: Text, code: seq<byte>) {
    |symbols| <= 255 && code == Compressed(symbols, text)
  }

  /** Training yields at most 255 symbols of at most eight bytes. */
  ghost predicate Trains(train: seq<byte> -> seq<Symbol>) {
    forall s: seq<byte> :: |train(s)| <= 255 && Bounded(train(s))
  }

  lemma StartsBound(chunks: seq<seq<byte>>)
    ensures forall i :: 0 <= i <= |chunks| ==> Starts(chunks)[i] <= |Concat(chunks)|
  {
    forall i | 0 <= i <= |chunks| ensures Starts(chunks)[i] <= |Concat(chunks)| {
      ConcatPrefix(chunks, i);
      assert Starts(chunks)[i] == Start(chunks, i);
    }
  }

  lemma NextChunk(chunks: seq<seq<byte>>, d: nat)
    requires d < |chunks|
    ensures Concat(chunks[..d + 1]) == Concat(chunks[..d]) + chunks[d]
    ensures |Concat(chunks[..d + 1])| == Starts(chunks)[d + 1] <= |Concat(chunks)|
  {
    assert Starts(chunks)[d + 1] == Start(chunks, d + 1);
    ConcatNext(chunks, d);
    ConcatPrefix(chunks, d + 1);
  }

  /** The packing width: of the last index, cut to the width of the keys. */
  function KeyWidth(dictSize: nat, keyBits: nat): nat {
    GetBitWidth(if dictSize == 0 then 0 else Mask(dictSize - 1, keyBits))
  }

  lemma KeyWidthFits(dictSize: nat, keyBits: nat)
    requires keyBits <= 64
    ensures KeyWidth(dictSize, keyBits) <= 64
  {
    if dictSize > 0 {
      MaskBound(dictSize - 1, keyBits);
      Pow2Mono(keyBits, 64);
      GetBitWidthLeast(Mask(dictSize - 1, keyBits), 64);
    } else {
      GetBitWidthLeast(0, 64);
    }
  }

  lemma CodesBound(symbols: seq<Symbol>, suffixes: seq<Text>)
    requires |symbols| <= 255
    ensures |Concat(Codes(symbols, suffixes))| <= 2 * |Concat(suffixes)|
  {
    forall d | 0 <= d < |suffixes| ensures |Codes(symbols, suffixes)[d]| <= 2 * |suffixes[d]| {
      CompressedSize(symbols, suffixes[d]);
    }
    ConcatShorter(Codes(symbols, suffixes), suffixes, 2);
  }

  lemma PartsSized(v: View, bytes: nat, suffixBytes: nat)
    requires suffixBytes <= bytes && v.uncompressedBytes == suffixBytes && |v.compressedData| <= 2 * suffixBytes
    requires |v.sharedPrefix| <= bytes && |v.keys.packedData| == PackedBytes(v.keys.length, v.keys.bitWidth)
    requires |v.keys.nullBitmap| <= CeilDiv8(v.keys.length)
    ensures Sized(v, bytes)
  {
  }

  lemma PrefixBytes(dict: seq<Text>, prefix: Text)
    requires forall d :: 0 <= d < |dict| ==> |prefix| <= |dict[d]|
    requires dict == [] ==> prefix == []
    ensures |prefix| <= |Concat(dict)|
  {
    if dict != [] {
      ChunkAt(dict, 0);
    }
  }

  /** The sizes of the parts, for a dictionary of so many bytes. */
  ghost predicate Sized(v: View, bytes: nat) {
    && v.uncompressedBytes <= bytes && |v.compressedData| <= 2 * bytes && |v.sharedPrefix| <= bytes
    && |v.keys.packedData| == PackedBytes(v.keys.length, v.keys.bitWidth)
        && |v.keys.nullBitmap| <= CeilDiv8(v.keys.length)
  }

  /** What the serialized form needs: one prefix key an entry, seven bytes each, and offsets of a stored width. */
  ghost predicate Printable(v: View) {
    && v.offsets.Valid() && |v.prefixKeys| == v.DictSize()
    && forall d :: 0 <= d < |v.prefixKeys| ==> |v.prefixKeys[d].prefix7| == 7
  }
}
