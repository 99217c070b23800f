/** The serialized form of a byte-string array: two headers and five sections, each padded to eight bytes. */
module ByteViewBytes {
  import opened Arith
  import opened BitPacked
  import opened ByteView
  import opened ByteViewArrays
  import opened Bytes
  import opened Fsst
  import opened Wrappers
  import Offsets

  const MAGIC: nat := 0x4C51_4441
  const VERSION: nat := 1
  const BYTE_VIEW_ARRAY: nat := 4
  const INT8: nat := 0
  const UINT8: nat := 4

  /** The 16-byte header of every serialized array and the 24-byte header of this kind, 40 bytes together. */
  datatype Header = Header(isBinary: bool, isAscii: bool, keysSize: nat, offsetsSize: nat, prefixSize: nat,
                           fsstSize: nat)

  const HEADER: nat := 40

  function PrintHeader(h: Header): (s: seq<byte>)
    ensures |s| == HEADER
  {
    PrintIpcHeader(h) + PrintArrayHeader(h)
  }

  function PrintIpcHeader(h: Header): (s: seq<byte>)
    ensures |s| == 16
  {
    ToLE(MAGIC, 4) + ToLE(VERSION, 2) + ToLE(BYTE_VIEW_ARRAY, 2)
        + ToLE(if h.isBinary then UINT8 else INT8, 2) + Zeros(6)
  }

  function PrintArrayHeader(h: Header): (s: seq<byte>)
    ensures |s| == 24
  {
    ToLE(h.keysSize, 4) + ToLE(h.offsetsSize, 4) + ToLE(h.prefixSize, 4) + ToLE(h.fsstSize, 4) + ToLE(0, 4)
    + Zeros(3) + [if h.isAscii then 1 else 0]
  }

  function ParseHeader(data: seq<byte>): Result<Header> {
    if |data| < 16 then Failure("Buffer too small for LiquidIPCHeader")
    else if LE(data[0..4]) != MAGIC then Failure("Invalid Liquid IPC magic number")
    else if LE(data[4..6]) != VERSION then Failure("Unsupported Liquid IPC version")
    else if LE(data[6..8]) != BYTE_VIEW_ARRAY then Failure("Expected ByteViewArray logical type")
    else if |data| < HEADER then Failure("Buffer too small for ByteViewArrayHeader")
    else Success(Header(LE(data[8..10]) == UINT8, Mask(data[39], 1) != 0,
                        LE(data[16..20]), LE(data[20..24]), LE(data[24..28]), LE(data[28..32])))
  }

  predicate Small(h: Header) {
    h.keysSize < TWO_32 && h.offsetsSize < TWO_32 && h.prefixSize < TWO_32 && h.fsstSize < TWO_32
  }

  /** The first header byte by byte: the letters of the magic number from its low byte, version 1, type 4, and 4
      for binary columns and 0 for text, all little-endian. */
  lemma IpcBytes(h: Header)
    ensures PrintIpcHeader(h)
         == [0x41, 0x44, 0x51, 0x4C, 1, 0, 4, 0, if h.isBinary then 4 else 0, 0, 0, 0, 0, 0, 0, 0]
  {
    FourBytes(MAGIC);
    TwoBytes(VERSION);
    TwoBytes(BYTE_VIEW_ARRAY);
    TwoBytes(if h.isBinary then UINT8 else INT8);
  }

  lemma TwoBytes(x: nat)
    ensures ToLE(x, 2) == [x % 256, x / 256 % 256]
  {
    assert ToLE(x / 256, 1) == [x / 256 % 256] + ToLE(x / 256 / 256, 0);
  }

  lemma FourBytes(x: nat)
    ensures ToLE(x, 4) == [x % 256, x / 256 % 256, x / 256 / 256 % 256, x / 256 / 256 / 256 % 256]
  {
    assert ToLE(x, 4) == [x % 256] + ToLE(x / 256, 3);
    assert ToLE(x / 256, 3) == [x / 256 % 256] + ToLE(x / 256 / 256, 2);
    TwoBytes(x / 256 / 256);
  }

  lemma IpcSlices(h: Header, s: seq<byte>)
    requires s == PrintIpcHeader(h)
    ensures s[0..4] == ToLE(MAGIC, 4) && s[4..6] == ToLE(VERSION, 2) && s[6..8] == ToLE(BYTE_VIEW_ARRAY, 2)
    ensures s[8..10] == ToLE(if h.isBinary then UINT8 else INT8, 2)
  {
  }

  lemma ArraySlices(h: Header, s: seq<byte>)
    requires s == PrintArrayHeader(h)
    ensures s[0..4] == ToLE(h.keysSize, 4) && s[4..8] == ToLE(h.offsetsSize, 4)
    ensures s[8..12] == ToLE(h.prefixSize, 4) && s[12..16] == ToLE(h.fsstSize, 4)
    ensures s[23] == if h.isAscii then 1 else 0
  {
  }

  lemma HeaderSlices(h: Header, data: seq<byte>, rest: seq<byte>)
    requires data == PrintHeader(h) + rest
    ensures data[0..4] == ToLE(MAGIC, 4) && data[4..6] == ToLE(VERSION, 2) && data[6..8] == ToLE(BYTE_VIEW_ARRAY, 2)
    ensures data[8..10] == ToLE(if h.isBinary then UINT8 else INT8, 2)
    ensures data[16..20] == ToLE(h.keysSize, 4) && data[20..24] == ToLE(h.offsetsSize, 4)
    ensures data[24..28] == ToLE(h.prefixSize, 4) && data[28..32] == ToLE(h.fsstSize, 4)
    ensures data[39] == if h.isAscii then 1 else 0
  {
    var a, b := PrintIpcHeader(h), PrintArrayHeader(h);
    IpcSlices(h, a);
    ArraySlices(h, b);
    HeaderParts(a, b, data, rest);
  }

  lemma HeaderParts(a: seq<byte>, b: seq<byte>, data: seq<byte>, rest: seq<byte>)
    requires |a| == 16 && |b| == 24 && data == a + b + rest
    ensures data[0..4] == a[0..4] && data[4..6] == a[4..6] && data[6..8] == a[6..8] && data[8..10] == a[8..10]
    ensures data[16..20] == b[0..4] && data[20..24] == b[4..8] && data[24..28] == b[8..12] && data[28..32] == b[12..16]
    ensures data[39] == b[23]
  {
  }

  lemma WriteRead16(x: nat)
    requires x < 256
    ensures LE(ToLE(x, 2)) == x
  {
    Pow2Values();
    WriteRead(x, 2);
  }

  /** A 32-bit field keeps a size if and only if it fits; a larger one is cut without an error. */
  lemma FieldKeeps(x: nat)
    ensures LE(ToLE(x, 4)) == x <==> x < TWO_32
  {
    if x < TWO_32 {
      WriteRead32(x);
    } else {
      var n := 32;
      LEBound(ToLE(x, 4));
      Pow2Width(n);
    }
  }

  /** The headers parse back if and only if every section size fits its field. */
  lemma HeaderRoundTrip(h: Header, data: seq<byte>, rest: seq<byte>)
    requires data == PrintHeader(h) + rest
    ensures ParseHeader(data) == Success(h) <==> Small(h)
  {
    HeaderSlices(h, data, rest);
    WriteRead32(MAGIC);
    WriteRead16(VERSION);
    WriteRead16(BYTE_VIEW_ARRAY);
    WriteRead16(if h.isBinary then UINT8 else INT8);
    FieldKeeps(h.keysSize);
    FieldKeeps(h.offsetsSize);
    FieldKeeps(h.prefixSize);
    FieldKeeps(h.fsstSize);
  }

  // ---------------------------------------------------------------- the compressed section

  datatype FsstPart = FsstPart(symbols: seq<Symbol>, uncompressedBytes: nat, compressedData: seq<byte>)

  function PrintFsst(f: FsstPart): seq<byte>
    requires |f.symbols| <= 255
  {
    Saved(f.symbols) + ToLE(f.uncompressedBytes, 8) + ToLE(|f.compressedData|, 4) + f.compressedData
  }

  function ParseFsst(s: seq<byte>): Result<FsstPart> {
    var l := Loaded(s);
    if l.Failure? then Failure(l.message)
    else
      var st := 1 + 9 * |l.value|;
      if st + 12 > |s| then Failure("Buffer too small for RawFsstBuffer")
      else
        var compSize := LE(s[st + 8..st + 12]);
        if st + 12 + compSize > |s| then Failure("FSST compressed data overflow")
        else Success(FsstPart(l.value, LE(s[st..st + 8]), s[st + 12..st + 12 + compSize]))
  }

  lemma FsstRoundTrip(f: FsstPart)
    requires |f.symbols| <= 255 && f.uncompressedBytes < TWO_64 && |f.compressedData| < TWO_32
    ensures ParseFsst(PrintFsst(f)) == Success(f)
  {
    var s, saved := PrintFsst(f), Saved(f.symbols);
    var ub, cs := ToLE(f.uncompressedBytes, 8), ToLE(|f.compressedData|, 4);
    var n := 64;
    Pow2Width(n);
    WriteRead(f.uncompressedBytes, 8);
    WriteRead32(|f.compressedData|);
    LoadUndoesSave(f.symbols, ub + cs + f.compressedData);
    FsstSlices(saved, ub, cs, f.compressedData, s);
    FsstPartsParse(s, |saved|, f);
  }

  /** Where everything is: the saved table, the number of uncompressed bytes, that of compressed bytes, and these. */
  lemma FsstLayout(f: FsstPart)
    requires |f.symbols| <= 255
    ensures var s, t := PrintFsst(f), 1 + 9 * |f.symbols|;
            && |s| == t + 12 + |f.compressedData| && s[..t] == Saved(f.symbols)
            && s[t..t + 8] == ToLE(f.uncompressedBytes, 8) && s[t + 8..t + 12] == ToLE(|f.compressedData|, 4)
            && s[t + 12..] == f.compressedData
  {
    var saved := Saved(f.symbols);
    FsstSlices(saved, ToLE(f.uncompressedBytes, 8), ToLE(|f.compressedData|, 4), f.compressedData, PrintFsst(f));
    assert PrintFsst(f)[..|saved|] == saved;
  }

  lemma FsstPartsParse(s: seq<byte>, st: nat, f: FsstPart)
    requires Loaded(s) == Success(f.symbols) && st == 1 + 9 * |f.symbols| && |s| == st + 12 + |f.compressedData|
    requires LE(s[st..st + 8]) == f.uncompressedBytes && LE(s[st + 8..st + 12]) == |f.compressedData|
    requires s[st + 12..st + 12 + |f.compressedData|] == f.compressedData
    ensures ParseFsst(s) == Success(f)
  {
  }

  lemma FsstSlices(saved: seq<byte>, ub: seq<byte>, cs: seq<byte>, cd: seq<byte>, s: seq<byte>)
    requires s == saved + ub + cs + cd && |ub| == 8 && |cs| == 4
    ensures s == saved + (ub + cs + cd) && |s| == |saved| + 12 + |cd|
    ensures s[|saved|..|saved| + 8] == ub && s[|saved| + 8..|saved| + 12] == cs
    ensures s[|saved| + 12..|saved| + 12 + |cd|] == cd
  {
  }

  // ---------------------------------------------------------------- prefix keys

  function PrintPrefixKeys(keys: seq<PrefixKey>): (s: seq<byte>)
    requires forall d :: 0 <= d < |keys| ==> |keys[d].prefix7| == 7
    ensures |s| == 8 * |keys|
  {
    if keys == [] then []
    else PrintPrefixKeys(keys[..|keys| - 1]) + keys[|keys| - 1].prefix7 + [keys[|keys| - 1].lenByte]
  }

  function ParsePrefixKeys(s: seq<byte>, n: nat): (r: seq<PrefixKey>)
    requires 8 * n <= |s|
    ensures |r| == n
  {
    seq(n, d requires 0 <= d < n => PrefixKey(s[8 * d..8 * d + 7], s[8 * d + 7]))
  }

  /** Every key takes eight bytes: its seven, then its length. */
  lemma {:induction false} PrefixKeyPlace(keys: seq<PrefixKey>, d: nat)
    requires d < |keys| && forall e :: 0 <= e < |keys| ==> |keys[e].prefix7| == 7
    ensures PrintPrefixKeys(keys)[8 * d..8 * d + 7] == keys[d].prefix7
    ensures PrintPrefixKeys(keys)[8 * d + 7] == keys[d].lenByte
  {
    var n := |keys| - 1;
    var init := PrintPrefixKeys(keys[..n]);
    if d < n {
      PrefixKeyPlace(keys[..n], d);
      KeyKept(PrintPrefixKeys(keys), init, keys[n].prefix7 + [keys[n].lenByte], d);
    }
  }

  lemma PrefixKeysRoundTrip(keys: seq<PrefixKey>)
    requires forall d :: 0 <= d < |keys| ==> |keys[d].prefix7| == 7
    ensures ParsePrefixKeys(PrintPrefixKeys(keys), |keys|) == keys
  {
    var r := ParsePrefixKeys(PrintPrefixKeys(keys), |keys|);
    forall d | 0 <= d < |keys| ensures r[d] == keys[d] {
      PrefixKeyPlace(keys, d);
    }
  }

  lemma KeyKept(s: seq<byte>, init: seq<byte>, last: seq<byte>, d: nat)
    requires s == init + last && 8 * d + 8 <= |init|
    ensures s[8 * d..8 * d + 7] == init[8 * d..8 * d + 7] && s[8 * d + 7] == init[8 * d + 7]
  {
  }

  // ---------------------------------------------------------------- the whole

  function Padded(s: seq<byte>): (r: seq<byte>)
    ensures |r| == Align8(|s|) && |r| % 8 == 0 && s <= r
  {
    s + Zeros(Align8(|s|) - |s|)
  }

  function FsstSection(v: View): seq<byte>
    requires |v.symbols| <= 255
  {
    PrintFsst(FsstPart(v.symbols, v.uncompressedBytes, v.compressedData))
  }

  /** What printing needs: a table and a width of one byte, and seven bytes in every prefix key. */
  ghost predicate HasFields(v: View) {
    && |v.symbols| <= 255 && v.keys.bitWidth < 256
    && forall d :: 0 <= d < |v.prefixKeys| ==> |v.prefixKeys[d].prefix7| == 7
  }

  /** What the fields of a live array satisfy: the widths of its counters and of its stored offsets. */
  ghost predicate Storable(v: View) {
    && Printable(v) && |v.symbols| <= 255 && v.uncompressedBytes < TWO_64 && |v.compressedData| < TWO_32
    && v.keys.bitWidth < 256 && v.keys.length < TWO_32 && |v.keys.nullBitmap| < TWO_32 && |v.keys.packedData| < TWO_32
    && Small(HeaderOf(v))
  }

  function HeaderOf(v: View): Header
    requires |v.symbols| <= 255 && v.keys.bitWidth < 256
  {
    Header(v.isBinary, v.isAscii, |BitPacked.Print(v.keys)|, |Offsets.Print(v.offsets)|, |v.sharedPrefix|,
           |FsstSection(v)|)
  }

  function Sections(v: View): (s: seq<seq<byte>>)
    requires |v.symbols| <= 255 && v.keys.bitWidth < 256
    requires forall d :: 0 <= d < |v.prefixKeys| ==> |v.prefixKeys[d].prefix7| == 7
    ensures |s| == 5
  {
    [FsstSection(v), BitPacked.Print(v.keys), Offsets.Print(v.offsets), PrintPrefixKeys(v.prefixKeys), v.sharedPrefix]
  }

  function PaddedAll(sections: seq<seq<byte>>): seq<byte> {
    if sections == [] then [] else Padded(sections[0]) + PaddedAll(sections[1..])
  }

  /** The headers, then every section padded to eight bytes. */
  function Print(v: View): seq<byte>
    requires |v.symbols| <= 255 && v.keys.bitWidth < 256
    requires forall d :: 0 <= d < |v.prefixKeys| ==> |v.prefixKeys[d].prefix7| == 7
  {
    PrintHeader(HeaderOf(v)) + PaddedAll(Sections(v))
  }

  /** The parsers of the sections that have a format of their own. */
  datatype Parsers = Parsers(fsst: seq<byte> -> Result<FsstPart>, keys: seq<byte> -> Result<Packed>,
                             offsets: seq<byte> -> Result<Offsets.CompactOffsets>)

  const PARSERS: Parsers := Parsers(ParseFsst, BitPacked.Parse, Offsets.Parse)

  function Parse(data: seq<byte>): Result<View> {
    ParseSections(PARSERS, ParseHeader(data), data)
  }

  function ParseSections(ps: Parsers, h: Result<Header>, data: seq<byte>): Result<View> {
    if h.Failure? then Failure(h.message)
    else if HEADER + h.value.fsstSize > |data| then Failure("Buffer too small for FSST data")
    else
      var f := ps.fsst(data[HEADER..HEADER + h.value.fsstSize]);
      if f.Failure? then Failure(f.message)
      else ParseKeys(ps, data, h.value, f.value, Align8(HEADER + h.value.fsstSize))
  }

  function ParseKeys(ps: Parsers, data: seq<byte>, h: Header, f: FsstPart, pos: nat): Result<View> {
    if pos + h.keysSize > |data| then Failure("Buffer too small for keys")
    else
      var k := ps.keys(data[pos..pos + h.keysSize]);
      if k.Failure? then Failure(k.message)
      else ParseOffsets(ps, data, h, f, k.value, Align8(pos + h.keysSize))
  }

  function ParseOffsets(ps: Parsers, data: seq<byte>, h: Header, f: FsstPart, k: Packed, pos: nat): Result<View> {
    if pos + h.offsetsSize > |data| then Failure("Buffer too small for offsets")
    else
      var o := ps.offsets(data[pos..pos + h.offsetsSize]);
      if o.Failure? then Failure(o.message)
      else ParsePrefixes(data, h, f, k, o.value, Align8(pos + h.offsetsSize))
  }

  function ParsePrefixes(data: seq<byte>, h: Header, f: FsstPart, k: Packed, o: Offsets.CompactOffsets,
                         pos: nat): Result<View> {
    var n := if |o.residuals| > 0 then |o.residuals| - 1 else 0;
    if pos + 8 * n > |data| then Failure("Buffer too small for prefix keys")
    else
      var end := Align8(pos + 8 * n);
      if end + h.prefixSize > |data| then Failure("Buffer too small for shared prefix")
      else Success(View(h.isBinary, h.isAscii, f.symbols, f.uncompressedBytes, f.compressedData, o, k,
                        ParsePrefixKeys(data[pos..], n), data[end..end + h.prefixSize]))
  }

  /** A section sits at a position. */
  ghost predicate At(data: seq<byte>, pos: nat, section: seq<byte>) {
    pos + |section| <= |data| && data[pos..pos + |section|] == section
  }

  lemma SectionAt(data: seq<byte>, before: seq<byte>, section: seq<byte>, rest: seq<byte>)
    requires data == before + Padded(section) + rest && |before| % 8 == 0
    ensures At(data, |before|, section)
    ensures Align8(|before| + |section|) == |before + Padded(section)| && |before + Padded(section)| % 8 == 0
  {
    assert data == before + section + (Zeros(Align8(|section|) - |section|) + rest);
    Middle(data, before, section, Zeros(Align8(|section|) - |section|) + rest);
  }

  /** The sections of a printed array, each at the aligned end of the one before. */
  ghost predicate LaidOut(data: seq<byte>, pos: seq<nat>, sections: seq<seq<byte>>) {
    && |pos| == |sections|
    && (forall i :: 0 <= i < |sections| ==> At(data, pos[i], sections[i]))
    && (forall i {:trigger Follows(pos, sections, i)} :: 0 <= i < |sections| - 1 ==> Follows(pos, sections, i))
  }

  ghost predicate Follows(pos: seq<nat>, sections: seq<seq<byte>>, i: nat)
    requires i + 1 < |sections| == |pos|
  {
    pos[i + 1] == Align8(pos[i] + |sections[i]|)
  }

  lemma {:induction false} Layout(data: seq<byte>, before: seq<byte>, sections: seq<seq<byte>>, trailing: seq<byte>)
    returns (pos: seq<nat>)
    requires |before| % 8 == 0 && data == before + PaddedAll(sections) + trailing
    ensures LaidOut(data, pos, sections) && (sections != [] ==> pos[0] == |before|)
    decreases |sections|
  {
    if sections == [] {
      pos := [];
    } else {
      var here, rest := Padded(sections[0]), PaddedAll(sections[1..]);
      assert data == before + here + (rest + trailing);
      SectionAt(data, before, sections[0], rest + trailing);
      assert data == (before + here) + rest + trailing;
      var later := Layout(data, before + here, sections[1..], trailing);
      pos := [|before|] + later;
      LaidOutMore(data, |before|, sections, later);
    }
  }

  lemma LaidOutMore(data: seq<byte>, first: nat, sections: seq<seq<byte>>, later: seq<nat>)
    requires sections != [] && At(data, first, sections[0]) && LaidOut(data, later, sections[1..])
    requires |sections| > 1 ==> later[0] == Align8(first + |sections[0]|)
    ensures LaidOut(data, [first] + later, sections)
  {
    var pos := [first] + later;
    forall i | 0 <= i < |sections| ensures At(data, pos[i], sections[i]) {
      if i > 0 {
        assert At(data, later[i - 1], sections[1..][i - 1]);
      }
    }
    forall i | 0 <= i < |sections| - 1 ensures Follows(pos, sections, i) {
      if i > 0 {
        assert Follows(later, sections[1..], i - 1);
      }
    }
  }

  lemma PrefixesStage(data: seq<byte>, h: Header, f: FsstPart, keys: Packed, offsets: Offsets.CompactOffsets, pos: nat,
                      prefixKeys: seq<PrefixKey>, p: seq<byte>, q: seq<byte>)
    requires |p| == 8 * |prefixKeys| && |prefixKeys| == (if |offsets.residuals| > 0 then |offsets.residuals| - 1 else 0)
    requires ParsePrefixKeys(p, |prefixKeys|) == prefixKeys
    requires At(data, pos, p) && At(data, Align8(pos + |p|), q) && h.prefixSize == |q|
    ensures ParsePrefixes(data, h, f, keys, offsets, pos)
         == Success(View(h.isBinary, h.isAscii, f.symbols, f.uncompressedBytes, f.compressedData, offsets, keys,
                         prefixKeys, q))
  {
    assert data[pos..][..|p|] == p;
    PrefixKeysLocal(data[pos..], p, |prefixKeys|);
  }

  /** Sections that each parse, laid out one after the other, parse together. */
  lemma Stages(ps: Parsers, data: seq<byte>, h: Header, s: seq<seq<byte>>, pos: seq<nat>,
               f: FsstPart, keys: Packed, offsets: Offsets.CompactOffsets, prefixKeys: seq<PrefixKey>)
    requires |s| == 5 && LaidOut(data, pos, s) && pos[0] == HEADER
    requires h.fsstSize == |s[0]| && ps.fsst(s[0]) == Success(f)
    requires h.keysSize == |s[1]| && ps.keys(s[1]) == Success(keys)
    requires h.offsetsSize == |s[2]| && ps.offsets(s[2]) == Success(offsets)
    requires |s[3]| == 8 * |prefixKeys| && ParsePrefixKeys(s[3], |prefixKeys|) == prefixKeys
    requires |prefixKeys| == (if |offsets.residuals| > 0 then |offsets.residuals| - 1 else 0)
    requires h.prefixSize == |s[4]|
    ensures ParseSections(ps, Success(h), data)
         == Success(View(h.isBinary, h.isAscii, f.symbols, f.uncompressedBytes, f.compressedData, offsets, keys,
                         prefixKeys, s[4]))
  {
    assert Follows(pos, s, 0) && Follows(pos, s, 1) && Follows(pos, s, 2) && Follows(pos, s, 3);
    PrefixesStage(data, h, f, keys, offsets, pos[3], prefixKeys, s[3], s[4]);
    assert ParseOffsets(ps, data, h, f, keys, pos[2]) == ParsePrefixes(data, h, f, keys, offsets, pos[3]);
    assert ParseKeys(ps, data, h, f, pos[1]) == ParseOffsets(ps, data, h, f, keys, pos[2]);
  }

  lemma FiveSections(a: seq<byte>, b: seq<byte>, c: seq<byte>, d: seq<byte>, e: seq<byte>)
    ensures PaddedAll([a, b, c, d, e]) == Padded(a) + Padded(b) + Padded(c) + Padded(d) + Padded(e)
  {
    assert PaddedAll([]) == [];
    assert [e][1..] == [] && [d, e][1..] == [e] && [c, d, e][1..] == [d, e];
    assert [b, c, d, e][1..] == [c, d, e] && [a, b, c, d, e][1..] == [b, c, d, e];
    assert PaddedAll([e]) == Padded(e);
    assert PaddedAll([d, e]) == Padded(d) + Padded(e);
    assert PaddedAll([c, d, e]) == Padded(c) + Padded(d) + Padded(e);
    assert PaddedAll([b, c, d, e]) == Padded(b) + Padded(c) + Padded(d) + Padded(e);
  }

  /** Parsing undoes printing, whatever bytes follow. */
  lemma ParseUndoesPrint(v: View, trailing: seq<byte>)
    requires Storable(v)
    ensures Parse(Print(v) + trailing) == Success(v)
  {
    var h, s := HeaderOf(v), Sections(v);
    var head, body := PrintHeader(h), PaddedAll(s);
    var data := Print(v) + trailing;
    HeadFirst(head, body, trailing, data);
    HeaderRoundTrip(h, data, body + trailing);
    var pos := Layout(data, head, s, trailing);
    SectionsParse(v, data, h, s, pos);
  }

  lemma HeadFirst(head: seq<byte>, body: seq<byte>, trailing: seq<byte>, data: seq<byte>)
    requires data == (head + body) + trailing
    ensures data == head + (body + trailing)
  {
  }

  lemma SectionsParse(v: View, data: seq<byte>, h: Header, s: seq<seq<byte>>, pos: seq<nat>)
    requires Storable(v) && h == HeaderOf(v) && s == Sections(v)
    requires LaidOut(data, pos, s) && pos[0] == HEADER
    ensures ParseSections(PARSERS, Success(h), data) == Success(v)
  {
    var f := FsstPart(v.symbols, v.uncompressedBytes, v.compressedData);
    PartsParse(v, s, f);
    Stages(PARSERS, data, h, s, pos, f, v.keys, v.offsets, v.prefixKeys);
  }

  lemma PartsParse(v: View, s: seq<seq<byte>>, f: FsstPart)
    requires Storable(v) && s == Sections(v) && f == FsstPart(v.symbols, v.uncompressedBytes, v.compressedData)
    ensures PARSERS.fsst(s[0]) == Success(f) && PARSERS.keys(s[1]) == Success(v.keys)
    ensures PARSERS.offsets(s[2]) == Success(v.offsets)
    ensures |s[3]| == 8 * |v.prefixKeys| && ParsePrefixKeys(s[3], |v.prefixKeys|) == v.prefixKeys
  {
    SectionList(v, s);
    FsstParses(v);
    KeysParse(v);
    OffsetsParse(v);
    PrefixKeysRoundTrip(v.prefixKeys);
  }

  lemma SectionList(v: View, s: seq<seq<byte>>)
    requires HasFields(v) && s == Sections(v)
    ensures s[0] == FsstSection(v) && s[1] == BitPacked.Print(v.keys) && s[2] == Offsets.Print(v.offsets)
    ensures s[3] == PrintPrefixKeys(v.prefixKeys) && s[4] == v.sharedPrefix
  {
  }

  lemma FsstParses(v: View)
    requires Storable(v)
    ensures PARSERS.fsst(FsstSection(v)) == Success(FsstPart(v.symbols, v.uncompressedBytes, v.compressedData))
  {
    FsstRoundTrip(FsstPart(v.symbols, v.uncompressedBytes, v.compressedData));
  }

  lemma KeysParse(v: View)
    requires Storable(v)
    ensures PARSERS.keys(BitPacked.Print(v.keys)) == Success(v.keys)
  {
    KeysRoundTrip(v.keys);
  }

  lemma OffsetsParse(v: View)
    requires Storable(v)
    ensures PARSERS.offsets(Offsets.Print(v.offsets)) == Success(v.offsets)
  {
    Offsets.ParseUndoesPrint(v.offsets);
  }

  lemma KeysRoundTrip(keys: Packed)
    requires keys.bitWidth < 256
    requires keys.length < TWO_32 && |keys.nullBitmap| < TWO_32 && |keys.packedData| < TWO_32
    ensures BitPacked.Parse(BitPacked.Print(keys)) == Success(keys)
  {
    var k := BitPacked.Print(keys);
    assert k + [] == k;
    BitPacked.ParseUndoesPrint(keys, []);
  }

  /** Only the section itself matters to the prefix keys. */
  lemma PrefixKeysLocal(s: seq<byte>, p: seq<byte>, n: nat)
    requires 8 * n == |p| <= |s| && s[..|p|] == p
    ensures ParsePrefixKeys(s, n) == ParsePrefixKeys(p, n)
  {
    forall d | 0 <= d < n ensures s[8 * d..8 * d + 7] == p[8 * d..8 * d + 7] && s[8 * d + 7] == p[8 * d + 7] {
      assert s[8 * d..8 * d + 7] == s[..|p|][8 * d..8 * d + 7];
      assert s[8 * d + 7] == s[..|p|][8 * d + 7];
    }
  }

  // ---------------------------------------------------------------- when a printed array parses back

  /** The fields of a live array: the widths of its counters and of its stored offsets. */
  ghost predicate Live(v: View) {
    && Printable(v) && |v.symbols| <= 255 && v.keys.bitWidth < 256
    && v.uncompressedBytes < TWO_64 && v.keys.length < TWO_32
  }

  /** Small sections bound the fields within them. */
  lemma LiveSmallStorable(v: View)
    requires Live(v) && Small(HeaderOf(v))
    ensures Storable(v)
  {
    assert |FsstSection(v)| >= |v.compressedData|;
    assert |BitPacked.Print(v.keys)| >= |v.keys.nullBitmap| + |v.keys.packedData|;
  }

  /** A size that does not fit loses at least 2^32. */
  lemma FieldCut(x: nat)
    ensures LE(ToLE(x, 4)) < TWO_32
    ensures x >= TWO_32 ==> LE(ToLE(x, 4)) + TWO_32 <= x
  {
    var n := 32;
    LEBound(ToLE(x, 4));
    Pow2Width(n);
    LEOfToLE(x, 4);
    SplitAt(x, n);
    ShlMul(Shr(x, n), n);
    assert 8 * 4 == n;
    if x >= TWO_32 {
      MulAtLeast(Shr(x, n), TWO_32);
    }
  }

  /** The section sizes a printed header is read with. */
  lemma HeaderCut(h: Header, data: seq<byte>, rest: seq<byte>, r: Header)
    requires data == PrintHeader(h) + rest && ParseHeader(data) == Success(r)
    ensures r.keysSize == LE(ToLE(h.keysSize, 4)) && r.offsetsSize == LE(ToLE(h.offsetsSize, 4))
    ensures r.prefixSize == LE(ToLE(h.prefixSize, 4)) && r.fsstSize == LE(ToLE(h.fsstSize, 4))
  {
    HeaderSlices(h, data, rest);
  }

  /** What parses to a part is at least as long as the part is printed, but for padding. */
  lemma FsstSized(s: seq<byte>, f: FsstPart)
    requires ParseFsst(s) == Success(f) && |f.symbols| <= 255
    ensures |s| >= |PrintFsst(f)|
  {
  }

  lemma KeysSized(s: seq<byte>, k: Packed)
    requires BitPacked.Parse(s) == Success(k) && k.bitWidth < 256
    ensures |s| + 7 >= |BitPacked.Print(k)|
  {
  }

  lemma OffsetsSized(s: seq<byte>, o: Offsets.CompactOffsets)
    requires Offsets.Parse(s) == Success(o)
    ensures |s| >= |Offsets.Print(o)|
  {
    var w := Offsets.ResidualBytes(o.offsetBytes);
    WholeItems(|s| - 9, w);
    assert |o.residuals| == (|s| - 9) / w;
  }

  lemma WholeItems(n: nat, w: nat)
    requires w > 0
    ensures w * (n / w) <= n
  {
  }

  lemma KeysStage(ps: Parsers, data: seq<byte>, h: Header, f: FsstPart, pos: nat, v: View)
    returns (k: seq<byte>, end: nat)
    requires ParseKeys(ps, data, h, f, pos) == Success(v)
    ensures |k| == h.keysSize && ps.keys(k).Success?
    ensures ParseOffsets(ps, data, h, f, ps.keys(k).value, end) == Success(v)
  {
    k, end := data[pos..pos + h.keysSize], Align8(pos + h.keysSize);
  }

  lemma OffsetsStage(ps: Parsers, data: seq<byte>, h: Header, f: FsstPart, k: Packed, pos: nat, v: View)
    returns (o: seq<byte>, end: nat)
    requires ParseOffsets(ps, data, h, f, k, pos) == Success(v)
    ensures |o| == h.offsetsSize && ps.offsets(o).Success?
    ensures ParsePrefixes(data, h, f, k, ps.offsets(o).value, end) == Success(v)
  {
    o, end := data[pos..pos + h.offsetsSize], Align8(pos + h.offsetsSize);
  }

  lemma LastStage(data: seq<byte>, h: Header, f: FsstPart, k: Packed, o: Offsets.CompactOffsets, pos: nat, v: View)
    requires ParsePrefixes(data, h, f, k, o, pos) == Success(v)
    ensures f == FsstPart(v.symbols, v.uncompressedBytes, v.compressedData) && k == v.keys && o == v.offsets
    ensures h.prefixSize == |v.sharedPrefix|
  {
  }

  /** An array that parses was parsed from sections of the sizes of its header. */
  lemma ParsedSections(ps: Parsers, data: seq<byte>, h: Header, v: View)
    returns (f: seq<byte>, k: seq<byte>, o: seq<byte>)
    requires ParseSections(ps, Success(h), data) == Success(v)
    ensures |f| == h.fsstSize && ps.fsst(f) == Success(FsstPart(v.symbols, v.uncompressedBytes, v.compressedData))
    ensures |k| == h.keysSize && ps.keys(k) == Success(v.keys)
    ensures |o| == h.offsetsSize && ps.offsets(o) == Success(v.offsets)
    ensures h.prefixSize == |v.sharedPrefix|
  {
    f := data[HEADER..HEADER + h.fsstSize];
    var pos;
    k, pos := KeysStage(ps, data, h, ps.fsst(f).value, Align8(HEADER + h.fsstSize), v);
    o, pos := OffsetsStage(ps, data, h, ps.fsst(f).value, ps.keys(k).value, pos, v);
    LastStage(data, h, ps.fsst(f).value, ps.keys(k).value, ps.offsets(o).value, pos, v);
  }

  /** An array that comes back had sections that fit. */
  lemma ParsedIsSmall(v: View, trailing: seq<byte>)
    requires HasFields(v) && Parse(Print(v) + trailing) == Success(v)
    ensures Small(HeaderOf(v))
  {
    var h, data := HeaderOf(v), Print(v) + trailing;
    var r := ParseHeader(data).value;
    HeadFirst(PrintHeader(h), PaddedAll(Sections(v)), trailing, data);
    HeaderCut(h, data, PaddedAll(Sections(v)) + trailing, r);
    var f, k, o := ParsedSections(PARSERS, data, r, v);
    FsstSized(f, FsstPart(v.symbols, v.uncompressedBytes, v.compressedData));
    KeysSized(k, v.keys);
    OffsetsSized(o, v.offsets);
    FieldCut(h.fsstSize);
    FieldCut(h.keysSize);
    FieldCut(h.offsetsSize);
    FieldCut(h.prefixSize);
  }

  /** A printed array parses back to itself, whatever bytes follow, if and only if the size of every section fits its
      32-bit field. */
  lemma ParsesBackIff(v: View, trailing: seq<byte>)
    requires Live(v)
    ensures Parse(Print(v) + trailing) == Success(v) <==> Small(HeaderOf(v))
  {
    if Small(HeaderOf(v)) {
      LiveSmallStorable(v);
      ParseUndoesPrint(v, trailing);
    }
    if Parse(Print(v) + trailing) == Success(v) {
      ParsedIsSmall(v, trailing);
    }
  }

  // ---------------------------------------------------------------- writing and reading arrays

  method PadTo8(out: seq<byte>) returns (r: seq<byte>)
    ensures r == Padded(out)
  {
    r := out;
    while |r| % 8 != 0
      invariant |out| <= |r| <= Align8(|out|) && r == out + Zeros(|r| - |out|)
      decreases Align8(|out|) - |r|
    {
      r := r + [0];
    }
  }

  lemma PadAfter(before: seq<byte>, section: seq<byte>)
    requires |before| % 8 == 0
    ensures Padded(before + section) == before + Padded(section)
    ensures |before + Padded(section)| % 8 == 0
  {
  }

  /** Appends a section and pads. */
  method WriteSection(out: seq<byte>, section: seq<byte>) returns (r: seq<byte>)
    requires |out| % 8 == 0
    ensures r == out + Padded(section) && |r| % 8 == 0
  {
    PadAfter(out, section);
    r := PadTo8(out + section);
  }

  method WriteFsst(c: FsstCompressor, uncompressedBytes: nat, compressedData: seq<byte>) returns (s: seq<byte>)
    requires |c.symbols| <= 255
    ensures s == PrintFsst(FsstPart(c.symbols, uncompressedBytes, compressedData))
  {
    s := c.SaveSymbolTable([]);
    s := s + ToLE(uncompressedBytes, 8);
    s := s + ToLE(|compressedData|, 4);
    s := s + compressedData;
  }

  method WritePrefixKeys(keys: seq<PrefixKey>) returns (s: seq<byte>)
    requires forall d :: 0 <= d < |keys| ==> |keys[d].prefix7| == 7
    ensures s == PrintPrefixKeys(keys)
  {
    s := [];
    for d := 0 to |keys|
      invariant s == PrintPrefixKeys(keys[..d])
    {
      assert keys[..d + 1][..d] == keys[..d];
      s := s + keys[d].prefix7 + [keys[d].lenByte];
    }
    assert keys[..|keys|] == keys;
  }

  method ToBytes(a: LiquidByteViewArray) returns (out: seq<byte>)
    requires HasFields(a.AsView())
    ensures out == Print(a.AsView())
  {
    var fsst := WriteFsst(a.compressor, a.uncompressedBytes, a.compressedData);
    var keys := a.dictionaryKeys.Serialize([]);
    assert keys == BitPacked.Print(a.dictionaryKeys.View());
    var offsets := Offsets.ToBytes(a.compactOffsets);
    var prefixes := WritePrefixKeys(a.prefixKeys);
    var head := PrintHeader(Header(a.isBinary, a.isAscii, |keys|, |offsets|, |a.sharedPrefix|, |fsst|));
    out := WriteAll(head, fsst, keys, offsets, prefixes, a.sharedPrefix);
  }

  method WriteAll(head: seq<byte>, fsst: seq<byte>, keys: seq<byte>, offsets: seq<byte>, prefixes: seq<byte>,
                  sharedPrefix: Text)
    returns (out: seq<byte>)
    requires |head| % 8 == 0
    ensures out == head + PaddedAll([fsst, keys, offsets, prefixes, sharedPrefix])
  {
    out := PadTo8(head);
    assert out == head;
    out := WriteSection(out, fsst);
    out := WriteSection(out, keys);
    out := WriteSection(out, offsets);
    out := WriteSection(out, prefixes);
    out := WriteSection(out, sharedPrefix);
    FiveSections(fsst, keys, offsets, prefixes, sharedPrefix);
    JoinSix(head, Padded(fsst), Padded(keys), Padded(offsets), Padded(prefixes), Padded(sharedPrefix));
  }

  lemma JoinSix(a: seq<byte>, b: seq<byte>, c: seq<byte>, d: seq<byte>, e: seq<byte>, f: seq<byte>)
    ensures a + b + c + d + e + f == a + (b + c + d + e + f)
  {
  }

  method ReadFsst(s: seq<byte>) returns (r: Result<(FsstCompressor, nat, seq<byte>)>)
    ensures r.Failure? ==> ParseFsst(s) == Failure(r.message)
    ensures r.Success? ==>
              fresh(r.value.0) && ParseFsst(s) == Success(FsstPart(r.value.0.symbols, r.value.1, r.value.2))
  {
    var l := FsstCompressor.LoadSymbolTable(s);
    if l.Failure? {
      return Failure(l.message);
    }
    var st := 1 + 9 * |l.value.symbols|;
    if st + 12 > |s| {
      return Failure("Buffer too small for RawFsstBuffer");
    }
    var compSize := LE(s[st + 8..st + 12]);
    if st + 12 + compSize > |s| {
      return Failure("FSST compressed data overflow");
    }
    r := Success((l.value, LE(s[st..st + 8]), s[st + 12..st + 12 + compSize]));
  }

  method FromBytes(data: seq<byte>) returns (r: Result<LiquidByteViewArray>)
    ensures r.Failure? ==> Parse(data) == Failure(r.message)
    ensures r.Success? ==> fresh(r.value) && fresh(r.value.compressor) && fresh(r.value.dictionaryKeys)
    ensures r.Success? ==> Parse(data) == Success(r.value.AsView()) && r.value.cachedDict == None
  {
    var ph := ParseHeader(data);
    if ph.Failure? {
      return Failure(ph.message);
    }
    var h := ph.value;
    if HEADER + h.fsstSize > |data| {
      return Failure("Buffer too small for FSST data");
    }
    var f := ReadFsst(data[HEADER..HEADER + h.fsstSize]);
    if f.Failure? {
      return Failure(f.message);
    }
    r := ReadKeys(PARSERS, data, h, f.value.0, f.value.1, f.value.2, Align8(HEADER + h.fsstSize));
  }

  method ReadKeys(ghost ps: Parsers, data: seq<byte>, h: Header, c: FsstCompressor, uncompressedBytes: nat,
                  compressedData: seq<byte>, pos: nat)
    returns (r: Result<LiquidByteViewArray>)
    requires forall s {:trigger BitPacked.Parse(s)} :: ps.keys(s) == BitPacked.Parse(s)
    requires forall s {:trigger Offsets.Parse(s)} :: ps.offsets(s) == Offsets.Parse(s)
    ensures r.Failure? ==>
              ParseKeys(ps, data, h, FsstPart(c.symbols, uncompressedBytes, compressedData), pos) == Failure(r.message)
    ensures r.Success? ==>
              fresh(r.value) && r.value.compressor == c && fresh(r.value.dictionaryKeys) && r.value.cachedDict == None
    ensures r.Success? ==>
              ParseKeys(ps, data, h, FsstPart(c.symbols, uncompressedBytes, compressedData), pos)
                  == Success(r.value.AsView())
  {
    if pos + h.keysSize > |data| {
      return Failure("Buffer too small for keys");
    }
    var k := BitPackedArray.Deserialize(data[pos..pos + h.keysSize]);
    if k.Failure? {
      return Failure(k.message);
    }
    r := ReadOffsets(ps, data, h, c, uncompressedBytes, compressedData, k.value, Align8(pos + h.keysSize));
  }

  method ReadOffsets(ghost ps: Parsers, data: seq<byte>, h: Header, c: FsstCompressor, uncompressedBytes: nat,
                     compressedData: seq<byte>, k: BitPackedArray, pos: nat)
    returns (r: Result<LiquidByteViewArray>)
    requires forall s {:trigger Offsets.Parse(s)} :: ps.offsets(s) == Offsets.Parse(s)
    ensures var p := ParseOffsets(ps, data, h, FsstPart(c.symbols, uncompressedBytes, compressedData), k.View(), pos);
            && (r.Failure? ==> p == Failure(r.message))
            && (r.Success? ==>
                fresh(r.value) && r.value.compressor == c && r.value.dictionaryKeys == k && r.value.cachedDict == None)
            && (r.Success? ==> p == Success(r.value.AsView()))
  {
    if pos + h.offsetsSize > |data| {
      return Failure("Buffer too small for offsets");
    }
    var o := Offsets.FromBytes(data[pos..pos + h.offsetsSize]);
    if o.Failure? {
      return Failure(o.message);
    }
    r := ReadPrefixes(data, h, c, uncompressedBytes, compressedData, k, o.value, Align8(pos + h.offsetsSize));
  }

  method ReadPrefixes(data: seq<byte>, h: Header, c: FsstCompressor, uncompressedBytes: nat, compressedData: seq<byte>,
                      k: BitPackedArray, o: Offsets.CompactOffsets, pos: nat)
    returns (r: Result<LiquidByteViewArray>)
    ensures var p := ParsePrefixes(data, h, FsstPart(c.symbols, uncompressedBytes, compressedData), k.View(), o, pos);
            && (r.Failure? ==> p == Failure(r.message))
            && (r.Success? ==>
                fresh(r.value) && r.value.compressor == c && r.value.dictionaryKeys == k && r.value.cachedDict == None)
            && (r.Success? ==> p == Success(r.value.AsView()))
  {
    var dictCount := if |o.residuals| > 0 then |o.residuals| - 1 else 0;
    if pos + dictCount * 8 > |data| {
      return Failure("Buffer too small for prefix keys");
    }
    var prefixKeys := ReadPrefixKeys(data, pos, dictCount);
    var end := Align8(pos + dictCount * 8);
    if end + h.prefixSize > |data| {
      return Failure("Buffer too small for shared prefix");
    }
    var a := new LiquidByteViewArray(h.isBinary, h.isAscii, c, uncompressedBytes, compressedData, o, k,
                                     prefixKeys, data[end..end + h.prefixSize]);
    r := Success(a);
  }

  /** The loop over the prefix keys. */
  method ReadPrefixKeys(data: seq<byte>, pos: nat, dictCount: nat) returns (keys: seq<PrefixKey>)
    requires pos + 8 * dictCount <= |data|
    ensures keys == ParsePrefixKeys(data[pos..], dictCount)
  {
    keys := [];
    for d := 0 to dictCount
      invariant keys == ParsePrefixKeys(data[pos..], dictCount)[..d]
    {
      var at := pos + 8 * d;
      assert data[at..at + 7] == data[pos..][8 * d..8 * d + 7];
      keys := keys + [PrefixKey(data[at..at + 7], data[at + 7])];
    }
  }

  /** A serialized array, whatever follows it, reads back as an array that decodes to the same column. */
  method RoundTrip(a: LiquidByteViewArray, trailing: seq<byte>) returns (b: LiquidByteViewArray)
    requires a.Valid() && Storable(a.AsView())
    ensures fresh(b) && b.Valid() && b.AsView() == a.AsView() && b.AsView().Decoded() == a.AsView().Decoded()
  {
    var bytes := ToBytes(a);
    ParseUndoesPrint(a.AsView(), trailing);
    var r := FromBytes(bytes + trailing);
    b := r.value;
  }
}
