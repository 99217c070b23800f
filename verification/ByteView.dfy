/**
  `LiquidByteViewArray`: a column of byte strings as packed keys into a dictionary, whose entries
  lose their shared prefix and are compressed one by one.
 */
module ByteView {
  import opened Arith
  import opened Arrow
  import opened BitPacked
  import opened Bytes
  import opened Chunks
  import opened FrameOfReference
  import opened Fsst
  import opened Native
  import opened Wrappers
  import Offsets

  type Text = seq<byte>

  // ---------------------------------------------------------------- dictionary

  /** The distinct values among the first `n` rows that are not null, in order of appearance. */
  function Distinct(values: seq<Text>, valid: seq<bool>, n: nat): (dict: seq<Text>)
    requires n <= |values| == |valid|
  {
    if n == 0 then []
    else
      var dict := Distinct(values, valid, n - 1);
      if valid[n - 1] && values[n - 1] !in dict then dict + [values[n - 1]] else dict
  }

  ghost predicate NoRepeats(dict: seq<Text>) {
    forall i, j :: 0 <= i < j < |dict| ==> dict[i] != dict[j]
  }

  /** The dictionary has no repeats and holds exactly the values of the rows that are not null. */
  lemma {:induction false} DistinctExact(values: seq<Text>, valid: seq<bool>, n: nat)
    requires n <= |values| == |valid|
    ensures NoRepeats(Distinct(values, valid, n))
    ensures forall i :: 0 <= i < n && valid[i] ==> values[i] in Distinct(values, valid, n)
    ensures forall v :: v in Distinct(values, valid, n) ==> exists i :: 0 <= i < n && valid[i] && values[i] == v
  {
    if n > 0 {
      DistinctExact(values, valid, n - 1);
    }
  }

  function IndexOf(dict: seq<Text>, v: Text): (d: nat)
    requires v in dict
    ensures d < |dict| && dict[d] == v
  {
    if v in dict[..|dict| - 1] then IndexOf(dict[..|dict| - 1], v) else |dict| - 1
  }

  lemma IndexKept(dict: seq<Text>, x: Text, v: Text)
    requires v in dict
    ensures IndexOf(dict + [x], v) == IndexOf(dict, v)
  {
    assert (dict + [x])[..|dict|] == dict;
  }

  /** Without repeats, an entry's index is where it stands. */
  lemma IndexUnique(dict: seq<Text>, d: nat)
    requires NoRepeats(dict) && d < |dict|
    ensures IndexOf(dict, dict[d]) == d
  {
    var e := IndexOf(dict, dict[d]);
    assert dict[e] == dict[d];
    assert !(e < d) && !(d < e);
  }

  /** Dictionary indices are 16-bit. */
  const KEYS: nat := 0x1_0000

  /** The key of a row: its index, cut to 16 bits, and 0 for a null row. */
  function KeyOf(values: seq<Text>, valid: seq<bool>, i: nat): nat
    requires i < |values| == |valid|
  {
    var dict := Distinct(values, valid, |values|);
    if valid[i] then
      DistinctExact(values, valid, |values|);
      IndexOf(dict, values[i]) % KEYS
    else 0
  }

  /** The lookup map of the loop agrees with the dictionary built so far. */
  ghost predicate MapAgrees(dictMap: map<Text, nat>, dict: seq<Text>) {
    && (forall v :: v in dictMap <==> v in dict)
    && (forall v :: v in dictMap ==> dictMap[v] == IndexOf(dict, v) % KEYS)
  }

  /** The key of a row under the dictionary built so far. */
  ghost predicate KeyAgrees(key: nat, dict: seq<Text>, value: Text, ok: bool) {
    if ok then value in dict && key == IndexOf(dict, value) % KEYS else key == 0
  }

  lemma MapExtended(dictMap: map<Text, nat>, dict: seq<Text>, val: Text)
    requires MapAgrees(dictMap, dict) && val !in dict
    ensures MapAgrees(dictMap[val := |dict| % KEYS], dict + [val])
    ensures KeyAgrees(|dict| % KEYS, dict + [val], val, true)
  {
    forall v | v in dict ensures IndexOf(dict + [val], v) == IndexOf(dict, v) {
      IndexKept(dict, val, v);
    }
    assert (dict + [val])[..|dict|] == dict;
  }

  lemma KeyKept(key: nat, dict: seq<Text>, x: Text, value: Text, ok: bool)
    requires KeyAgrees(key, dict, value, ok)
    ensures KeyAgrees(key, dict + [x], value, ok)
  {
    if ok {
      IndexKept(dict, x, value);
    }
  }

  /** The deduplicating loop. */
  method Deduplicate(values: seq<Text>, valid: seq<bool>) returns (dict: seq<Text>, keys: seq<nat>)
    requires |values| == |valid|
    ensures dict == Distinct(values, valid, |values|)
    ensures |keys| == |values| && forall i :: 0 <= i < |keys| ==> keys[i] == KeyOf(values, valid, i)
  {
    var dictMap: map<Text, nat> := map[];
    dict, keys := [], [];
    for i := 0 to |values|
      invariant dict == Distinct(values, valid, i) && |keys| == i
      invariant MapAgrees(dictMap, dict)
      invariant forall j :: 0 <= j < i ==> KeyAgrees(keys[j], dict, values[j], valid[j])
    {
      if !valid[i] {
        keys := keys + [0];
      } else {
        var val := values[i];
        if val in dictMap {
          keys := keys + [dictMap[val]];
        } else {
          var idx := |dict| % KEYS;
          MapExtended(dictMap, dict, val);
          forall j | 0 <= j < i ensures KeyAgrees(keys[j], dict + [val], values[j], valid[j]) {
            KeyKept(keys[j], dict, val, values[j], valid[j]);
          }
          dictMap := dictMap[val := idx];
          dict := dict + [val];
          keys := keys + [idx];
        }
      }
    }
  }

  // ---------------------------------------------------------------- shared prefix

  /** The longest common prefix of two texts. */
  function Common(a: Text, b: Text): Text {
    if a == [] || b == [] || a[0] != b[0] then [] else [a[0]] + Common(a[1..], b[1..])
  }

  function SharedPrefix(dict: seq<Text>): Text {
    if dict == [] then []
    else if |dict| == 1 then dict[0]
    else Common(SharedPrefix(dict[..|dict| - 1]), dict[|dict| - 1])
  }

  lemma {:induction false} CommonLongest(a: Text, b: Text, q: Text)
    ensures Common(a, b) <= a && Common(a, b) <= b
    ensures q <= a && q <= b ==> q <= Common(a, b)
  {
    if a != [] && b != [] && a[0] == b[0] {
      CommonLongest(a[1..], b[1..], if q == [] then [] else q[1..]);
    }
  }

  /** The shared prefix is a prefix of every entry, and the longest such. */
  lemma {:induction false} SharedPrefixLongest(dict: seq<Text>, q: Text)
    requires dict != []
    ensures forall d :: 0 <= d < |dict| ==> SharedPrefix(dict) <= dict[d]
    ensures (forall d :: 0 <= d < |dict| ==> q <= dict[d]) ==> q <= SharedPrefix(dict)
  {
    if |dict| > 1 {
      var init, last := dict[..|dict| - 1], dict[|dict| - 1];
      SharedPrefixLongest(init, q);
      CommonLongest(SharedPrefix(init), last, q);
      forall d | 0 <= d < |dict| ensures SharedPrefix(dict) <= dict[d] {
        if d < |dict| - 1 {
          assert dict[d] == init[d];
        }
      }
    }
  }

  lemma {:induction false} CommonIs(a: Text, b: Text, k: nat)
    requires k <= |a| && k <= |b| && a[..k] == b[..k]
    requires k == |a| || k == |b| || a[k] != b[k]
    ensures Common(a, b) == a[..k]
  {
    if k > 0 {
      assert a[0] == a[..k][0] == b[..k][0] == b[0];
      assert a[1..][..k - 1] == a[..k][1..] == b[..k][1..] == b[1..][..k - 1];
      CommonIs(a[1..], b[1..], k - 1);
    }
  }

  method ComputeSharedPrefix(dict: seq<Text>) returns (prefix: Text)
    ensures prefix == SharedPrefix(dict)
  {
    prefix := [];
    if dict != [] {
      prefix := dict[0];
      assert dict[..1] == [dict[0]];
      for d := 1 to |dict|
        invariant prefix == SharedPrefix(dict[..d])
      {
        var matchLen := 0;
        var maxCheck := Min(|prefix|, |dict[d]|);
        while matchLen < maxCheck && prefix[matchLen] == dict[d][matchLen]
          invariant matchLen <= maxCheck && prefix[..matchLen] == dict[d][..matchLen]
        {
          matchLen := matchLen + 1;
        }
        CommonIs(prefix, dict[d], matchLen);
        assert dict[..d + 1][..d] == dict[..d];
        prefix := prefix[..matchLen];
      }
      assert dict[..|dict|] == dict;
    }
  }

  // ---------------------------------------------------------------- prefix keys

  /** Up to seven bytes of a suffix, and its length up to 255. */
  datatype PrefixKey = PrefixKey(prefix7: seq<byte>, lenByte: byte)

  function MakePrefixKey(suffix: Text): (k: PrefixKey)
    ensures |k.prefix7| == 7
  {
    var copyLen := Min(7, |suffix|);
    PrefixKey(suffix[..copyLen] + Zeros(7 - copyLen), if |suffix| >= 255 then 255 else |suffix|)
  }

  /** The first seven bytes of the suffix, zeros where it is shorter, and its length up to 255. */
  lemma PrefixKeyBytes(suffix: Text, j: nat)
    requires j < 7
    ensures MakePrefixKey(suffix).prefix7[j] == if j < |suffix| then suffix[j] else 0
    ensures MakePrefixKey(suffix).lenByte == if |suffix| < 255 then |suffix| else 255
  {
  }

  /** Different keys mean different suffixes; equal keys of at most seven bytes mean equal suffixes. */
  lemma PrefixKeyDecides(a: Text, b: Text)
    ensures MakePrefixKey(a) != MakePrefixKey(b) ==> a != b
    ensures MakePrefixKey(a) == MakePrefixKey(b) && |a| <= 7 ==> a == b
  {
    if MakePrefixKey(a) == MakePrefixKey(b) && |a| <= 7 {
      assert |a| == |b|;
      assert a == MakePrefixKey(a).prefix7[..|a|];
      assert b == MakePrefixKey(b).prefix7[..|b|];
    }
  }

  // ---------------------------------------------------------------- the encoded form, as a value

  datatype View = View(
    isBinary: bool, isAscii: bool,
    symbols: seq<Symbol>, uncompressedBytes: nat, compressedData: seq<byte>,
    offsets: Offsets.CompactOffsets, keys: Packed,
    prefixKeys: seq<PrefixKey>, sharedPrefix: Text)
  {
    function DictSize(): nat {
      if |offsets.residuals| > 0 then |offsets.residuals| - 1 else 0
    }

    /** The parts fit together: every entry has its stretch of compressed bytes. */
    ghost predicate Sound() {
      && keys.Sound() && Bounded(symbols) && |symbols| <= 255
      && forall d :: 0 <= d < DictSize() ==> HasStretch(d)
    }

    ghost predicate HasStretch(d: nat)
      requires d < DictSize()
    {
      offsets.Get(d) <= offsets.Get(d + 1) <= |compressedData|
    }

    /** Dictionary entry `d`: the shared prefix, then its stretch decompressed. */
    function Entry(d: nat): Text
      requires Sound() && d < DictSize()
    {
      assert HasStretch(d);
      sharedPrefix + Decompressed(symbols, compressedData[offsets.Get(d)..offsets.Get(d + 1)])
    }

    function Entries(): (s: seq<Text>)
      requires Sound()
      ensures |s| == DictSize()
    {
      seq(DictSize(), d requires 0 <= d < DictSize() => Entry(d))
    }

    /** A null row, or one whose 16-bit key is past the dictionary, has no bytes. */
    function RowValue(i: nat): Text
      requires Sound() && i < keys.length
    {
      var key := Mask(keys.Element(i), 16);
      if !keys.IsNull(i) && key < DictSize() then Entry(key) else []
    }

    function RowValues(): (s: seq<Text>)
      requires Sound()
      ensures |s| == keys.length
    {
      seq(keys.length, i requires 0 <= i < keys.length => RowValue(i))
    }

    function Decoded(): (c: Column<Text>)
      requires Sound()
      ensures c.WellFormed()
    {
      Column(RowValues(), keys.NullBuffer())
    }
  }

  /** A row that is null, or whose key names no entry, is empty; any other is the entry of its key. */
  lemma RowOfKey(v: View, i: nat)
    requires v.Sound() && i < v.keys.length
    ensures var key := Mask(v.keys.Element(i), 16);
            && (v.keys.IsNull(i) || key >= |v.Entries()| ==> v.RowValue(i) == [])
            && (!v.keys.IsNull(i) && key < |v.Entries()| ==> v.RowValue(i) == v.Entries()[key])
  {
  }

  function Suffixes(dict: seq<Text>, prefix: Text): (s: seq<Text>)
    requires forall d :: 0 <= d < |dict| ==> |prefix| <= |dict[d]|
    ensures |s| == |dict|
    ensures forall d :: 0 <= d < |dict| ==> s[d] == dict[d][|prefix|..]
  {
    seq(|dict|, d requires 0 <= d < |dict| => dict[d][|prefix|..])
  }

  function Codes(symbols: seq<Symbol>, suffixes: seq<Text>): (s: seq<seq<byte>>)
    requires |symbols| <= 255
    ensures |s| == |suffixes|
    ensures forall d :: 0 <= d < |suffixes| ==> s[d] == Compressed(symbols, suffixes[d])
  {
    seq(|suffixes|, d requires 0 <= d < |suffixes| => Compressed(symbols, suffixes[d]))
  }

  /** A view whose compressed bytes are the compressed suffixes of a dictionary, under any table and any line. */
  ghost predicate Holds(v: View, dict: seq<Text>)
  {
    && v.keys.Sound() && Bounded(v.symbols) && |v.symbols| <= 255
    && (forall d :: 0 <= d < |dict| ==> v.sharedPrefix <= dict[d])
    && v.compressedData == Concat(Codes(v.symbols, Suffixes(dict, v.sharedPrefix)))
    && Offsets.Represents(v.offsets, Starts(Codes(v.symbols, Suffixes(dict, v.sharedPrefix))))
  }

  /** Every entry of the dictionary is decoded. */
  lemma EntriesRestored(v: View, dict: seq<Text>)
    requires Holds(v, dict)
    ensures v.Sound() && v.Entries() == dict
  {
    var suffixes := Suffixes(dict, v.sharedPrefix);
    var codes := Codes(v.symbols, suffixes);
    forall d | 0 <= d < |dict| ensures v.HasStretch(d) {
      ChunkAt(codes, d);
      OffsetsAt(v.offsets, codes, d);
    }
    forall d | 0 <= d < |dict| ensures v.Entry(d) == dict[d] {
      EntryRestored(v, codes, suffixes[d], d, dict[d]);
    }
  }

  lemma StretchRestored(symbols: seq<Symbol>, codes: seq<seq<byte>>, d: nat, suffix: Text, from: nat, to: nat)
    requires Bounded(symbols) && |symbols| <= 255 && d < |codes| && codes[d] == Compressed(symbols, suffix)
    requires from == Start(codes, d) && to == Start(codes, d + 1)
    ensures from <= to <= |Concat(codes)| && Decompressed(symbols, Concat(codes)[from..to]) == suffix
  {
    ChunkAt(codes, d);
    DecompressCompress(symbols, suffix);
  }

  lemma EntryFrom(v: View, d: nat, from: nat, to: nat)
    requires v.Sound() && d < v.DictSize() && from == v.offsets.Get(d) && to == v.offsets.Get(d + 1)
    ensures from <= to <= |v.compressedData|
    ensures v.Entry(d) == v.sharedPrefix + Decompressed(v.symbols, v.compressedData[from..to])
  {
    assert v.HasStretch(d);
  }

  lemma OffsetsAt(co: Offsets.CompactOffsets, chunks: seq<seq<byte>>, d: nat)
    requires Offsets.Represents(co, Starts(chunks)) && d < |chunks|
    ensures d + 1 < |co.residuals|
    ensures co.Get(d) == Start(chunks, d) && co.Get(d + 1) == Start(chunks, d + 1)
  {
  }

  lemma EntryRestored(v: View, codes: seq<seq<byte>>, suffix: Text, d: nat, entry: Text)
    requires v.Sound() && v.compressedData == Concat(codes) && Offsets.Represents(v.offsets, Starts(codes))
             && d < |codes|
    requires codes[d] == Compressed(v.symbols, suffix) && entry == v.sharedPrefix + suffix
    ensures v.Entry(d) == entry
  {
    OffsetsAt(v.offsets, codes, d);
    EntryFrom(v, d, Start(codes, d), Start(codes, d + 1));
    StretchRestored(v.symbols, codes, d, suffix, Start(codes, d), Start(codes, d + 1));
  }
}
