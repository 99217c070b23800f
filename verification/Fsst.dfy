/** `FsstCompressor`: a table of at most 255 symbols, a lookup table by first byte, and the codec over it. */
module Fsst {
  import opened Arith
  import opened Bytes
  import opened Wrappers

  /** Eight stored bytes, of which the first `len` are the symbol. */
  datatype SymbolData = SymbolData(bytes: seq<byte>, len: byte)

  type Symbol = s: SymbolData | |s.bytes| == 8 witness SymbolData([0, 0, 0, 0, 0, 0, 0, 0], 0)

  const ESCAPE: byte := 0xFF

  function First(s: Symbol): byte { s.bytes[0] }

  // ---------------------------------------------------------------- where a counting sort puts each symbol

  /** How many of the first `n` symbols start with `b`. */
  function CountIn(syms: seq<Symbol>, n: nat, b: nat): (c: nat)
    requires n <= |syms|
    ensures c <= n
  {
    if n == 0 then 0 else CountIn(syms, n - 1, b) + (if First(syms[n - 1]) == b then 1 else 0)
  }

  /** How many of the first `n` symbols start with a byte below `b`. */
  function CountBelow(syms: seq<Symbol>, n: nat, b: nat): (c: nat)
    requires n <= |syms|
    ensures c <= n
  {
    if n == 0 then 0 else CountBelow(syms, n - 1, b) + (if First(syms[n - 1]) < b then 1 else 0)
  }

  /** The place of symbol `s`: after all smaller first bytes, and after earlier symbols with the same one. */
  function Place(syms: seq<Symbol>, s: nat): nat
    requires s < |syms|
  {
    CountBelow(syms, |syms|, First(syms[s])) + CountIn(syms, s, First(syms[s]))
  }

  lemma {:induction false} CountNext(syms: seq<Symbol>, n: nat, b: nat)
    requires n <= |syms|
    ensures CountBelow(syms, n, b + 1) == CountBelow(syms, n, b) + CountIn(syms, n, b)
  {
    if n > 0 {
      CountNext(syms, n - 1, b);
    }
  }

  lemma {:induction false} CountInMono(syms: seq<Symbol>, m: nat, n: nat, b: nat)
    requires m <= n <= |syms|
    ensures CountIn(syms, m, b) <= CountIn(syms, n, b)
  {
    if m < n {
      CountInMono(syms, m, n - 1, b);
    }
  }

  lemma {:induction false} CountBelowEnds(syms: seq<Symbol>, n: nat)
    requires n <= |syms|
    ensures CountBelow(syms, n, 0) == 0 && CountBelow(syms, n, 256) == n
  {
    if n > 0 {
      CountBelowEnds(syms, n - 1);
    }
  }

  lemma {:induction false} CountBelowMono(syms: seq<Symbol>, n: nat, a: nat, b: nat)
    requires n <= |syms| && a <= b
    ensures CountBelow(syms, n, a) <= CountBelow(syms, n, b)
  {
    if n > 0 {
      CountBelowMono(syms, n - 1, a, b);
    }
  }

  /** A symbol's place lies in the segment of its first byte. */
  lemma PlaceInSegment(syms: seq<Symbol>, s: nat)
    requires s < |syms|
    ensures CountBelow(syms, |syms|, First(syms[s])) <= Place(syms, s)
    ensures Place(syms, s) < CountBelow(syms, |syms|, First(syms[s]) + 1) <= |syms|
  {
    CountNext(syms, |syms|, First(syms[s]));
    CountInMono(syms, s + 1, |syms|, First(syms[s]));
  }

  /** Within one first byte, places keep the order of the symbols. */
  lemma PlaceOrder(syms: seq<Symbol>, s: nat, t: nat)
    requires s < t < |syms| && First(syms[s]) == First(syms[t])
    ensures Place(syms, s) < Place(syms, t)
  {
    CountInMono(syms, s + 1, t, First(syms[s]));
  }

  /** No two symbols share a place. */
  lemma PlaceInjective(syms: seq<Symbol>, s: nat, t: nat)
    requires s < |syms| && t < |syms| && Place(syms, s) == Place(syms, t)
    ensures s == t
  {
    var a, b := First(syms[s]), First(syms[t]);
    PlaceInSegment(syms, s);
    PlaceInSegment(syms, t);
    if a < b {
      CountBelowMono(syms, |syms|, a + 1, b);
    } else if b < a {
      CountBelowMono(syms, |syms|, b + 1, a);
    } else if s < t {
      PlaceOrder(syms, s, t);
    } else if t < s {
      PlaceOrder(syms, t, s);
    }
  }

  lemma PlaceFresh(syms: seq<Symbol>, s: nat)
    requires s < |syms|
    ensures Place(syms, s) < |syms|
    ensures forall t {:trigger Place(syms, t)} :: 0 <= t < s ==> Place(syms, t) != Place(syms, s)
  {
    PlaceInSegment(syms, s);
    forall t | 0 <= t < s ensures Place(syms, t) != Place(syms, s) {
      if Place(syms, t) == Place(syms, s) {
        PlaceInjective(syms, s, t);
      }
    }
  }

  /** The `k`-th symbol that starts with `b`. */
  function Nth(syms: seq<Symbol>, n: nat, b: nat, k: nat): (s: nat)
    requires n <= |syms| && k < CountIn(syms, n, b)
    ensures s < n && First(syms[s]) == b && CountIn(syms, s, b) == k
  {
    if k < CountIn(syms, n - 1, b) then Nth(syms, n - 1, b, k) else n - 1
  }

  /** Every slot is the place of some symbol. */
  lemma PlaceOnto(syms: seq<Symbol>, p: nat) returns (s: nat)
    requires p < |syms|
    ensures s < |syms| && Place(syms, s) == p
  {
    var b := 0;
    CountBelowEnds(syms, |syms|);
    while CountBelow(syms, |syms|, b + 1) <= p
      invariant b < 256 && CountBelow(syms, |syms|, b) <= p
      decreases 256 - b
    {
      b := b + 1;
    }
    CountNext(syms, |syms|, b);
    s := Nth(syms, |syms|, b, p - CountBelow(syms, |syms|, b));
  }

  /** The lookup table: every segment starts where the smaller first bytes end, and every symbol is in its place, once.
      */
  ghost predicate Grouped(syms: seq<Symbol>, idx: seq<byte>, table: seq<byte>) {
    && |idx| == 256 && |table| == 255 && |syms| <= 255
    && (forall b :: 0 <= b < 256 ==> idx[b] == CountBelow(syms, |syms|, b))
    && (forall s :: 0 <= s < |syms| ==> Place(syms, s) < |syms| && table[Place(syms, s)] == s)
  }

  /** A slot of a segment holds a symbol of that segment, and its place is the slot. */
  lemma SlotHolds(syms: seq<Symbol>, idx: seq<byte>, table: seq<byte>, p: nat)
    requires Grouped(syms, idx, table) && p < |syms|
    ensures table[p] < |syms| && Place(syms, table[p]) == p
  {
    var s := PlaceOnto(syms, p);
  }

  /** A table that was never built: no symbols, bounds of any content, and slots within the 255 stored symbols. */
  ghost predicate Unbuilt(syms: seq<Symbol>, idx: seq<byte>, table: seq<byte>) {
    syms == [] && |idx| == 256 && |table| == 255 && forall p :: 0 <= p < 255 ==> table[p] < 255
  }

  const NO_SYMBOL: Symbol := SymbolData([0, 0, 0, 0, 0, 0, 0, 0], 0)

  /** One of the 255 stored symbols; past the count they are empty. */
  function StoredSymbol(syms: seq<Symbol>, s: nat): Symbol
    requires s < 255
  {
    if s < |syms| then syms[s] else NO_SYMBOL
  }

  // ---------------------------------------------------------------- compression

  predicate Matches(s: Symbol, rest: seq<byte>, len: nat)
    requires len <= 8
  {
    s.len == len && len <= |rest| && s.bytes[..len] == rest[..len]
  }

  /** The lowest of the first `n` symbols of the given length that the text starts with. */
  function FirstMatch(syms: seq<Symbol>, n: nat, rest: seq<byte>, len: nat): (r: Option<nat>)
    requires n <= |syms| && len <= 8
    ensures r.Some? ==> r.value < n && Matches(syms[r.value], rest, len)
    ensures r.Some? ==> forall s :: 0 <= s < r.value ==> !Matches(syms[s], rest, len)
    ensures r.None? ==> forall s :: 0 <= s < n ==> !Matches(syms[s], rest, len)
  {
    if n == 0 then None
    else
      var before := FirstMatch(syms, n - 1, rest, len);
      if before.Some? then before
      else if Matches(syms[n - 1], rest, len) then Some(n - 1)
      else None
  }

  /** The symbol taken at the start of a text: of three bytes if one matches, else of two, else none. */
  function Choose(syms: seq<Symbol>, rest: seq<byte>): (r: Option<nat>)
    ensures r.Some? ==> r.value < |syms|
  {
    var three := FirstMatch(syms, |syms|, rest, 3);
    if three.Some? then three else FirstMatch(syms, |syms|, rest, 2)
  }

  /** The code stream of a text. */
  function Compressed(syms: seq<Symbol>, text: seq<byte>): seq<byte>
    requires |syms| <= 255
    decreases |text|
  {
    if text == [] then []
    else
      var c := Choose(syms, text);
      if c.Some? then [c.value] + Compressed(syms, text[syms[c.value].len..])
      else [ESCAPE, text[0]] + Compressed(syms, text[1..])
  }

  lemma CompressedStep(syms: seq<Symbol>, text: seq<byte>, i: nat)
    requires |syms| <= 255 && i < |text|
    ensures var c := Choose(syms, text[i..]);
            && (c.Some? ==> 0 < syms[c.value].len <= |text| - i)
            && Compressed(syms, text[i..]) ==
                 if c.Some? then [c.value] + Compressed(syms, text[i + syms[c.value].len..])
                 else [ESCAPE, text[i]] + Compressed(syms, text[i + 1..])
  {
    var c := Choose(syms, text[i..]);
    if c.Some? {
      assert text[i..][syms[c.value].len..] == text[i + syms[c.value].len..];
    } else {
      assert text[i..][1..] == text[i + 1..];
    }
  }

  lemma DecompressedStep(syms: seq<Symbol>, codes: seq<byte>, i: nat)
    requires Bounded(syms) && i < |codes|
    ensures Decompressed(syms, codes[i..]) ==
              if codes[i] == ESCAPE then
                if i + 1 == |codes| then [] else [codes[i + 1]] + Decompressed(syms, codes[i + 2..])
              else if codes[i] < |syms| then
                syms[codes[i]].bytes[..syms[codes[i]].len] + Decompressed(syms, codes[i + 1..])
              else [codes[i]] + Decompressed(syms, codes[i + 1..])
  {
    assert codes[i..][1..] == codes[i + 1..];
    if i + 1 < |codes| {
      assert codes[i..][2..] == codes[i + 2..];
    }
  }

  lemma Append(a: seq<byte>, b: seq<byte>, c: seq<byte>)
    ensures (a + b) + c == a + (b + c)
  {
  }

  predicate Bounded(syms: seq<Symbol>) {
    forall s :: 0 <= s < |syms| ==> syms[s].len <= 8
  }

  /** The text of a code stream; a stray code stands for itself and a final lone escape for nothing. */
  function Decompressed(syms: seq<Symbol>, codes: seq<byte>): seq<byte>
    requires Bounded(syms)
    decreases |codes|
  {
    if codes == [] then []
    else if codes[0] == ESCAPE then
      if |codes| == 1 then [] else [codes[1]] + Decompressed(syms, codes[2..])
    else if codes[0] < |syms| then
      syms[codes[0]].bytes[..syms[codes[0]].len] + Decompressed(syms, codes[1..])
    else [codes[0]] + Decompressed(syms, codes[1..])
  }

  /** What is chosen is decided by the symbols alone: three bytes before two, and the lowest index. */
  lemma ChooseExact(syms: seq<Symbol>, rest: seq<byte>)
    ensures Choose(syms, rest).None? <==>
              forall s :: 0 <= s < |syms| ==> !Matches(syms[s], rest, 3) && !Matches(syms[s], rest, 2)
    ensures Choose(syms, rest).Some? ==>
              var c := Choose(syms, rest).value;
              && (Matches(syms[c], rest, 3) || Matches(syms[c], rest, 2))
              && (syms[c].len == 2 ==> forall s :: 0 <= s < |syms| ==> !Matches(syms[s], rest, 3))
              && (forall s :: 0 <= s < c ==> !Matches(syms[s], rest, syms[c].len))
  {
    var three, two := FirstMatch(syms, |syms|, rest, 3), FirstMatch(syms, |syms|, rest, 2);
  }

  /** No code of a symbol is the escape. */
  lemma CodeIsNotEscape(syms: seq<Symbol>, rest: seq<byte>)
    requires |syms| <= 255 && Choose(syms, rest).Some?
    ensures Choose(syms, rest).value < ESCAPE
  {
  }

  /** Decompression undoes compression, for every text and every table. */
  lemma {:induction false} DecompressCompress(syms: seq<Symbol>, text: seq<byte>)
    requires |syms| <= 255 && Bounded(syms)
    ensures Decompressed(syms, Compressed(syms, text)) == text
    decreases |text|
  {
    if text != [] {
      var c, codes := Choose(syms, text), Compressed(syms, text);
      if c.Some? {
        var len := syms[c.value].len;
        DecompressCompress(syms, text[len..]);
        assert codes[1..] == Compressed(syms, text[len..]);
        assert text == text[..len] + text[len..];
      } else {
        DecompressCompress(syms, text[1..]);
        assert codes[2..] == Compressed(syms, text[1..]);
        assert text == [text[0]] + text[1..];
      }
    }
  }

  /** Compression at most doubles a text. */
  lemma {:induction false} CompressedSize(syms: seq<Symbol>, text: seq<byte>)
    requires |syms| <= 255
    ensures |Compressed(syms, text)| <= 2 * |text|
    decreases |text|
  {
    if text != [] {
      var c := Choose(syms, text);
      CompressedSize(syms, if c.Some? then text[syms[c.value].len..] else text[1..]);
    }
  }

  /** Bytes joined by shifts and ORs, as the comparisons of the compressor join them. */
  function Word2(a: byte, b: byte): nat { Or(a, Shl(b, 8)) }

  function Word3(a: byte, b: byte, c: byte): nat { Or(Word2(a, b), Shl(c, 16)) }

  lemma OrShift(a: nat, b: nat, n: nat)
    requires a < Pow2(n)
    ensures Or(a, Shl(b, n)) == a + b * Pow2(n)
  {
    OrDisjoint(a, b, n);
    ShlMul(b, n);
  }

  lemma Word2Sum(a: byte, b: byte)
    ensures Word2(a, b) == a + 256 * b
  {
    Pow2Values();
    OrShift(a, b, 8);
  }

  lemma Word3Sum(a: byte, b: byte, c: byte)
    ensures Word3(a, b, c) == a + 256 * (b + 256 * c)
  {
    Word2Sum(a, b);
    Pow2Values();
    OrShift(Word2(a, b), c, 16);
  }

  lemma LowDigit(a: byte, m: nat, x: byte, n: nat)
    ensures a + 256 * m == x + 256 * n <==> a == x && m == n
  {
  }

  /** Joined bytes are equal precisely when the bytes are. */
  lemma Words2Equal(a: byte, b: byte, x: byte, y: byte)
    ensures Word2(a, b) == Word2(x, y) <==> a == x && b == y
  {
    Word2Sum(a, b);
    Word2Sum(x, y);
    LowDigit(a, b, x, y);
  }

  lemma Words3Equal(a: byte, b: byte, c: byte, x: byte, y: byte, z: byte)
    ensures Word3(a, b, c) == Word3(x, y, z) <==> a == x && b == y && c == z
  {
    Word3Sum(a, b, c);
    Word3Sum(x, y, z);
    LowDigit(a, b + 256 * c, x, y + 256 * z);
    LowDigit(b, c, y, z);
  }

  /** The comparisons of the compressor decide matching. */
  lemma Compare3(s: Symbol, input: seq<byte>, i: nat)
    requires i + 3 <= |input|
    ensures s.len == 3 && Word3(input[i], input[i + 1], input[i + 2]) == Word3(s.bytes[0], s.bytes[1], s.bytes[2])
       <==> Matches(s, input[i..], 3)
  {
    Words3Equal(input[i], input[i + 1], input[i + 2], s.bytes[0], s.bytes[1], s.bytes[2]);
    var a, b := s.bytes[..3], input[i..][..3];
    assert a == b <==> a[0] == b[0] && a[1] == b[1] && a[2] == b[2];
  }

  lemma Compare2(s: Symbol, input: seq<byte>, i: nat)
    requires i + 2 <= |input|
    ensures s.len == 2 && Word2(input[i], input[i + 1]) == Word2(s.bytes[0], s.bytes[1])
       <==> Matches(s, input[i..], 2)
  {
    Words2Equal(input[i], input[i + 1], s.bytes[0], s.bytes[1]);
    var a, b := s.bytes[..2], input[i..][..2];
    assert a == b <==> a[0] == b[0] && a[1] == b[1];
  }

  // ---------------------------------------------------------------- saved form

  /** The count, the lengths, and eight bytes a symbol. */
  function Saved(syms: seq<Symbol>): seq<byte>
    requires |syms| <= 255
  {
    [|syms|] + Lengths(syms) + Stored(syms)
  }

  function Lengths(syms: seq<Symbol>): (s: seq<byte>)
    ensures |s| == |syms|
  {
    seq(|syms|, i requires 0 <= i < |syms| => syms[i].len)
  }

  function Stored(syms: seq<Symbol>): (s: seq<byte>)
    ensures |s| == 8 * |syms|
  {
    if syms == [] then [] else Stored(syms[..|syms| - 1]) + syms[|syms| - 1].bytes
  }

  lemma {:induction false} StoredAt(syms: seq<Symbol>, i: nat)
    requires i < |syms|
    ensures Stored(syms)[8 * i..8 * i + 8] == syms[i].bytes
  {
    var init := syms[..|syms| - 1];
    if i < |syms| - 1 {
      StoredAt(init, i);
      assert Stored(syms)[8 * i..8 * i + 8] == Stored(init)[8 * i..8 * i + 8];
    }
  }

  function Loaded(data: seq<byte>): Result<seq<Symbol>> {
    if data == [] then Success([])
    else
      var n := data[0];
      if 1 + n > |data| then Failure("FSST: buffer too small for symbol lengths")
      else if 1 + n + 8 * n > |data| then Failure("FSST: buffer too small for symbols")
      else Success(seq(n, i requires 0 <= i < n =>
                     SymbolData(data[1 + n + 8 * i..1 + n + 8 * i + 8], data[1 + i])))
  }

  /** Where everything is: the count, the lengths, and eight bytes for every symbol. */
  lemma SavedLayout(syms: seq<Symbol>, i: nat)
    requires i < |syms| <= 255
    ensures var s, n := Saved(syms), |syms|;
            && |s| == 1 + 9 * n && s[0] == n && s[1 + i] == syms[i].len
            && s[1 + n + 8 * i..1 + n + 8 * i + 8] == syms[i].bytes
  {
    StoredAt(syms, i);
  }

  /** Loading fails precisely when the bytes end before the last symbol that the count announces. */
  lemma LoadedIff(data: seq<byte>)
    ensures Loaded(data).Success? <==> data == [] || 1 + 9 * data[0] <= |data|
    ensures Loaded(data).Success? ==> |Loaded(data).value| == if data == [] then 0 else data[0]
  {
  }

  /** Loading undoes saving, whatever bytes follow. */
  lemma LoadUndoesSave(syms: seq<Symbol>, trailing: seq<byte>)
    requires |syms| <= 255
    ensures Loaded(Saved(syms) + trailing) == Success(syms)
  {
    var data, n := Saved(syms) + trailing, |syms|;
    assert Loaded(data).Success?;
    var r := Loaded(data).value;
    forall i | 0 <= i < n ensures r[i] == syms[i] {
      StoredAt(syms, i);
      assert data[1 + i] == Lengths(syms)[i];
      assert data[1 + n + 8 * i..1 + n + 8 * i + 8] == Stored(syms)[8 * i..8 * i + 8];
    }
    assert r == syms;
  }

  // ---------------------------------------------------------------- the compressor

  class FsstCompressor {
    var symbols: seq<Symbol>
    const firstByteIdx: array<byte>
    const firstByteSyms: array<byte>

    /** The table is built: what `train` and `load_symbol_table` leave, whatever symbols were chosen. */
    ghost predicate Valid()
      reads this, firstByteIdx, firstByteSyms
    {
      Grouped(symbols, firstByteIdx[..], firstByteSyms[..])
    }

    /** The table is built, or there is none and its slots stay within the stored symbols, of which none has a length.
        */
    ghost predicate Usable()
      reads this, firstByteIdx, firstByteSyms
    {
      Valid() || Unbuilt(symbols, firstByteIdx[..], firstByteSyms[..])
    }

    /** A copy of everything, the table included. */
    constructor Copy(other: FsstCompressor)
      requires other.Usable()
      ensures symbols == other.symbols && fresh(firstByteIdx) && fresh(firstByteSyms) && Usable()
    {
      symbols := other.symbols;
      var bounds, slots := other.firstByteIdx, other.firstByteSyms;
      firstByteIdx := new byte[256](i requires 0 <= i < 256 && bounds.Length == 256 reads bounds => bounds[i]);
      firstByteSyms := new byte[255](i requires 0 <= i < 255 && slots.Length == 255 reads slots => slots[i]);
      new;
      assert firstByteIdx[..] == bounds[..] && firstByteSyms[..] == slots[..];
    }

    constructor Untrained()
      ensures symbols == [] && fresh(firstByteIdx) && fresh(firstByteSyms)
      ensures firstByteIdx.Length == 256 && firstByteSyms.Length == 255
    {
      symbols := [];
      firstByteIdx := new byte[256];
      firstByteSyms := new byte[255];
    }

    /** A compressor over the symbols that training selects, with its lookup table. */
    constructor (selected: seq<Symbol>)
      requires |selected| <= 255
      ensures symbols == selected && fresh(firstByteIdx) && fresh(firstByteSyms)
      ensures Valid()
    {
      symbols := selected;
      firstByteIdx := new byte[256];
      firstByteSyms := new byte[255];
      new;
      BuildLookupTable();
    }

    /** A counting sort of the symbol indices by first byte, in 8-bit registers. */
    method BuildLookupTable()
      requires |symbols| <= 255 && firstByteIdx.Length == 256 && firstByteSyms.Length == 255
      requires firstByteIdx != firstByteSyms
      modifies firstByteIdx, firstByteSyms
      ensures Valid()
    {
      var counts := CountFirstBytes();
      SumCounts(counts);
      PlaceSymbols();
    }

    /** The bounds of the segments, as running sums. */
    method SumCounts(counts: array<byte>)
      requires |symbols| <= 255 && firstByteIdx.Length == counts.Length == 256 && counts != firstByteIdx
      requires forall a :: 0 <= a < 256 ==> counts[a] == CountIn(symbols, |symbols|, a)
      modifies firstByteIdx
      ensures forall a :: 0 <= a < 256 ==> firstByteIdx[a] == CountBelow(symbols, |symbols|, a)
    {
      firstByteIdx[0] := 0;
      CountBelowEnds(symbols, |symbols|);
      for b := 0 to 255
        invariant forall a :: 0 <= a <= b ==> firstByteIdx[a] == CountBelow(symbols, |symbols|, a)
      {
        CountNext(symbols, |symbols|, b);
        var sum: nat := firstByteIdx[b];
        sum := sum + counts[b];
        firstByteIdx[b + 1] := sum % 256;
      }
    }

    method CountFirstBytes() returns (counts: array<byte>)
      requires |symbols| <= 255
      ensures fresh(counts) && counts.Length == 256
      ensures forall b :: 0 <= b < 256 ==> counts[b] == CountIn(symbols, |symbols|, b)
    {
      counts := new byte[256](_ => 0);
      for s := 0 to |symbols|
        invariant forall b :: 0 <= b < 256 ==> counts[b] == CountIn(symbols, s, b)
      {
        var fb := First(symbols[s]);
        var count: nat := counts[fb];
        counts[fb] := (count + 1) % 256;
      }
    }

    /** Fills the slots, each symbol at the position its first byte has reached. */
    method PlaceSymbols()
      requires |symbols| <= 255 && firstByteIdx.Length == 256 && firstByteSyms.Length == 255
      requires firstByteIdx != firstByteSyms
      requires forall b :: 0 <= b < 256 ==> firstByteIdx[b] == CountBelow(symbols, |symbols|, b)
      modifies firstByteSyms
      ensures Valid()
    {
      var pos := new byte[256](i requires 0 <= i < 256 reads firstByteIdx => firstByteIdx[i]);
      for s := 0 to |symbols|
        invariant forall b :: 0 <= b < 256 ==> pos[b] == CountBelow(symbols, |symbols|, b) + CountIn(symbols, s, b)
        invariant forall t :: 0 <= t < s ==> Place(symbols, t) < |symbols| && firstByteSyms[Place(symbols, t)] == t
      {
        PlaceOne(pos, s);
      }
    }

    /** Puts one symbol into the next slot of its first byte. */
    method PlaceOne(pos: array<byte>, s: nat)
      requires s < |symbols| <= 255 && pos.Length == 256 && firstByteSyms.Length == 255 && pos != firstByteSyms
      requires forall b :: 0 <= b < 256 ==> pos[b] == CountBelow(symbols, |symbols|, b) + CountIn(symbols, s, b)
      requires forall t :: 0 <= t < s ==> Place(symbols, t) < |symbols| && firstByteSyms[Place(symbols, t)] == t
      modifies pos, firstByteSyms
      ensures forall b :: 0 <= b < 256 ==> pos[b] == CountBelow(symbols, |symbols|, b) + CountIn(symbols, s + 1, b)
      ensures forall t :: 0 <= t <= s ==> Place(symbols, t) < |symbols| && firstByteSyms[Place(symbols, t)] == t
    {
      var fb := First(symbols[s]);
      PlaceFresh(symbols, s);
      var slot: nat := pos[fb];
      firstByteSyms[slot] := s;
      pos[fb] := (slot + 1) % 256;
    }

    /** The longest symbol at a position, or -1. */
    method BestSymbol(input: seq<byte>, i: nat) returns (bestSym: int)
      requires Usable() && i < |input|
      ensures bestSym == if Choose(symbols, input[i..]).Some? then Choose(symbols, input[i..]).value else -1
    {
      var firstByte := input[i];
      var start: nat := firstByteIdx[firstByte];
      var end: nat := if firstByte < 255 then firstByteIdx[firstByte + 1] else |symbols|;
      ghost var rest, bounds, table := input[i..], firstByteIdx[..], firstByteSyms[..];
      SegmentBounds(symbols, bounds, table, rest, start, end);
      bestSym := -1;
      if i + 3 <= |input| {
        var idx := start;
        while idx < end
          invariant start <= idx && (idx <= end || idx == start)
          invariant NoneBefore(symbols, table, start, idx, rest, 3)
        {
          SlotStep(symbols, bounds, table, start, end, idx, rest, 3);
          var s := firstByteSyms[idx];
          var sym := StoredSymbol(symbols, s);
          Compare3(sym, input, i);
          if sym.len == 3 &&
             Word3(input[i], input[i + 1], input[i + 2]) == Word3(sym.bytes[0], sym.bytes[1], sym.bytes[2]) {
            return s;
          }
          idx := idx + 1;
        }
      }
      NotInSegment(symbols, bounds, table, start, end, rest, 3);
      if i + 2 <= |input| {
        var idx := start;
        while idx < end
          invariant start <= idx && (idx <= end || idx == start)
          invariant NoneBefore(symbols, table, start, idx, rest, 2)
        {
          SlotStep(symbols, bounds, table, start, end, idx, rest, 2);
          var s := firstByteSyms[idx];
          var sym := StoredSymbol(symbols, s);
          Compare2(sym, input, i);
          if sym.len == 2 && Word2(input[i], input[i + 1]) == Word2(sym.bytes[0], sym.bytes[1]) {
            return s;
          }
          idx := idx + 1;
        }
      }
      NotInSegment(symbols, bounds, table, start, end, rest, 2);
    }

    /** Never looks at the table when there is nothing to compress. */
    method Compress(input: seq<byte>) returns (output: seq<byte>)
      requires |symbols| <= 255 && (input != [] ==> Usable())
      ensures output == Compressed(symbols, input)
    {
      output := [];
      var i := 0;
      while i < |input|
        invariant i <= |input|
        invariant output + Compressed(symbols, input[i..]) == Compressed(symbols, input)
      {
        var bestSym := BestSymbol(input, i);
        CompressedStep(symbols, input, i);
        if bestSym >= 0 {
          var len := symbols[bestSym].len;
          Append(output, [bestSym], Compressed(symbols, input[i + len..]));
          output := output + [bestSym];
          i := i + len;
        } else {
          Append(output, [ESCAPE, input[i]], Compressed(symbols, input[i + 1..]));
          output := output + [ESCAPE, input[i]];
          i := i + 1;
        }
      }
      assert input[i..] == [];
    }

    static method Decompress(symbols: seq<Symbol>, input: seq<byte>) returns (output: seq<byte>)
      requires Bounded(symbols)
      ensures output == Decompressed(symbols, input)
    {
      output := [];
      var i := 0;
      while i < |input|
        invariant i <= |input|
        invariant output + Decompressed(symbols, input[i..]) == Decompressed(symbols, input)
      {
        DecompressedStep(symbols, input, i);
        var code := input[i];
        i := i + 1;
        if code == ESCAPE {
          if i >= |input| { break; }
          Append(output, [input[i]], Decompressed(symbols, input[i + 1..]));
          output := output + [input[i]];
          i := i + 1;
        } else if code < |symbols| {
          Append(output, symbols[code].bytes[..symbols[code].len], Decompressed(symbols, input[i..]));
          output := output + symbols[code].bytes[..symbols[code].len];
        } else {
          Append(output, [code], Decompressed(symbols, input[i..]));
          output := output + [code];
        }
      }
    }

    method SaveSymbolTable(out: seq<byte>) returns (r: seq<byte>)
      requires |symbols| <= 255
      ensures r == out + Saved(symbols)
    {
      r := out + [|symbols|];
      for i := 0 to |symbols|
        invariant r == out + [|symbols|] + Lengths(symbols)[..i]
      {
        r := r + [symbols[i].len];
      }
      for i := 0 to |symbols|
        invariant r == out + [|symbols|] + Lengths(symbols) + Stored(symbols[..i])
      {
        assert symbols[..i + 1][..i] == symbols[..i];
        r := r + symbols[i].bytes;
      }
      assert symbols[..|symbols|] == symbols;
    }

    static method LoadSymbolTable(data: seq<byte>) returns (r: Result<FsstCompressor>)
      ensures r.Failure? ==> Loaded(data) == Failure(r.message)
      ensures r.Success? ==> fresh(r.value) && Loaded(data) == Success(r.value.symbols)
      ensures r.Success? && data != [] ==> r.value.Valid()
    {
      var comp := new FsstCompressor.Untrained();
      if |data| == 0 {
        return Success(comp);
      }
      var n := data[0];
      if 1 + n > |data| {
        return Failure("FSST: buffer too small for symbol lengths");
      }
      if 1 + n + 8 * n > |data| {
        return Failure("FSST: buffer too small for symbols");
      }
      for i := 0 to n
        invariant |comp.symbols| == i
        invariant forall j :: 0 <= j < i ==> comp.symbols[j] == Loaded(data).value[j]
      {
        comp.symbols := comp.symbols + [SymbolData(data[1 + n + 8 * i..1 + n + 8 * i + 8], data[1 + i])];
      }
      assert comp.symbols == Loaded(data).value;
      comp.BuildLookupTable();
      r := Success(comp);
    }
  }

  // ---------------------------------------------------------------- searching a segment

  /** The segment of the first byte of a text; in a table that was never built, any stretch of it. */
  ghost predicate Segment(syms: seq<Symbol>, idx: seq<byte>, table: seq<byte>, rest: seq<byte>, start: nat, end: nat) {
    && rest != [] && end <= 255
    && (|| Unbuilt(syms, idx, table)
        || (&& Grouped(syms, idx, table) && start <= end <= |syms|
            && start == CountBelow(syms, |syms|, rest[0]) && end == CountBelow(syms, |syms|, NextByte(rest))))
  }

  lemma SegmentBounds(syms: seq<Symbol>, idx: seq<byte>, table: seq<byte>, rest: seq<byte>, start: nat, end: nat)
    requires (Grouped(syms, idx, table) || Unbuilt(syms, idx, table)) && rest != []
    requires start == idx[rest[0]] && end == if rest[0] < 255 then idx[rest[0] + 1] else |syms|
    ensures Segment(syms, idx, table, rest, start, end)
  {
    if Grouped(syms, idx, table) {
      CountBelowEnds(syms, |syms|);
      CountNext(syms, |syms|, rest[0]);
    }
  }

  /** No symbol in the slots from `start` to `idx` matches. */
  ghost predicate NoneBefore(syms: seq<Symbol>, table: seq<byte>, start: nat, idx: nat, rest: seq<byte>, len: nat)
    requires len <= 8
  {
    forall p :: start <= p < idx && p < |table| && table[p] < |syms| ==> !Matches(syms[table[p]], rest, len)
  }

  /** A slot holds one of the stored symbols; if that matches, it is the one looked for. */
  lemma SlotStep(syms: seq<Symbol>, idx: seq<byte>, table: seq<byte>, start: nat, end: nat, p: nat, rest: seq<byte>,
                 len: nat)
    requires Segment(syms, idx, table, rest, start, end) && start <= p < end && 0 < len <= 8
    requires NoneBefore(syms, table, start, p, rest, len)
    ensures p < |table| && table[p] < 255
    ensures if Matches(StoredSymbol(syms, table[p]), rest, len)
              then FirstMatch(syms, |syms|, rest, len) == Some(table[p])
            else NoneBefore(syms, table, start, p + 1, rest, len)
  {
    if !Unbuilt(syms, idx, table) {
      SlotHolds(syms, idx, table, p);
      if Matches(syms[table[p]], rest, len) {
        FoundInSegment(syms, idx, table, start, p, rest, len);
      }
    }
  }

  function NextByte(rest: seq<byte>): nat
    requires rest != []
  {
    var b: nat := rest[0];
    b + 1
  }

  /** A matching symbol sits in the segment of the first byte of the text. */
  lemma MatchInSegment(syms: seq<Symbol>, idx: seq<byte>, table: seq<byte>, s: nat, rest: seq<byte>, len: nat)
    requires Grouped(syms, idx, table) && s < |syms| && 0 < len <= 8 && Matches(syms[s], rest, len)
    ensures First(syms[s]) == rest[0]
    ensures CountBelow(syms, |syms|, rest[0]) <= Place(syms, s) < CountBelow(syms, |syms|, NextByte(rest))
    ensures table[Place(syms, s)] == s
  {
    FirstOfMatch(syms[s], rest, len);
    PlaceInSegment(syms, s);
  }

  lemma FirstOfMatch(sym: Symbol, rest: seq<byte>, len: nat)
    requires 0 < len <= 8 && Matches(sym, rest, len)
    ensures rest != [] && First(sym) == rest[0]
  {
    assert sym.bytes[..len][0] == rest[..len][0];
  }

  lemma FoundInSegment(syms: seq<Symbol>, idx: seq<byte>, table: seq<byte>, start: nat, p: nat, rest: seq<byte>,
                       len: nat)
    requires Grouped(syms, idx, table) && 0 < len <= 8 && rest != [] && start == CountBelow(syms, |syms|, rest[0])
    requires p < |syms| && table[p] < |syms| && Place(syms, table[p]) == p
    requires Matches(syms[table[p]], rest, len) && NoneBefore(syms, table, start, p, rest, len)
    ensures FirstMatch(syms, |syms|, rest, len) == Some(table[p])
  {
    var r := FirstMatch(syms, |syms|, rest, len);
    if r.value < table[p] {
      MatchInSegment(syms, idx, table, r.value, rest, len);
      MatchInSegment(syms, idx, table, table[p], rest, len);
      PlaceOrder(syms, r.value, table[p]);
      assert false;
    }
  }

  lemma NotInSegment(syms: seq<Symbol>, idx: seq<byte>, table: seq<byte>, start: nat, end: nat, rest: seq<byte>,
                     len: nat)
    requires Segment(syms, idx, table, rest, start, end) && 0 < len <= 8
    requires |rest| < len || NoneBefore(syms, table, start, end, rest, len)
    ensures FirstMatch(syms, |syms|, rest, len) == None
  {
    var r := FirstMatch(syms, |syms|, rest, len);
    if r.Some? {
      MatchInSegment(syms, idx, table, r.value, rest, len);
      assert false;
    }
  }

  /** Compressing and decompressing with the saved and reloaded table gives the text back. */
  method RoundTrip(c: FsstCompressor, text: seq<byte>, trailing: seq<byte>) returns (back: seq<byte>)
    requires c.Usable() && Bounded(c.symbols)
    ensures back == text
  {
    var codes := c.Compress(text);
    var saved := c.SaveSymbolTable([]);
    assert saved == Saved(c.symbols);
    LoadUndoesSave(c.symbols, trailing);
    var loaded := FsstCompressor.LoadSymbolTable(saved + trailing);
    back := FsstCompressor.Decompress(loaded.value.symbols, codes);
    DecompressCompress(c.symbols, text);
  }
}
