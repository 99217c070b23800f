/**
  The bulk unpacking paths. Each fills `out[..n]` with the packed fields, cut to the output
  type of `tbits` bits, and leaves the rest of `out` alone.
 */
module Unpacking {
  import opened Arith
  import opened Bytes
  import opened BitPacking

  predicate OutputWidth(tbits: nat) {
    tbits == 8 || tbits == 16 || tbits == 32 || tbits == 64
  }

  // ---------------------------------------------------------------- 32-bit loop counters

  /** The block by which each vector path steps: its guard adds the block to a 32-bit counter. */
  function VectorBlock(bw: nat): nat {
    if bw == 1 then 256 else if bw == 2 then 128 else if bw == 4 then 64
    else if bw == 8 then 32 else if bw == 16 then 16 else 8
  }

  /** Every vector path takes 256 bits of elements at a step. */
  lemma VectorBlockBits(bw: nat)
    requires bw == 1 || bw == 2 || bw == 4 || bw == 8 || bw == 16 || bw == 32
    ensures VectorBlock(bw) * bw == 256
  {
  }

  const BLOCK: nat := 64

  /** Elements of the width of the output are copied, by the vector build only. */
  predicate Copies(bw: nat, tbits: nat, avx2: bool) {
    avx2 && bw == tbits && (bw == 8 || bw == 16 || bw == 32)
  }

  predicate Vectorised(bw: nat, tbits: nat, avx2: bool) {
    Copies(bw, tbits, avx2) || (avx2 && (bw == 1 || bw == 2 || bw == 4))
  }

  /** The counts for which the loop of the chosen path comes to an end. */
  predicate Ends(n: nat, bw: nat, tbits: nat, avx2: bool) {
    bw == 0 || n == 0
    || if Vectorised(bw, tbits, avx2) then n < TWO_32 - VectorBlock(bw) else n <= TWO_32 - BLOCK
  }

  /** In numbers: where the vector build copies elements or unpacks 1, 2 or 4 bits, the count and 256 bits of
      elements must be below 2^32; elsewhere the count and 64 elements may reach it. */
  lemma EndsInNumbers(n: nat, bw: nat, tbits: nat, avx2: bool)
    requires n > 0 && bw > 0
    ensures Ends(n, bw, tbits, avx2)
       <==> if avx2 && (bw == 1 || bw == 2 || bw == 4 || (bw == tbits && (bw == 8 || bw == 16 || bw == 32)))
            then n + 256 / bw < 0x1_0000_0000 else n + 64 <= 0x1_0000_0000
  {
  }

  /** A loop that steps by `block` while `i + block <= n`, in 32 bits, finds its guard false at some step if and only if
      the count is below 2^32 less a block; from there on the sum wraps, and the guard is true at every step. */
  lemma VectorLoopEndsIff(n: nat, block: nat)
    requires n < TWO_32 && (block == 8 || block == 16 || block == 32 || block == 64 || block == 128 || block == 256)
    ensures (exists k: nat :: k * block < TWO_32 && Wrap32(k * block + block) > n) <==> n < TWO_32 - block
  {
    if n < TWO_32 - block {
      var k := n / block;
      LastStep(n, block, k);
      ModSmall(k * block + block, TWO_32);
      assert k * block < TWO_32 && Wrap32(k * block + block) > n;
    } else {
      forall k: nat | k * block < TWO_32 ensures Wrap32(k * block + block) <= n {
        StepWraps(k, block);
      }
    }
  }

  lemma LastStep(n: nat, block: nat, k: nat)
    requires block > 0 && k == n / block
    ensures k * block <= n < k * block + block
  {
  }

  lemma StepWraps(k: nat, block: nat)
    requires block == 8 || block == 16 || block == 32 || block == 64 || block == 128 || block == 256
    requires k * block < TWO_32
    ensures Wrap32(k * block + block) <= TWO_32 - block
  {
    if k * block + block < TWO_32 {
      ModSmall(k * block + block, TWO_32);
      assert (k + 1) * block == k * block + block;
    } else {
      assert k * block + block == TWO_32;
    }
  }

  /** A loop that steps by 64 while `i < n`, in 32 bits, ends if and only if the count is at most 2^32 less 64. */
  lemma BlockedLoopEndsIff(n: nat)
    requires n < TWO_32
    ensures (exists k: nat :: k * BLOCK < TWO_32 && k * BLOCK >= n) <==> n <= 0x1_0000_0000 - 64
  {
    if n <= TWO_32 - BLOCK {
      var k := (TWO_32 - BLOCK) / BLOCK;
      assert k * BLOCK == TWO_32 - BLOCK;
    }
  }

  /** The counts for which the loop ends at every width. */
  predicate AllEnd(n: nat, avx2: bool) {
    n < TWO_32 && if avx2 then n < TWO_32 - VectorBlock(1) else n <= TWO_32 - BLOCK
  }

  lemma EndsAtAnyWidth(n: nat, bw: nat, tbits: nat, avx2: bool)
    requires AllEnd(n, avx2)
    ensures Ends(n, bw, tbits, avx2) && n + 7 < TWO_32
  {
  }

  lemma AllEndIff(n: nat, tbits: nat, avx2: bool)
    requires 0 < n < TWO_32 && OutputWidth(tbits)
    ensures AllEnd(n, avx2) <==> forall bw {:trigger Ends(n, bw, tbits, avx2)} :: 0 <= bw <= 64 ==>
              Ends(n, bw, tbits, avx2)
    ensures AllEnd(n, avx2) <==> if avx2 then n < 0x1_0000_0000 - 256 else n <= 0x1_0000_0000 - 64
  {
    assert Ends(n, 1, tbits, avx2) ==> AllEnd(n, avx2);
  }

  // ---------------------------------------------------------------- 32-bit byte indices

  /** The bytes as the copying paths index them: `i * 2` and `i * 4` are 32-bit products. */
  function Rewound(src: seq<byte>): (s: seq<byte>)
    ensures |s| == |src|
  {
    seq(|src|, k requires 0 <= k < |src| => src[k % TWO_32])
  }

  /** The bytes as the chosen path reads them. */
  function AsRead(src: seq<byte>, n: nat, bw: nat, tbits: nat, avx2: bool): (s: seq<byte>)
    ensures |s| == |src|
  {
    if Copies(bw, tbits, avx2) && n * bw > 8 * TWO_32 then Rewound(src) else src
  }

  /** A stretch that does not cross a multiple of 2^32. */
  lemma RewoundSlice(src: seq<byte>, x: nat, y: nat, q: nat, m: nat)
    requires x + m <= |src| && x == q * TWO_32 + y && y + m <= TWO_32
    ensures y + m <= |src| && Rewound(src)[x..x + m] == src[y..y + m]
  {
    MulMono(0, q, TWO_32);
    var a, b := Rewound(src)[x..x + m], src[y..y + m];
    forall k | 0 <= k < m ensures a[k] == b[k] {
      DivModUnique(x + k, TWO_32, q, y + k);
    }
  }

  /** What every path must write at `j`. */
  function Target(src: seq<byte>, bw: nat, tbits: nat, j: nat): nat {
    Mask(Field(src, bw, j), tbits)
  }

  /** A field no wider than the output type needs no cut. */
  lemma NoCut(x: nat, off: nat, bw: nat, tbits: nat)
    requires bw <= tbits
    ensures Mask(Bits(x, off, bw), tbits) == Bits(x, off, bw)
  {
    BitsBound(x, off, bw);
    Pow2Mono(bw, tbits);
    MaskSmall(Bits(x, off, bw), tbits);
  }

  /** The field at `j` is the `bw` bits at `k` of the `m`-byte word read at byte `at`. */
  lemma FieldInWord(src: seq<byte>, bw: nat, tbits: nat, j: nat, at: nat, m: nat, k: nat)
    requires bw <= tbits && at <= |src| && k + bw <= 8 * m && j * bw == 8 * at + k
    ensures Bits(ReadLE(src, at, m), k, bw) == Target(src, bw, tbits, j)
  {
    ReadField(src, at, m);
    BitsOfBits(LE(src), 8 * at, 8 * m, k, bw);
    NoCut(LE(src), j * bw, bw, tbits);
  }

  /** The field at `j` is the `bw` bits at `k` of byte `at`. */
  lemma FieldInByte(src: seq<byte>, bw: nat, tbits: nat, j: nat, at: nat, k: nat)
    requires bw <= tbits && at < |src| && k + bw <= 8 && j * bw == 8 * at + k
    ensures Bits(src[at], k, bw) == Target(src, bw, tbits, j)
  {
    LEByte(src, at);
    BitsOfBits(LE(src), 8 * at, 8, k, bw);
    NoCut(LE(src), j * bw, bw, tbits);
  }

  lemma ElementInBuffer(src: seq<byte>, bw: nat, n: nat, j: nat)
    requires n * bw <= 8 * |src| && j < n
    ensures j * bw + bw <= 8 * |src|
    ensures (j + 1) * bw == j * bw + bw
  {
    MulMono(j + 1, n, bw);
    MulDist(j, 1, bw);
  }

  /** One 32-bit word of width-1 elements. */
  method UnpackWord(src: seq<byte>, out: array<nat>, tbits: nat, bw: nat, at: nat, first: nat)
    requires OutputWidth(tbits) && bw == 1 && first == 8 * at && at + 4 <= |src| && first + 32 <= out.Length
    modifies out
    ensures forall j {:trigger Target(src, bw, tbits, j)} :: first <= j < first + 32 ==>
              out[j] == Target(src, bw, tbits, j)
    ensures forall j :: 0 <= j < first ==> out[j] == old(out[j])
    ensures forall j :: first + 32 <= j < out.Length ==> out[j] == old(out[j])
  {
    var word := ReadLE(src, at, 4);
    for b := 0 to 32
      invariant forall j {:trigger Target(src, bw, tbits, j)} :: first <= j < first + b ==>
                  out[j] == Target(src, bw, tbits, j)
      invariant forall j :: 0 <= j < first ==> out[j] == old(out[j])
      invariant forall j :: first + 32 <= j < out.Length ==> out[j] == old(out[j])
    {
      FieldInWord(src, bw, tbits, first + b, at, 4, b);
      out[first + b] := Bits(word, b, bw);
    }
  }

  /** One block of 256 width-1 elements, as eight 32-bit words. */
  method UnpackBlock1(src: seq<byte>, out: array<nat>, tbits: nat, bw: nat, at: nat, first: nat)
    requires OutputWidth(tbits) && bw == 1 && first == 8 * at && at + 32 <= |src| && first + 256 <= out.Length
    modifies out
    ensures forall j {:trigger Target(src, bw, tbits, j)} :: first <= j < first + 256 ==>
              out[j] == Target(src, bw, tbits, j)
    ensures forall j :: 0 <= j < first ==> out[j] == old(out[j])
    ensures forall j :: first + 256 <= j < out.Length ==> out[j] == old(out[j])
  {
    var blk := 0;
    while blk < 32
      invariant blk <= 32 && blk % 4 == 0
      invariant forall j {:trigger Target(src, bw, tbits, j)} :: first <= j < first + blk * 8 ==>
                  out[j] == Target(src, bw, tbits, j)
      invariant forall j :: 0 <= j < first ==> out[j] == old(out[j])
      invariant forall j :: first + 256 <= j < out.Length ==> out[j] == old(out[j])
    {
      UnpackWord(src, out, tbits, bw, at + blk, first + blk * 8);
      blk := blk + 4;
    }
  }

  /** Width 1: blocks of 256 elements, read as eight 32-bit words, then a bit-by-bit tail. */
  method UnpackWidth1(src: seq<byte>, n: nat, out: array<nat>, tbits: nat, bw: nat)
    requires OutputWidth(tbits) && bw == 1 && n * bw <= 8 * |src| && n <= out.Length && n < TWO_32 - 256
    modifies out
    ensures forall j {:trigger Target(src, bw, tbits, j)} :: 0 <= j < n ==> out[j] == Target(src, bw, tbits, j)
    ensures forall j :: n <= j < out.Length ==> out[j] == old(out[j])
  {
    var i := 0;
    ghost var k := 0;
    while Wrap32(i + 256) <= n
      invariant i == 256 * k && i <= n
      invariant forall j {:trigger Target(src, bw, tbits, j)} :: 0 <= j < i ==> out[j] == Target(src, bw, tbits, j)
      invariant forall j :: n <= j < out.Length ==> out[j] == old(out[j])
      decreases n - i
    {
      BlockFits(i, k, n, bw, 256, |src|);
      UnpackBlock1(src, out, tbits, bw, i / 8, i);
      i, k := Wrap32(i + 256), k + 1;
    }
    UnpackBits(src, n, out, tbits, bw, i);
  }

  /** While the guard holds nothing wraps, and the next block lies in the buffer: every block is 32 bytes. */
  lemma BlockFits(i: nat, k: nat, n: nat, bw: nat, block: nat, size: nat)
    requires i == block * k <= n < TWO_32 - block && block * bw == 256 && n * bw <= 8 * size
    requires Wrap32(i + block) <= n
    ensures Wrap32(i + block) == i + block == block * (k + 1) <= n
    ensures i * bw == 8 * (32 * k) && 32 * k + 32 <= size
  {
    ModSmall(i + block, TWO_32);
    MulAssoc(k, block, bw);
    MulMono(i + block, n, bw);
    MulDist(i, block, bw);
  }

  /** The counter of a vector loop: at a whole number of blocks, within the count. */
  predicate AtBlock(i: nat, n: nat, block: nat)
    requires block > 0
  {
    i <= n && i % block == 0
  }

  /** While the guard holds, the next block lies within the count; below the last block nothing wraps. */
  lemma GuardHolds(i: nat, n: nat, block: nat)
    requires block > 0 && 8 <= block <= 256 && block % 8 == 0 && n < TWO_32 - block && AtBlock(i, n, block)
             && Wrap32(i + block) <= n
    ensures Wrap32(i + block) == i + block <= n && AtBlock(i + block, n, block) && i % 8 == 0
  {
    NextBlock(i, n, block);
    Eighths(i, block);
  }

  lemma Eighths(i: nat, block: nat)
    requires block > 0 && block % 8 == 0 && i % block == 0
    ensures i % 8 == 0
  {
    var q, e := i / block, block / 8;
    assert i == q * block && block == e * 8;
    MulAssoc(q, e, 8);
    DivModUnique(i, 8, q * e, 0);
  }

  /** The bit-by-bit tail. */
  method UnpackBits(src: seq<byte>, n: nat, out: array<nat>, tbits: nat, bw: nat, from: nat)
    requires OutputWidth(tbits) && bw == 1 && n * bw <= 8 * |src| && from <= n <= out.Length
    requires forall j {:trigger Target(src, bw, tbits, j)} :: 0 <= j < from ==> out[j] == Target(src, bw, tbits, j)
    modifies out
    ensures forall j {:trigger Target(src, bw, tbits, j)} :: 0 <= j < n ==> out[j] == Target(src, bw, tbits, j)
    ensures forall j :: n <= j < out.Length ==> out[j] == old(out[j])
  {
    for i := from to n
      invariant forall j {:trigger Target(src, bw, tbits, j)} :: 0 <= j < i ==> out[j] == Target(src, bw, tbits, j)
      invariant forall j :: n <= j < out.Length ==> out[j] == old(out[j])
    {
      FieldInByte(src, bw, tbits, i, i / 8, i % 8);
      out[i] := Bits(src[i / 8], i % 8, bw);
    }
  }

  /** The `per` elements of one byte, for widths 2 and 4. */
  method UnpackByte(src: seq<byte>, out: array<nat>, tbits: nat, bw: nat, per: nat, at: nat, first: nat)
    requires OutputWidth(tbits) && ((bw == 2 && per == 4) || (bw == 4 && per == 2))
    requires at < |src| && first * bw == 8 * at && first + per <= out.Length
    modifies out
    ensures forall j {:trigger Target(src, bw, tbits, j)} :: first <= j < first + per ==>
              out[j] == Target(src, bw, tbits, j)
    ensures forall j :: 0 <= j < first ==> out[j] == old(out[j])
    ensures forall j :: first + per <= j < out.Length ==> out[j] == old(out[j])
  {
    for k := 0 to per
      invariant forall j {:trigger Target(src, bw, tbits, j)} :: first <= j < first + k ==>
                  out[j] == Target(src, bw, tbits, j)
      invariant forall j :: 0 <= j < first ==> out[j] == old(out[j])
      invariant forall j :: first + per <= j < out.Length ==> out[j] == old(out[j])
    {
      FieldInByte(src, bw, tbits, first + k, at, k * bw);
      out[first + k] := Bits(src[at], k * bw, bw);
    }
  }

  /** One block of 32 bytes of width-2 or width-4 elements. */
  method UnpackBlock32(src: seq<byte>, out: array<nat>, tbits: nat, bw: nat, per: nat, at: nat, first: nat)
    requires OutputWidth(tbits) && ((bw == 2 && per == 4) || (bw == 4 && per == 2))
    requires at + 32 <= |src| && first * bw == 8 * at && first + 32 * per <= out.Length
    modifies out
    ensures forall j {:trigger Target(src, bw, tbits, j)} :: first <= j < first + 32 * per ==>
              out[j] == Target(src, bw, tbits, j)
    ensures forall j :: 0 <= j < first ==> out[j] == old(out[j])
    ensures forall j :: first + 32 * per <= j < out.Length ==> out[j] == old(out[j])
  {
    for blk := 0 to 32
      invariant forall j {:trigger Target(src, bw, tbits, j)} :: first <= j < first + blk * per ==>
                  out[j] == Target(src, bw, tbits, j)
      invariant forall j :: 0 <= j < first ==> out[j] == old(out[j])
      invariant forall j :: first + 32 * per <= j < out.Length ==> out[j] == old(out[j])
    {
      UnpackByte(src, out, tbits, bw, per, at + blk, first + blk * per);
    }
  }

  /** The next block, after those before it. */
  method UnpackNext32(src: seq<byte>, n: nat, out: array<nat>, tbits: nat, bw: nat, per: nat, at: nat, first: nat)
    requires OutputWidth(tbits) && ((bw == 2 && per == 4) || (bw == 4 && per == 2))
    requires at + 32 <= |src| && first * bw == 8 * at && first + 32 * per <= n <= out.Length
    requires forall j {:trigger Target(src, bw, tbits, j)} :: 0 <= j < first ==> out[j] == Target(src, bw, tbits, j)
    modifies out
    ensures forall j {:trigger Target(src, bw, tbits, j)} :: 0 <= j < first + 32 * per ==>
              out[j] == Target(src, bw, tbits, j)
    ensures forall j :: n <= j < out.Length ==> out[j] == old(out[j])
  {
    UnpackBlock32(src, out, tbits, bw, per, at, first);
  }

  /** Width 2: blocks of 128 elements in 32 bytes, then single reads. */
  method UnpackWidth2(src: seq<byte>, n: nat, out: array<nat>, tbits: nat, bw: nat)
    requires OutputWidth(tbits) && bw == 2 && n * bw <= 8 * |src| && n <= out.Length && n < TWO_32 - 128
    modifies out
    ensures forall j {:trigger Target(src, bw, tbits, j)} :: 0 <= j < n ==> out[j] == Target(src, bw, tbits, j)
    ensures forall j :: n <= j < out.Length ==> out[j] == old(out[j])
  {
    var i := 0;
    ghost var k := 0;
    while Wrap32(i + 128) <= n
      invariant i == 128 * k && i <= n
      invariant forall j {:trigger Target(src, bw, tbits, j)} :: 0 <= j < i ==> out[j] == Target(src, bw, tbits, j)
      invariant forall j :: n <= j < out.Length ==> out[j] == old(out[j])
      decreases n - i
    {
      BlockFits(i, k, n, bw, 128, |src|);
      UnpackNext32(src, n, out, tbits, bw, 4, i * bw / 8, i);
      i, k := Wrap32(i + 128), k + 1;
    }
    UnpackTail(src, n, out, tbits, bw, i);
  }

  /** Width 4: blocks of 64 elements in 32 bytes, then single reads. */
  method UnpackWidth4(src: seq<byte>, n: nat, out: array<nat>, tbits: nat, bw: nat)
    requires OutputWidth(tbits) && bw == 4 && n * bw <= 8 * |src| && n <= out.Length && n < TWO_32 - 64
    modifies out
    ensures forall j {:trigger Target(src, bw, tbits, j)} :: 0 <= j < n ==> out[j] == Target(src, bw, tbits, j)
    ensures forall j :: n <= j < out.Length ==> out[j] == old(out[j])
  {
    var i := 0;
    ghost var k := 0;
    while Wrap32(i + 64) <= n
      invariant i == 64 * k && i <= n
      invariant forall j {:trigger Target(src, bw, tbits, j)} :: 0 <= j < i ==> out[j] == Target(src, bw, tbits, j)
      invariant forall j :: n <= j < out.Length ==> out[j] == old(out[j])
      decreases n - i
    {
      BlockFits(i, k, n, bw, 64, |src|);
      UnpackNext32(src, n, out, tbits, bw, 2, i * bw / 8, i);
      i, k := Wrap32(i + 64), k + 1;
    }
    UnpackTail(src, n, out, tbits, bw, i);
  }

  /** The single-read tail of the width-2 and width-4 paths. */
  method UnpackTail(src: seq<byte>, n: nat, out: array<nat>, tbits: nat, bw: nat, from: nat)
    requires bw <= 64 && n * bw <= 8 * |src| && from <= n <= out.Length
    requires forall j {:trigger Target(src, bw, tbits, j)} :: 0 <= j < from ==> out[j] == Target(src, bw, tbits, j)
    modifies out
    ensures forall j {:trigger Target(src, bw, tbits, j)} :: 0 <= j < n ==> out[j] == Target(src, bw, tbits, j)
    ensures forall j :: n <= j < out.Length ==> out[j] == old(out[j])
  {
    for i := from to n
      invariant forall j {:trigger Target(src, bw, tbits, j)} :: 0 <= j < i ==> out[j] == Target(src, bw, tbits, j)
      invariant forall j :: n <= j < out.Length ==> out[j] == old(out[j])
    {
      ElementInBuffer(src, bw, n, i);
      out[i] := Mask(ReadElement(src, i * bw, bw), tbits);
    }
  }

  lemma LaneOfVector(src: seq<byte>, at: nat, lane: nat, bytes: nat)
    requires lane + bytes <= 32 && at + 32 <= |src|
    ensures src[at..at + 32][lane..lane + bytes] == src[at + lane..at + lane + bytes]
  {
    var v := src[at..at + 32];
    var a, b := v[lane..lane + bytes], src[at + lane..at + lane + bytes];
    assert forall k :: 0 <= k < bytes ==> a[k] == v[lane + k] == src[at + (lane + k)] == b[k];
    assert a == b;
  }

  lemma LaneOffsets(first: nat, k: nat, lanes: nat, bytes: nat)
    requires k < lanes && lanes * bytes == 32
    ensures (first + k) * bytes == first * bytes + k * bytes
    ensures (first + lanes) * bytes == first * bytes + 32
    ensures k * bytes + bytes <= 32
  {
    MulDist(first, k, bytes);
    MulDist(first, lanes, bytes);
    MulDist(k, 1, bytes);
    MulMono(k + 1, lanes, bytes);
  }

  /** A multiple of a divisor of 2^32 lies that far below the next multiple of 2^32. */
  lemma AlignedFits(x: nat, m: nat, d: nat, count: nat)
    requires x == m * d && count * d == TWO_32
    ensures x % TWO_32 + d <= TWO_32
  {
    var q := x / TWO_32;
    var t := m - q * count;
    MulAssoc(q, count, d);
    MulDist(m, q * count, d);
    assert x % TWO_32 == t * d;
    if t >= count {
      MulMono(count, t, d);
      assert false;
    }
    MulMono(t + 1, count, d);
    MulDist(t, 1, d);
  }

  /** A vector starts at a multiple of 32 bytes, whose 32-bit product does not cross a multiple of 2^32. */
  lemma VectorRead(src: seq<byte>, first: nat, bytes: nat, lanes: nat)
    requires lanes * bytes == 32 && first % lanes == 0
    requires first * bytes + 32 <= |src|
    ensures Wrap32(first * bytes) + 32 <= |src|
    ensures src[Wrap32(first * bytes)..Wrap32(first * bytes) + 32] == Rewound(src)[first * bytes..first * bytes + 32]
  {
    var x, m := first * bytes, first / lanes;
    MulAssoc(m, lanes, bytes);
    AlignedFits(x, m, 32, 0x800_0000);
    RewoundSlice(src, x, x % TWO_32, x / TWO_32, 32);
  }

  /** A single element, too, is read within its 2^32 bytes. */
  lemma SingleRead(src: seq<byte>, j: nat, bytes: nat)
    requires (bytes == 1 || bytes == 2 || bytes == 4) && j * bytes + bytes <= |src|
    ensures Wrap32(j * bytes) + bytes <= |src|
    ensures src[Wrap32(j * bytes)..Wrap32(j * bytes) + bytes] == Rewound(src)[j * bytes..j * bytes + bytes]
  {
    var x := j * bytes;
    AlignedFits(x, j, bytes, if bytes == 1 then TWO_32 else if bytes == 2 then 0x8000_0000 else 0x4000_0000);
    RewoundSlice(src, x, x % TWO_32, x / TWO_32, bytes);
  }

  /** The elements of a 32-byte vector. */
  function Lanes(bytes: nat): nat {
    if bytes == 1 then 32 else if bytes == 2 then 16 else 8
  }

  /** Below the last block the 32-bit sum of the guard does not wrap. */
  lemma NextBlock(i: nat, n: nat, block: nat)
    requires i <= n < TWO_32 - block && block > 0 && i % block == 0
    ensures Wrap32(i + block) == i + block && (i + block) % block == 0
  {
    ModSmall(i + block, TWO_32);
    DivModUnique(i + block, block, i / block + 1, 0);
  }

  lemma LaneValue(read: seq<byte>, bytes: nat, first: nat, lanes: nat, k: nat, vec: seq<byte>)
    requires (bytes == 1 || bytes == 2 || bytes == 4) && lanes * bytes == 32 && k < lanes
    requires first * bytes + 32 <= |read| && vec == read[first * bytes..first * bytes + 32]
    ensures k * bytes + bytes <= |vec|
    ensures LE(vec[k * bytes..k * bytes + bytes]) == Target(read, 8 * bytes, 8 * bytes, first + k)
  {
    LaneOffsets(first, k, lanes, bytes);
    LaneOfVector(read, first * bytes, k * bytes, bytes);
    CopiedElement(read, bytes, first + k);
  }

  /** One 32-byte vector copied into consecutive elements. */
  method CopyVector(src: seq<byte>, out: array<nat>, bytes: nat, first: nat, lanes: nat)
    requires bytes == 1 || bytes == 2 || bytes == 4
    requires lanes * bytes == 32 && first % lanes == 0
    requires (first + lanes) * bytes <= |src| && first + lanes <= out.Length
    modifies out
    ensures forall j {:trigger Target(Rewound(src), 8 * bytes, 8 * bytes, j)} :: first <= j < first + lanes ==>
              out[j] == Target(Rewound(src), 8 * bytes, 8 * bytes, j)
    ensures forall j :: 0 <= j < first ==> out[j] == old(out[j])
    ensures forall j :: first + lanes <= j < out.Length ==> out[j] == old(out[j])
  {
    LaneOffsets(first, 0, lanes, bytes);
    VectorRead(src, first, bytes, lanes);
    var vec := src[Wrap32(first * bytes)..Wrap32(first * bytes) + 32];
    ghost var read := Rewound(src);
    for k := 0 to lanes
      invariant forall j {:trigger Target(read, 8 * bytes, 8 * bytes, j)} :: first <= j < first + k ==>
                  out[j] == Target(read, 8 * bytes, 8 * bytes, j)
      invariant forall j :: 0 <= j < first ==> out[j] == old(out[j])
      invariant forall j :: first + lanes <= j < out.Length ==> out[j] == old(out[j])
    {
      LaneValue(read, bytes, first, lanes, k, vec);
      out[first + k] := LE(vec[k * bytes..k * bytes + bytes]);
    }
  }

  /** Widths 8, 16 and 32 into an output of the same width: vectors of 32 bytes are copied, then single elements. */
  method UnpackCopy(src: seq<byte>, n: nat, out: array<nat>, bytes: nat, bw: nat)
    requires (bytes == 1 || bytes == 2 || bytes == 4) && bw == 8 * bytes
    requires n * bytes <= |src| && n <= out.Length && n < TWO_32 - Lanes(bytes)
    modifies out
    ensures forall j {:trigger Target(Rewound(src), bw, bw, j)} :: 0 <= j < n ==>
              out[j] == Target(Rewound(src), bw, bw, j)
    ensures forall j :: n <= j < out.Length ==> out[j] == old(out[j])
  {
    var lanes := Lanes(bytes);
    ghost var read := Rewound(src);
    var i := 0;
    while Wrap32(i + lanes) <= n
      invariant AtBlock(i, n, lanes)
      invariant forall j {:trigger Target(read, bw, bw, j)} :: 0 <= j < i ==> out[j] == Target(read, bw, bw, j)
      invariant forall j :: n <= j < out.Length ==> out[j] == old(out[j])
      decreases n - i
    {
      GuardHolds(i, n, lanes);
      MulMono(i + lanes, n, bytes);
      CopyVector(src, out, bytes, i, lanes);
      i := Wrap32(i + lanes);
    }
    CopySingles(src, n, out, bytes, i);
  }

  /** The single-element tail of the copies. */
  method CopySingles(src: seq<byte>, n: nat, out: array<nat>, bytes: nat, from: nat)
    requires bytes == 1 || bytes == 2 || bytes == 4
    requires n * bytes <= |src| && from <= n <= out.Length
    requires forall j {:trigger Target(Rewound(src), 8 * bytes, 8 * bytes, j)} :: 0 <= j < from ==>
               out[j] == Target(Rewound(src), 8 * bytes, 8 * bytes, j)
    modifies out
    ensures forall j {:trigger Target(Rewound(src), 8 * bytes, 8 * bytes, j)} :: 0 <= j < n ==>
              out[j] == Target(Rewound(src), 8 * bytes, 8 * bytes, j)
    ensures forall j :: n <= j < out.Length ==> out[j] == old(out[j])
  {
    ghost var read := Rewound(src);
    for i := from to n
      invariant forall j {:trigger Target(read, 8 * bytes, 8 * bytes, j)} :: 0 <= j < i ==>
                  out[j] == Target(read, 8 * bytes, 8 * bytes, j)
      invariant forall j :: n <= j < out.Length ==> out[j] == old(out[j])
    {
      ElementBytes(i, n, bytes);
      SingleRead(src, i, bytes);
      CopiedElement(read, bytes, i);
      out[i] := LE(src[Wrap32(i * bytes)..Wrap32(i * bytes) + bytes]);
    }
  }

  lemma ElementBytes(i: nat, n: nat, bytes: nat)
    requires i < n
    ensures i * bytes + bytes <= n * bytes
  {
    MulMono(i + 1, n, bytes);
    MulDist(i, 1, bytes);
  }

  /** Below 2^32 bytes, reading wrapped indices changes nothing. */
  lemma RewoundTarget(src: seq<byte>, n: nat, bytes: nat, j: nat)
    requires bytes == 1 || bytes == 2 || bytes == 4
    requires n * bytes <= |src| && n * bytes <= TWO_32 && j < n
    ensures Target(Rewound(src), 8 * bytes, 8 * bytes, j) == Target(src, 8 * bytes, 8 * bytes, j)
  {
    ElementBytes(j, n, bytes);
    RewoundSlice(src, j * bytes, j * bytes, 0, bytes);
    CopiedElement(src, bytes, j);
    CopiedElement(Rewound(src), bytes, j);
  }

  lemma CopiedElement(src: seq<byte>, bytes: nat, j: nat)
    requires bytes == 1 || bytes == 2 || bytes == 4
    requires j * bytes + bytes <= |src|
    ensures LE(src[j * bytes..j * bytes + bytes]) == Target(src, 8 * bytes, 8 * bytes, j)
  {
    LESlice(src, j * bytes, bytes);
    MulAssoc(8, j, bytes);
    MulAssoc(j, 8, bytes);
    NoCut(LE(src), j * (8 * bytes), 8 * bytes, 8 * bytes);
  }

  /** Blocks of 64 elements with a running bit offset; `wide` selects the run-time path of widths above 31. */
  method UnpackBlocked(src: seq<byte>, n: nat, out: array<nat>, tbits: nat, bw: nat, wide: bool)
    requires 0 < bw <= 64 && n * bw <= 8 * |src| && n <= out.Length && n <= TWO_32 - BLOCK
    modifies out
    ensures forall j {:trigger Target(src, bw, tbits, j)} :: 0 <= j < n ==> out[j] == Target(src, bw, tbits, j)
    ensures forall j :: n <= j < out.Length ==> out[j] == old(out[j])
  {
    var i := 0;
    while i < n
      invariant i % BLOCK == 0 && i <= TWO_32 - BLOCK && Wrap32(i) == i
      invariant forall j {:trigger Target(src, bw, tbits, j)} :: 0 <= j < Min(i, n) ==>
                  out[j] == Target(src, bw, tbits, j)
      invariant forall j :: n <= j < out.Length ==> out[j] == old(out[j])
      decreases TWO_32 - i
    {
      NextRun(i, n);
      var end := Min(Wrap32(i + BLOCK), n);
      UnpackRun(src, n, out, tbits, bw, wide, i, end);
      i := Wrap32(i + BLOCK);
    }
  }

  lemma NextRun(i: nat, n: nat)
    requires i < n <= TWO_32 - BLOCK && i % BLOCK == 0
    ensures Wrap32(i + BLOCK) == i + BLOCK <= TWO_32 - BLOCK && (i + BLOCK) % BLOCK == 0
    ensures Wrap32(Wrap32(i + BLOCK)) == i + BLOCK
  {
    ModSmall(i + BLOCK, TWO_32);
  }

  /** One block. */
  method UnpackRun(src: seq<byte>, n: nat, out: array<nat>, tbits: nat, bw: nat, wide: bool, first: nat, end: nat)
    requires 0 < bw <= 64 && n * bw <= 8 * |src| && first <= end <= n <= out.Length
    requires forall j {:trigger Target(src, bw, tbits, j)} :: 0 <= j < first ==> out[j] == Target(src, bw, tbits, j)
    modifies out
    ensures forall j {:trigger Target(src, bw, tbits, j)} :: 0 <= j < end ==> out[j] == Target(src, bw, tbits, j)
    ensures forall j :: n <= j < out.Length ==> out[j] == old(out[j])
  {
    var bitOff := first * bw;
    for j := first to end
      invariant bitOff == j * bw
      invariant forall k {:trigger Target(src, bw, tbits, k)} :: 0 <= k < j ==> out[k] == Target(src, bw, tbits, k)
      invariant forall k :: n <= k < out.Length ==> out[k] == old(out[k])
    {
      ElementInBuffer(src, bw, n, j);
      out[j] := Mask(if wide then ReadElementWide(src, bitOff, bw) else ReadElement(src, bitOff, bw), tbits);
      bitOff := bitOff + bw;
    }
  }

  /** The scalar dispatch: widths 1 to 31 other than 4, 8 and 16 have a templated loop, the rest the run-time one. */
  method UnpackScalar(src: seq<byte>, n: nat, out: array<nat>, tbits: nat, bw: nat)
    requires 0 < bw <= 64 && n * bw <= 8 * |src| && n <= out.Length && n <= TWO_32 - BLOCK
    modifies out
    ensures forall j {:trigger Target(src, bw, tbits, j)} :: 0 <= j < n ==> out[j] == Target(src, bw, tbits, j)
    ensures forall j :: n <= j < out.Length ==> out[j] == old(out[j])
  {
    UnpackBlocked(src, n, out, tbits, bw, bw > 31 || bw == 4 || bw == 8 || bw == 16);
  }

  /** The whole dispatch, for every count at which the chosen loop ends. */
  method BulkUnpack(src: seq<byte>, n: nat, out: array<nat>, tbits: nat, bw: nat, avx2: bool)
    requires OutputWidth(tbits) && bw <= 64 && n * bw <= 8 * |src| && n <= out.Length && Ends(n, bw, tbits, avx2)
    modifies out
    ensures forall j {:trigger Target(AsRead(src, n, bw, tbits, avx2), bw, tbits, j)} :: 0 <= j < n ==>
              out[j] == Target(AsRead(src, n, bw, tbits, avx2), bw, tbits, j)
    ensures forall j :: n <= j < out.Length ==> out[j] == old(out[j])
  {
    if bw == 0 || n == 0 {
      for j := 0 to n
        invariant forall k {:trigger Target(src, bw, tbits, k)} :: 0 <= k < j ==> out[k] == Target(src, bw, tbits, k)
        invariant forall k :: n <= k < out.Length ==> out[k] == old(out[k])
      {
        MaskSmall(0, tbits);
        out[j] := 0;
      }
    } else if avx2 && bw == 1 {
      UnpackWidth1(src, n, out, tbits, bw);
    } else if avx2 && bw == 2 {
      UnpackWidth2(src, n, out, tbits, bw);
    } else if avx2 && bw == 4 {
      UnpackWidth4(src, n, out, tbits, bw);
    } else if Copies(bw, tbits, avx2) {
      UnpackCopy(src, n, out, bw / 8, tbits);
      CopiedTargets(src, n, bw, tbits, avx2);
      assert forall j {:trigger Target(AsRead(src, n, bw, tbits, avx2), bw, tbits, j)} :: 0 <= j < n ==>
               out[j] == Target(Rewound(src), bw, tbits, j);
    } else {
      UnpackScalar(src, n, out, tbits, bw);
    }
  }

  lemma CopiedTargets(src: seq<byte>, n: nat, bw: nat, tbits: nat, avx2: bool)
    requires Copies(bw, tbits, avx2) && n * bw <= 8 * |src|
    ensures forall j {:trigger Target(Rewound(src), bw, tbits, j)} {:trigger Target(AsRead(src, n, bw, tbits, avx2),
              bw, tbits, j)} ::
              0 <= j < n ==> Target(Rewound(src), bw, tbits, j) == Target(AsRead(src, n, bw, tbits, avx2), bw, tbits, j)
  {
    if n * bw <= 8 * TWO_32 {
      forall j | 0 <= j < n ensures Target(Rewound(src), bw, tbits, j) == Target(src, bw, tbits, j) {
        RewoundTarget(src, n, bw / 8, j);
      }
    }
  }
}
