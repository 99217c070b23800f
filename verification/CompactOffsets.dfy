/** `CompactOffsets`: byte offsets as 32-bit residuals from a line, narrowed to 1, 2 or 4 bytes when serialized. */
module Offsets {
  import opened Arith
  import opened Bytes
  import opened Wrappers

  /** The width of the registers. It is a field of nothing: the residuals are `int32_t`. */
  const W: nat := 32

  datatype CompactOffsets = CompactOffsets(slope: int, intercept: int, offsetBytes: byte, residuals: seq<int>) {
    /** Offset `i`, in wrapping 32-bit arithmetic. */
    function Get(i: nat): nat
      requires i < |residuals|
    {
      Mask(ToSigned(Predicted(slope, intercept, i) + residuals[i], W), W)
    }

    /** Residuals fit the width they are serialized at, and the line fits its registers. */
    ghost predicate Valid() {
      && IsSigned(slope, W) && IsSigned(intercept, W)
      && (offsetBytes == 1 || offsetBytes == 2 || offsetBytes == 4)
      && forall i :: 0 <= i < |residuals| ==> IsSigned(residuals[i], 8 * offsetBytes)
    }
  }

  /** The line at row `i`, in wrapping 32-bit arithmetic. */
  function Predicted(slope: int, intercept: int, i: nat): int {
    ToSigned(slope * ToSigned(i, W) + intercept, W)
  }

  /** The line itself, wherever it fits the registers. */
  lemma PredictedFits(slope: int, intercept: int, i: nat)
    requires i < 0x8000_0000 && -0x8000_0000 <= slope * i + intercept < 0x8000_0000
    ensures Predicted(slope, intercept, i) == slope * i + intercept
  {
    var w := W;
    Pow2Width(w);
    SignedRoundTrip(i, w);
    SignedRoundTrip(slope * i + intercept, w);
  }

  function ResidualOf(offset: nat, predicted: int): int {
    ToSigned(ToSigned(offset, W) - predicted, W)
  }

  /** Only the residue of a wrapped operand matters to a wrapped sum. */
  lemma WrappedOperand(x: int, y: int, w: nat)
    requires w > 0
    ensures Mask(x + ToSigned(y, w), w) == Mask(x + y, w)
  {
    SignedCongruent(y, w);
    MaskSum(ToSigned(y, w), x, w);
    MaskSum(y, x, w);
  }

  lemma ReadBack(x: int, offset: nat, w: nat)
    requires w > 0 && offset < Pow2(w) && Mask(x, w) == Mask(ToSigned(offset, w), w)
    ensures Mask(ToSigned(x, w), w) == offset
  {
    SignedCongruent(x, w);
    SignedCongruent(offset, w);
    MaskSmall(offset, w);
  }

  /** The sum of a wrapped difference and what was subtracted is the original, however much wrapped. */
  lemma ResidualRestores(offset: nat, predicted: int, o: int, r: int, w: nat)
    requires w > 0 && offset < Pow2(w) && o == ToSigned(offset, w) && r == ToSigned(o - predicted, w)
    ensures Mask(ToSigned(predicted + r, w), w) == offset
  {
    WrappedDifference(o, predicted, w);
    ReadBack(predicted + r, offset, w);
  }

  lemma WrappedDifference(o: int, predicted: int, w: nat)
    requires w > 0
    ensures Mask(predicted + ToSigned(o - predicted, w), w) == Mask(o, w)
  {
    var d := o - predicted;
    WrappedOperand(predicted, d, w);
    assert predicted + d == o;
  }

  /** A compact form of the offsets: every offset is read back. */
  ghost predicate Represents(co: CompactOffsets, offsets: seq<nat>) {
    && |co.residuals| == |offsets|
    && forall i :: 0 <= i < |offsets| ==> co.Get(i) == offsets[i]
  }

  ghost predicate AllBetween(s: seq<int>, lo: int, hi: int) {
    forall i :: 0 <= i < |s| ==> lo <= s[i] <= hi
  }

  /** The line is arbitrary: a slope and an intercept are 32-bit integers, whatever the regression computed. */
  method Build(offsets: seq<nat>, slope: int, intercept: int) returns (co: CompactOffsets)
    requires forall i :: 0 <= i < |offsets| ==> offsets[i] < TWO_32
    requires IsSigned(slope, W) && IsSigned(intercept, W)
    ensures co.Valid() && Represents(co, offsets)
    ensures offsets != [] ==> co.slope == slope && co.intercept == intercept
    ensures co.offsetBytes == if AllBetween(co.residuals, -128, 127) then 1
                              else if AllBetween(co.residuals, -32768, 32767) then 2 else 4
  {
    var n := |offsets|;
    ZeroFits(W);
    if n == 0 {
      return CompactOffsets(0, 0, 1, []);
    }
    var residuals := [];
    var minRes, maxRes := 0, 0;
    for i := 0 to n
      invariant |residuals| == i
      invariant forall j :: 0 <= j < i ==> residuals[j] == ResidualOf(offsets[j], Predicted(slope, intercept, j))
      invariant forall j :: 0 <= j < i ==> minRes <= residuals[j] <= maxRes
      invariant i > 0 ==> minRes in residuals && maxRes in residuals
    {
      var r := ResidualOf(offsets[i], Predicted(slope, intercept, i));
      residuals := residuals + [r];
      if i == 0 || r < minRes { minRes := r; }
      if i == 0 || r > maxRes { maxRes := r; }
      assert residuals[i] == r;
    }
    var offsetBytes: byte :=
      if minRes >= -128 && maxRes <= 127 then 1
      else if minRes >= -32768 && maxRes <= 32767 then 2
      else 4;
    co := CompactOffsets(slope, intercept, offsetBytes, residuals);
    AllRestored(co, offsets);
    BoundsDecide(residuals, minRes, maxRes, -128, 127);
    BoundsDecide(residuals, minRes, maxRes, -32768, 32767);
  }

  lemma BoundsDecide(s: seq<int>, least: int, greatest: int, lo: int, hi: int)
    requires least in s && greatest in s && forall i :: 0 <= i < |s| ==> least <= s[i] <= greatest
    ensures AllBetween(s, lo, hi) <==> lo <= least && greatest <= hi
  {
  }

  lemma OneRestored(co: CompactOffsets, offset: nat, i: nat, predicted: int)
    requires offset < TWO_32 && i < |co.residuals| && predicted == Predicted(co.slope, co.intercept, i)
    requires co.residuals[i] == ResidualOf(offset, predicted)
    ensures co.Get(i) == offset
  {
    OffsetRestored(offset, predicted);
  }

  lemma AllRestored(co: CompactOffsets, offsets: seq<nat>)
    requires forall i :: 0 <= i < |offsets| ==> offsets[i] < TWO_32
    requires IsSigned(co.slope, W) && IsSigned(co.intercept, W) && |co.residuals| == |offsets|
    requires co.offsetBytes == 1 || co.offsetBytes == 2 || co.offsetBytes == 4
    requires forall i :: 0 <= i < |offsets| ==>
               && co.residuals[i] == ResidualOf(offsets[i], Predicted(co.slope, co.intercept, i))
               && (co.offsetBytes == 1 ==> -128 <= co.residuals[i] <= 127)
               && (co.offsetBytes == 2 ==> -32768 <= co.residuals[i] <= 32767)
    ensures co.Valid() && Represents(co, offsets)
  {
    forall i | 0 <= i < |offsets|
      ensures IsSigned(co.residuals[i], 8 * co.offsetBytes)
      ensures co.Get(i) == offsets[i]
    {
      var predicted := Predicted(co.slope, co.intercept, i);
      ResidualFits(offsets[i], predicted, co.offsetBytes);
      OneRestored(co, offsets[i], i, predicted);
    }
  }

  lemma ZeroFits(w: nat)
    requires w > 0
    ensures IsSigned(0, w)
  {
  }

  lemma OffsetRestored(offset: nat, predicted: int)
    requires offset < TWO_32
    ensures Mask(ToSigned(predicted + ResidualOf(offset, predicted), W), W) == offset
  {
    Pow2Width(W);
    ResidualRestores(offset, predicted, ToSigned(offset, W), ResidualOf(offset, predicted), W);
  }

  lemma ResidualFits(offset: nat, predicted: int, offsetBytes: byte)
    requires offsetBytes == 1 || offsetBytes == 2 || offsetBytes == 4
    requires offsetBytes == 1 ==> -128 <= ResidualOf(offset, predicted) <= 127
    requires offsetBytes == 2 ==> -32768 <= ResidualOf(offset, predicted) <= 32767
    ensures IsSigned(ResidualOf(offset, predicted), 8 * offsetBytes)
  {
    Pow2Values();
    ToSignedRange(ToSigned(offset, W) - predicted, W);
  }

  // ---------------------------------------------------------------- serialized form

  /** A signed integer in `n` bytes of two's complement. */
  function SignedBytes(x: int, n: nat): (s: seq<byte>)
    ensures |s| == n
  {
    ToLE(Mask(x, 8 * n), n)
  }

  function ReadSigned(s: seq<byte>): int
    requires s != []
  {
    ToSigned(LE(s), 8 * |s|)
  }

  lemma SignedBytesRoundTrip(x: int, n: nat)
    requires n > 0 && IsSigned(x, 8 * n)
    ensures ReadSigned(SignedBytes(x, n)) == x
  {
    MaskBound(x, 8 * n);
    WriteRead(Mask(x, 8 * n), n);
    SignedCongruent(x, 8 * n);
    SignedRoundTrip(x, 8 * n);
  }

  /** The width each residual takes: any stored width but 1 and 2 means 4. */
  function ResidualBytes(offsetBytes: byte): nat {
    if offsetBytes == 1 then 1 else if offsetBytes == 2 then 2 else 4
  }

  function PrintResiduals(residuals: seq<int>, w: nat): (s: seq<byte>)
    ensures |s| == w * |residuals|
  {
    if residuals == [] then []
    else
      var init := PrintResiduals(residuals[..|residuals| - 1], w);
      MulDist(|residuals| - 1, 1, w);
      init + SignedBytes(residuals[|residuals| - 1], w)
  }

  function Print(co: CompactOffsets): seq<byte> {
    SignedBytes(co.slope, 4) + SignedBytes(co.intercept, 4) + [co.offsetBytes]
    + PrintResiduals(co.residuals, ResidualBytes(co.offsetBytes))
  }

  function Parse(data: seq<byte>): Result<CompactOffsets> {
    if |data| < 9 then Failure("CompactOffsets: buffer too small")
    else
      var w := ResidualBytes(data[8]);
      var count := (|data| - 9) / w;
      Success(CompactOffsets(ReadSigned(data[0..4]), ReadSigned(data[4..8]), data[8],
                             ParseResiduals(data[9..], w, count)))
  }

  function ParseResiduals(s: seq<byte>, w: nat, count: nat): (r: seq<int>)
    requires w > 0 && w * count <= |s|
    ensures |r| == count
  {
    seq(count, i requires 0 <= i < count => MulMono(i + 1, count, w); ReadSigned(s[w * i..w * i + w]))
  }

  lemma {:induction false} ResidualSlice(residuals: seq<int>, w: nat, i: nat)
    requires i < |residuals|
    ensures w * i + w <= w * |residuals|
    ensures PrintResiduals(residuals, w)[w * i..w * i + w] == SignedBytes(residuals[i], w)
  {
    MulMono(i + 1, |residuals|, w);
    var init := residuals[..|residuals| - 1];
    if i < |residuals| - 1 {
      ResidualSlice(init, w, i);
      assert PrintResiduals(residuals, w)[w * i..w * i + w] == PrintResiduals(init, w)[w * i..w * i + w];
    }
  }

  lemma ResidualsRoundTrip(residuals: seq<int>, w: nat)
    requires w > 0 && forall i :: 0 <= i < |residuals| ==> IsSigned(residuals[i], 8 * w)
    ensures ParseResiduals(PrintResiduals(residuals, w), w, |residuals|) == residuals
  {
    var r := ParseResiduals(PrintResiduals(residuals, w), w, |residuals|);
    forall i | 0 <= i < |residuals| ensures r[i] == residuals[i] {
      ResidualSlice(residuals, w, i);
      SignedBytesRoundTrip(residuals[i], w);
    }
  }

  lemma HeaderSlices(a: seq<byte>, b: seq<byte>, c: byte, rest: seq<byte>, data: seq<byte>)
    requires |a| == 4 && |b| == 4 && data == a + b + [c] + rest
    ensures |data| >= 9 && data[0..4] == a && data[4..8] == b && data[8] == c && data[9..] == rest
  {
  }

  /** Where everything is: the slope, the intercept, the width, and the residuals at that width, all little-
      endian and in two's complement. */
  lemma PrintLayout(co: CompactOffsets, i: nat)
    requires co.Valid() && i < |co.residuals|
    ensures var s, w := Print(co), co.offsetBytes;
            && |s| == 9 + w * |co.residuals| && w * i + w <= w * |co.residuals|
            && s[0..4] == ToLE(Mask(co.slope, 32), 4) && s[4..8] == ToLE(Mask(co.intercept, 32), 4) && s[8] == w
            && s[9..][w * i..w * i + w] == ToLE(Mask(co.residuals[i], 8 * w), w)
  {
    var rest := PrintResiduals(co.residuals, ResidualBytes(co.offsetBytes));
    HeaderSlices(SignedBytes(co.slope, 4), SignedBytes(co.intercept, 4), co.offsetBytes, rest, Print(co));
    ResidualSlice(co.residuals, ResidualBytes(co.offsetBytes), i);
  }

  /** Any stored width but 1 and 2 is read as 4, and bytes left over are ignored. */
  lemma ParsedCount(data: seq<byte>)
    ensures Parse(data).Success? <==> |data| >= 9
    ensures |data| >= 9 ==>
              |Parse(data).value.residuals|
                == (|data| - 9) / (if data[8] == 1 then 1 else if data[8] == 2 then 2 else 4)
  {
  }

  /** Parsing undoes printing: slope, intercept, width and every residual. */
  lemma ParseUndoesPrint(co: CompactOffsets)
    requires co.Valid()
    ensures Parse(Print(co)) == Success(co)
  {
    var w, n := ResidualBytes(co.offsetBytes), |co.residuals|;
    var a, b, rest := SignedBytes(co.slope, 4), SignedBytes(co.intercept, 4), PrintResiduals(co.residuals, w);
    HeaderSlices(a, b, co.offsetBytes, rest, Print(co));
    SignedBytesRoundTrip(co.slope, 4);
    SignedBytesRoundTrip(co.intercept, 4);
    ResidualCount(n, w);
    ResidualsRoundTrip(co.residuals, w);
    PartsParse(Print(co), a, b, co.offsetBytes, rest, co.slope, co.intercept, w, n);
  }

  lemma PartsParse(data: seq<byte>, a: seq<byte>, b: seq<byte>, c: byte, rest: seq<byte>, slope: int, intercept: int,
                   w: nat, n: nat)
    requires |data| >= 9 && data[0..4] == a && data[4..8] == b && data[8] == c && data[9..] == rest
    requires a != [] && b != [] && ReadSigned(a) == slope && ReadSigned(b) == intercept
    requires w == ResidualBytes(c) && |rest| == w * n && w * n / w == n
    ensures Parse(data) == Success(CompactOffsets(slope, intercept, c, ParseResiduals(rest, w, n)))
  {
    assert |data| - 9 == |rest|;
  }

  lemma ResidualCount(n: nat, w: nat)
    requires w > 0
    ensures w * n / w == n
  {
    DivModUnique(w * n, w, n, 0);
  }

  lemma NextResidual(header: seq<byte>, residuals: seq<int>, w: nat, i: nat)
    requires i < |residuals|
    ensures header + PrintResiduals(residuals[..i + 1], w)
         == header + PrintResiduals(residuals[..i], w) + SignedBytes(residuals[i], w)
  {
    assert residuals[..i + 1][..i] == residuals[..i];
  }

  method ToBytes(co: CompactOffsets) returns (out: seq<byte>)
    ensures out == Print(co)
  {
    out := SignedBytes(co.slope, 4);
    out := out + SignedBytes(co.intercept, 4);
    out := out + [co.offsetBytes];
    ghost var header := out;
    for i := 0 to |co.residuals|
      invariant out == header + PrintResiduals(co.residuals[..i], ResidualBytes(co.offsetBytes))
    {
      var r := co.residuals[i];
      NextResidual(header, co.residuals, ResidualBytes(co.offsetBytes), i);
      if co.offsetBytes == 1 {
        out := out + SignedBytes(r, 1);
      } else if co.offsetBytes == 2 {
        out := out + SignedBytes(r, 2);
      } else {
        out := out + SignedBytes(r, 4);
      }
    }
    assert co.residuals[..|co.residuals|] == co.residuals;
  }

  method FromBytes(data: seq<byte>) returns (r: Result<CompactOffsets>)
    ensures r == Parse(data)
  {
    if |data| < 9 {
      return Failure("CompactOffsets: buffer too small");
    }
    var offsetBytes := data[8];
    var residualBytes := |data| - 9;
    var count := if offsetBytes == 1 then residualBytes
                 else if offsetBytes == 2 then residualBytes / 2
                 else residualBytes / 4;
    var rp, residuals := data[9..], [];
    for i := 0 to count
      invariant |residuals| == i
      invariant residuals == ParseResiduals(rp, ResidualBytes(offsetBytes), count)[..i]
    {
      if offsetBytes == 1 {
        residuals := residuals + [ReadSigned(rp[i..i + 1])];
      } else if offsetBytes == 2 {
        residuals := residuals + [ReadSigned(rp[i * 2..i * 2 + 2])];
      } else {
        residuals := residuals + [ReadSigned(rp[i * 4..i * 4 + 4])];
      }
    }
    assert residuals
        == ParseResiduals(data[9..], ResidualBytes(offsetBytes), residualBytes / ResidualBytes(offsetBytes));
    r := Success(CompactOffsets(ReadSigned(data[0..4]), ReadSigned(data[4..8]), offsetBytes, residuals));
  }
}
