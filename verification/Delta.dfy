/** `LiquidPrimitiveDeltaArray`: wrapping differences of consecutive non-null values, zigzag-coded and bit-packed. */
module Delta {
  import opened Arith
  import opened Arrow
  import opened BitPacked
  import opened Bytes
  import opened FrameOfReference
  import opened Native
  import opened Unpacking
  import opened Wrappers

  /** The register in which zigzag codes are computed. */
  const REGISTER: nat := 64

  /** `(delta << 1) ^ (delta >> (w - 1))` in a `w`-bit register. */
  function ZigZag(delta: int, w: nat): nat
    requires w > 0
  {
    Xor(Mask(Shl(delta, 1), w), Mask(Shr(delta, w - 1), w))
  }

  /** `(z >> 1) ^ -(z & 1)` in a `w`-bit register. */
  function UnZigZag(z: nat, w: nat): nat {
    Xor(Mask(Shr(z, 1), w), Mask(0 - Mask(z, 1), w))
  }

  lemma SignOfNegative(d: int, w: nat)
    requires d < 0 && 0 <= d + Pow2(w)
    ensures Shr(d, w) == -1
  {
    ShlMul(-1, w);
    Unjoin(d + Pow2(w), -1, w, d);
  }

  lemma AllOnes(w: nat)
    ensures Mask(-1, w) == Pow2(w) - 1
  {
    MaskNegative(-1, w);
  }

  /** Doubling with the complement, for a negative difference. */
  lemma XorNegative(d: int, w: nat)
    requires d < 0 && 0 <= d + Pow2(w)
    ensures Xor(Mask(d, w), Mask(-1, w)) == -d - 1
  {
    MaskNegative(d, w);
    AllOnes(w);
    XorOnes(d + Pow2(w), w);
  }

  lemma XorNonNegative(d: nat, w: nat)
    requires d < Pow2(w)
    ensures Xor(Mask(d, w), Mask(0, w)) == d
  {
    MaskSmall(d, w);
    MaskSmall(0, w);
    XorZero(d);
  }

  lemma ZigZagOfNegative(d: int, w: nat, half: nat)
    requires w > 0 && d < 0 && half <= Pow2(w - 1) && 0 <= d + half
    ensures ZigZag(d, w) == -2 * d - 1
  {
    SignOfNegative(d, w - 1);
    ShlOne(d);
    XorNegative(2 * d, w);
  }

  lemma ZigZagOfNonNegative(d: nat, w: nat, half: nat)
    requires w > 0 && d < half <= Pow2(w - 1)
    ensures ZigZag(d, w) == 2 * d
  {
    ShrBound(d, w - 1, 0);
    ShlOne(d);
    XorNonNegative(2 * d, w);
  }

  lemma ZigZagBetween(delta: int, w: nat, half: nat)
    requires w > 0 && half <= Pow2(w - 1) && 0 <= delta + half && delta < half
    ensures ZigZag(delta, w) == if delta < 0 then -2 * delta - 1 else 2 * delta
  {
    if delta >= 0 {
      ZigZagOfNonNegative(delta, w, half);
    } else {
      ZigZagOfNegative(delta, w, half);
    }
  }

  /** Zigzag maps differences of either sign to small codes of the same width. */
  lemma ZigZagValue(delta: int, w: nat, b: nat)
    requires 0 < b <= w && IsSigned(delta, b)
    ensures ZigZag(delta, w) == if delta < 0 then -2 * delta - 1 else 2 * delta
  {
    Pow2Mono(b - 1, w - 1);
    ZigZagBetween(delta, w, Pow2(b - 1));
  }

  lemma ZigZagBound(delta: int, w: nat, b: nat)
    requires 0 < b <= w && IsSigned(delta, b)
    ensures ZigZag(delta, w) < Pow2(b)
  {
    ZigZagValue(delta, w, b);
  }

  lemma ShlOne(x: int)
    ensures Shl(x, 1) == 2 * x
  {
  }

  lemma UnZigZagValue(z: nat, w: nat)
    requires w > 0 && z < Pow2(w)
    ensures UnZigZag(z, w) == Mask(if z % 2 == 1 then -(z / 2) - 1 else z / 2, w)
  {
    assert Shr(z, 1) == z / 2 && Mask(z, 1) == z % 2;
    MaskSmall(z / 2, w);
    if z % 2 == 1 {
      AllOnes(w);
      XorOnes(z / 2, w);
      MaskNegative(-(z / 2) - 1, w);
    } else {
      MaskSmall(0, w);
      XorZero(z / 2);
    }
  }

  /** The register read from the code `z` of a difference. */
  lemma UnZigZagCode(d: int, z: nat, w: nat)
    requires w > 0 && z < Pow2(w) && z == if d < 0 then -2 * d - 1 else 2 * d
    ensures UnZigZag(z, w) == Mask(d, w)
  {
    UnZigZagValue(z, w);
  }

  /** Decoding a zigzag code gives the difference back, in the register. */
  lemma ZigZagRoundTrip(delta: int, w: nat, b: nat)
    requires 0 < b <= w && IsSigned(delta, b)
    ensures UnZigZag(ZigZag(delta, w), w) == Mask(delta, w)
  {
    ZigZagValue(delta, w, b);
    ZigZagBound(delta, w, b);
    Pow2Mono(b, w);
    UnZigZagCode(delta, ZigZag(delta, w), w);
  }

  // ---------------------------------------------------------------- one step of each loop

  /** The code stored for `v` after `prev`: the wrapping difference, reinterpreted as signed, zigzag-coded and cut. */
  function DeltaCode(v: int, prev: int, b: nat): nat
    requires b > 0
  {
    Mask(ZigZag(SignedDifference(v, prev, b), REGISTER), b)
  }

  function SignedDifference(v: int, prev: int, b: nat): int
    requires b > 0
  {
    ToSigned(Mask(Mask(v, b) - Mask(prev, b), b), b)
  }

  /** The value after `current`, given a code. */
  function DeltaStep(current: int, code: nat, b: nat): int
    requires b > 0
  {
    AddDifference(current, ToSigned(UnZigZag(code, REGISTER), REGISTER), b)
  }

  function AddDifference(current: int, delta: int, b: nat): int
    requires b > 0
  {
    ToSigned(Mask(current, b) + Mask(ToSigned(delta, b), b), b)
  }

  /** A code of a difference is decoded to that difference, and fits the width of the column. */
  lemma CodeRoundTrip(d: int, w: nat, b: nat)
    requires 0 < b <= w && IsSigned(d, b)
    ensures Mask(ZigZag(d, w), b) == ZigZag(d, w) < Pow2(b)
    ensures ToSigned(UnZigZag(Mask(ZigZag(d, w), b), w), w) == d
  {
    ZigZagBound(d, w, b);
    MaskSmall(ZigZag(d, w), b);
    ZigZagRoundTrip(d, w, b);
    SignedIsSigned(d, b, w);
    SignedOfMask(d, w, UnZigZag(ZigZag(d, w), w));
  }

  lemma SignedIsSigned(d: int, b: nat, w: nat)
    requires 0 < b <= w && IsSigned(d, b)
    ensures IsSigned(d, w)
  {
    Pow2Mono(b - 1, w - 1);
  }

  lemma SignedOfMask(d: int, w: nat, m: int)
    requires w > 0 && IsSigned(d, w) && m == Mask(d, w)
    ensures ToSigned(m, w) == d
  {
    SignedCongruent(d, w);
    SignedRoundTrip(d, w);
  }

  /** Any two values, however far apart: the difference may wrap, and adding it wraps back. */
  lemma AddUndoesDifference(v: int, prev: int, b: nat)
    requires b > 0 && IsSigned(v, b)
    ensures AddDifference(prev, SignedDifference(v, prev, b), b) == v
    ensures IsSigned(SignedDifference(v, prev, b), b)
  {
    var d := SignedDifference(v, prev, b);
    ToSignedRange(Mask(Mask(v, b) - Mask(prev, b), b), b);
    SignedRoundTrip(d, b);
    DifferenceBits(v, prev, b);
    AddBits(v, prev, d, b);
    SignedRoundTrip(v, b);
  }

  lemma DifferenceBits(v: int, prev: int, b: nat)
    requires b > 0
    ensures Mask(SignedDifference(v, prev, b), b) == Mask(v - prev, b)
  {
    MaskDiff(v, prev, b);
    MaskMask(v - prev, b, b);
    SignedCongruent(Mask(v - prev, b), b);
  }

  lemma AddBits(v: int, prev: int, d: int, b: nat)
    requires b > 0 && Mask(d, b) == Mask(v - prev, b)
    ensures ToSigned(Mask(prev, b) + Mask(d, b), b) == ToSigned(v, b)
  {
    var m, n := Mask(prev, b), Mask(d, b);
    ResidueSum(v - prev, prev, b);
    SameSigned(m + n, v, b);
  }

  /** One step of the decoder undoes one step of the encoder. */
  lemma StepUndoesCode(v: int, prev: int, b: nat)
    requires 0 < b <= REGISTER && IsSigned(v, b)
    ensures DeltaStep(prev, DeltaCode(v, prev, b), b) == v
    ensures DeltaCode(v, prev, b) < Pow2(b)
  {
    AddUndoesDifference(v, prev, b);
    CodeRoundTrip(SignedDifference(v, prev, b), REGISTER, b);
  }

  /** The difference a code stands for. */
  function CodeValue(z: nat): int {
    if z % 2 == 1 then -(z / 2) - 1 else z / 2
  }

  /** Zigzag is onto: it codes the difference of a code as that code. */
  lemma CodeValueCoded(z: nat, b: nat)
    requires 0 < b <= REGISTER && z < Pow2(b)
    ensures IsSigned(CodeValue(z), b)
    ensures ZigZag(CodeValue(z), REGISTER) == z
  {
    ZigZagValue(CodeValue(z), REGISTER, b);
  }

  lemma CodeValueRead(z: nat, b: nat)
    requires 0 < b <= REGISTER && z < Pow2(b)
    ensures ToSigned(UnZigZag(z, REGISTER), REGISTER) == CodeValue(z)
  {
    var d, w := CodeValue(z), REGISTER;
    CodeValueCoded(z, b);
    Pow2Mono(b, w);
    UnZigZagValue(z, w);
    SignedIsSigned(d, b, w);
    SignedOfMask(d, w, UnZigZag(z, w));
  }

  /** A decoder step adds the difference of the code. */
  lemma StepAdds(current: int, z: nat, b: nat)
    requires 0 < b <= REGISTER && z < Pow2(b)
    ensures DeltaStep(current, z, b) == ToSigned(Mask(current, b) + Mask(CodeValue(z), b), b)
  {
    CodeValueCoded(z, b);
    CodeValueRead(z, b);
    SignedRoundTrip(CodeValue(z), b);
  }

  lemma StepBits(current: int, z: nat, b: nat, v: int)
    requires 0 < b <= REGISTER && z < Pow2(b) && v == DeltaStep(current, z, b)
    ensures Mask(Mask(v, b) - Mask(current, b), b) == Mask(CodeValue(z), b)
  {
    StepAdds(current, z, b);
    SteppedBits(current, CodeValue(z), b, v);
  }

  lemma CodeOfDifference(v: int, current: int, z: nat, b: nat)
    requires 0 < b <= REGISTER && z < Pow2(b)
    requires Mask(Mask(v, b) - Mask(current, b), b) == Mask(CodeValue(z), b)
    ensures DeltaCode(v, current, b) == z
  {
    CodeValueCoded(z, b);
    SteppedDifference(current, CodeValue(z), b, v);
    MaskSmall(z, b);
  }

  /** One step of the encoder undoes one step of the decoder, for every code of the width. */
  lemma CodeUndoesStep(current: int, z: nat, b: nat, v: int)
    requires 0 < b <= REGISTER && z < Pow2(b) && v == DeltaStep(current, z, b)
    ensures DeltaCode(v, current, b) == z
  {
    StepBits(current, z, b, v);
    CodeOfDifference(v, current, z, b);
  }

  lemma SteppedDifference(current: int, d: int, b: nat, v: int)
    requires b > 0 && IsSigned(d, b) && Mask(Mask(v, b) - Mask(current, b), b) == Mask(d, b)
    ensures SignedDifference(v, current, b) == d
  {
    SignedOfMask(d, b, Mask(Mask(v, b) - Mask(current, b), b));
  }

  lemma SteppedBits(current: int, d: int, b: nat, v: int)
    requires b > 0 && v == ToSigned(Mask(current, b) + Mask(d, b), b)
    ensures Mask(Mask(v, b) - Mask(current, b), b) == Mask(d, b)
  {
    var sum := Mask(current, b) + Mask(d, b);
    SignedCongruent(sum, b);
    ResidueSum(d, current, b);
    MaskDiff(current + d, current, b);
  }

  lemma CodeFits(v: int, prev: int, b: nat)
    requires 0 < b <= REGISTER && IsSigned(v, b)
    ensures DeltaCode(v, prev, b) < Pow2(b)
  {
    StepUndoesCode(v, prev, b);
  }

  // ---------------------------------------------------------------- whole columns

  /** The last row before `n` that is not null, or -1. */
  function LastValid(valid: seq<bool>, n: nat): (r: int)
    requires n <= |valid|
    ensures -1 <= r < n
    ensures r >= 0 ==> valid[r]
  {
    if n == 0 then -1 else if valid[n - 1] then n - 1 else LastValid(valid, n - 1)
  }

  /** There is at most one first valid row. */
  lemma {:induction false} OneFirst(valid: seq<bool>, i: nat, n: nat)
    requires n <= |valid|
    ensures i < n && valid[i] ==> 0 <= i <= LastValid(valid, n)
  {
    if i < n - 1 {
      OneFirst(valid, i, n - 1);
    }
  }

  /** The code of a row: 0 for a null row and for the first row that is not null. */
  function RowCode(values: seq<int>, valid: seq<bool>, b: nat, i: nat): nat
    requires i < |values| == |valid| && b > 0
  {
    var last := LastValid(valid, i);
    if !valid[i] || last < 0 then 0 else DeltaCode(values[i], values[last], b)
  }

  /** The codes of the first `n` rows. */
  function Codes(values: seq<int>, valid: seq<bool>, b: nat, n: nat): (s: seq<nat>)
    requires n <= |values| == |valid| && b > 0
    ensures |s| == n
  {
    if n == 0 then [] else Codes(values, valid, b, n - 1) + [RowCode(values, valid, b, n - 1)]
  }

  /** A decoder step, as a function of the running value and the code. */
  type Step = (int, nat) -> int

  function DeltaSteps(b: nat): Step
    requires b > 0
  {
    (current: int, code: nat) => DeltaStep(current, code, b)
  }

  /** The running value of a decoder after `n` codes, if it has met a row that is not null. */
  function Running(valid: seq<bool>, codes: seq<nat>, anchor: int, step: Step, n: nat): Option<int>
    requires n <= |valid| == |codes|
  {
    if n == 0 then None
    else
      var before := Running(valid, codes, anchor, step, n - 1);
      if !valid[n - 1] then before
      else if before.None? then Some(anchor)
      else Some(step(before.value, codes[n - 1]))
  }

  /** The first `n` values the decoder writes: the running value, and 0 at null rows. */
  function RowValues(valid: seq<bool>, codes: seq<nat>, anchor: int, step: Step, n: nat): (s: seq<int>)
    requires n <= |valid| == |codes|
    ensures |s| == n
  {
    if n == 0 then [] else
      var r := Running(valid, codes, anchor, step, n);
      RowValues(valid, codes, anchor, step, n - 1) + [if !valid[n - 1] || r.None? then 0 else r.value]
  }

  /** Stepping from the last non-null value by the code of a row gives the row. */
  ghost predicate StepsThrough(values: seq<int>, valid: seq<bool>, codes: seq<nat>, anchor: int, step: Step)
    requires |codes| == |valid| == |values|
  {
    forall i :: 0 <= i < |values| && valid[i] ==>
      var last := LastValid(valid, i);
      if last < 0 then values[i] == anchor else values[i] == step(values[last], codes[i])
  }

  /** The running value is the last non-null value of the column, whatever the null pattern. */
  lemma {:induction false} RunningTracksColumn(
      values: seq<int>, valid: seq<bool>, codes: seq<nat>, anchor: int, step: Step, n: nat)
    requires n <= |values| == |codes| == |valid|
    requires StepsThrough(values, valid, codes, anchor, step)
    ensures Running(valid, codes, anchor, step, n)
         == if LastValid(valid, n) < 0 then None else Some(values[LastValid(valid, n)])
  {
    if n > 0 {
      RunningTracksColumn(values, valid, codes, anchor, step, n - 1);
    }
  }

  /** A row that is not null is written as the running value it leads to. */
  lemma {:induction false} RowValueAt(valid: seq<bool>, codes: seq<nat>, anchor: int, step: Step, n: nat, i: nat)
    requires i < n <= |codes| == |valid|
    ensures valid[i] ==> Running(valid, codes, anchor, step, i + 1) == Some(RowValues(valid, codes, anchor, step, n)[i])
    ensures !valid[i] ==> RowValues(valid, codes, anchor, step, n)[i] == 0
  {
    if i < n - 1 {
      RowValueAt(valid, codes, anchor, step, n - 1, i);
    }
  }

  /** The decoder writes back every row that is not null if and only if each code leads from the row before to its row.
      */
  lemma RowsRestoredIff(values: seq<int>, valid: seq<bool>, codes: seq<nat>, anchor: int, step: Step)
    requires |values| == |codes| == |valid|
    ensures StepsThrough(values, valid, codes, anchor, step)
       <==> forall i :: 0 <= i < |values| && valid[i] ==>
           RowValues(valid, codes, anchor, step, |values|)[i] == values[i]
  {
    var n := |values|;
    forall i | 0 <= i < n && valid[i]
      ensures Running(valid, codes, anchor, step, i + 1) == Some(RowValues(valid, codes, anchor, step, n)[i])
    {
      RowValueAt(valid, codes, anchor, step, n, i);
    }
    if StepsThrough(values, valid, codes, anchor, step) {
      forall i | 0 <= i < n && valid[i] ensures RowValues(valid, codes, anchor, step, n)[i] == values[i] {
        RunningTracksColumn(values, valid, codes, anchor, step, i + 1);
      }
    } else if forall i :: 0 <= i < n && valid[i] ==> RowValues(valid, codes, anchor, step, n)[i] == values[i] {
      forall i | 0 <= i < n && valid[i]
        ensures LastValid(valid, i) < 0 ==> values[i] == anchor
        ensures LastValid(valid, i) >= 0 ==> values[i] == step(values[LastValid(valid, i)], codes[i])
      {
        RunningWasRow(values, valid, codes, anchor, step, i);
      }
      assert false;
    }
  }

  /** Where every valid row was the running value, the running value is the last of them. */
  lemma {:induction false} RunningWasRow(
      values: seq<int>, valid: seq<bool>, codes: seq<nat>, anchor: int, step: Step, n: nat)
    requires n <= |values| == |codes| == |valid|
    requires forall i :: 0 <= i < n && valid[i] ==> Running(valid, codes, anchor, step, i + 1) == Some(values[i])
    ensures Running(valid, codes, anchor, step, n)
         == if LastValid(valid, n) < 0 then None else Some(values[LastValid(valid, n)])
  {
    if n > 0 && !valid[n - 1] {
      RunningWasRow(values, valid, codes, anchor, step, n - 1);
    }
  }

  /** The codes of a column fit its width and step through it. */
  lemma {:induction false} CodesStep(values: seq<int>, valid: seq<bool>, b: nat, n: nat, i: nat)
    requires i < n <= |values| == |valid| && 0 < b <= REGISTER
    requires forall i :: 0 <= i < |values| ==> IsSigned(values[i], b)
    ensures Codes(values, valid, b, n)[i] < Pow2(b)
    ensures valid[i] && LastValid(valid, i) >= 0 ==>
              values[i] == DeltaStep(values[LastValid(valid, i)], Codes(values, valid, b, n)[i], b)
  {
    if i < n - 1 {
      CodesStep(values, valid, b, n - 1, i);
    } else if valid[i] && LastValid(valid, i) >= 0 {
      StepUndoesCode(values[i], values[LastValid(valid, i)], b);
    }
  }

  // ---------------------------------------------------------------- whole columns, packed

  function ValidRows(p: Packed): (s: seq<bool>)
    requires p.Sound()
    ensures |s| == p.length
    ensures forall i :: 0 <= i < p.length ==> s[i] == !p.IsNull(i)
  {
    seq(p.length, i requires 0 <= i < p.length => !p.IsNull(i))
  }

  /** The unpacked elements, cut to the column's width. */
  function Unpacked(p: Packed, b: nat): (s: seq<nat>)
    ensures |s| == p.length
    ensures forall i :: 0 <= i < p.length ==> s[i] == Mask(p.Element(i), b)
  {
    seq(p.length, i requires 0 <= i < p.length => Mask(p.Element(i), b))
  }

  /** The column that an anchor and packed codes stand for. */
  function DecodeDelta(p: Packed, anchor: int, b: nat): (c: Column<int>)
    requires p.Sound() && b > 0
    ensures c.WellFormed()
  {
    Column(RowValues(ValidRows(p), Unpacked(p, b), anchor, DeltaSteps(b), p.length), p.NullBuffer())
  }

  /** The codes of all rows of a column. */
  function CodesOf(c: Column<int>, b: nat): (s: seq<nat>)
    requires c.WellFormed() && b > 0
    ensures |s| == |c.values|
  {
    Codes(c.values, c.ValidRows(), b, |c.values|)
  }

  ghost predicate Greatest(codes: seq<nat>, m: nat) {
    && (forall i :: 0 <= i < |codes| ==> codes[i] <= m)
    && (m == 0 || exists i :: 0 <= i < |codes| && codes[i] == m)
  }

  /** The packing width of a column: that of its greatest code, or 0 when every row is null. */
  ghost predicate DeltaWidthIs(c: Column<int>, b: nat, bw: nat)
    requires c.WellFormed() && b > 0
  {
    if c.NullCount() == |c.values| then bw == 0
    else exists m :: Greatest(CodesOf(c, b), m) && bw == GetBitWidth(m)
  }

  /** The anchor is the first value that is not null. */
  predicate Anchors(c: Column<int>, anchor: int)
    requires c.WellFormed()
  {
    forall i :: 0 <= i < |c.values| && c.IsValid(i) && LastValid(c.ValidRows(), i) < 0 ==> anchor == c.values[i]
  }

  /** The packed form of a column: its codes at a width that cuts none. */
  ghost predicate EncodesDelta(p: Packed, c: Column<int>, anchor: int, b: nat)
    requires c.WellFormed() && b > 0
  {
    && p.Sound() && p.nullBitmap == ArrayBitmap(c)
    && p.Holds(CodesOf(c, b), p.bitWidth)
    && (forall i :: 0 <= i < p.length ==> CodesOf(c, b)[i] < Pow2(p.bitWidth))
    && Anchors(c, anchor)
  }

  predicate AllSigned(values: seq<int>, b: nat)
    requires b > 0
  {
    forall i :: 0 <= i < |values| ==> IsSigned(values[i], b)
  }

  /** The code of every valid row after the first is that of the row whose element the bulk path reads for it. */
  ghost predicate CodesAgree(c: Column<int>, b: nat, bw: nat, avx2: bool)
    requires c.WellFormed() && b > 0
  {
    forall i {:trigger SeenRow(|c.values|, bw, b, avx2, i)} ::
      0 <= i < |c.values| && c.IsValid(i) && LastValid(c.ValidRows(), i) >= 0 ==>
        var r := SeenRow(|c.values|, bw, b, avx2, i);
        r <= i && CodesOf(c, b)[i] == CodesOf(c, b)[r]
  }

  /** The unpacked codes are those of the seen rows. */
  lemma SeenCode(p: Packed, c: Column<int>, anchor: int, b: nat, avx2: bool, i: nat)
    requires c.WellFormed() && 0 < b <= REGISTER && AllSigned(c.values, b) && EncodesDelta(p, c, anchor, b)
             && i < p.length
    ensures SeenRow(p.length, p.bitWidth, b, avx2, i) <= i
    ensures Mask(Seen(p, b, avx2).Element(i), b) == CodesOf(c, b)[SeenRow(p.length, p.bitWidth, b, avx2, i)]
  {
    var codes, r := CodesOf(c, b), SeenRow(p.length, p.bitWidth, b, avx2, i);
    SeenElement(p, b, avx2, i);
    GetAfterPack(p, codes, p.bitWidth, r);
    CodesStep(c.values, c.ValidRows(), b, |c.values|, r);
    MaskSmall(codes[r], p.bitWidth);
    MaskSmall(codes[r], b);
  }

  lemma CodeAt(c: Column<int>, b: nat, i: nat)
    requires c.WellFormed() && b > 0 && i < |c.values|
    ensures CodesOf(c, b)[i] == RowCode(c.values, c.ValidRows(), b, i)
  {
    CodesAre(c.values, c.ValidRows(), b, |c.values|, i);
  }

  lemma {:induction false} CodesAre(values: seq<int>, valid: seq<bool>, b: nat, n: nat, i: nat)
    requires i < n <= |values| == |valid| && b > 0
    ensures Codes(values, valid, b, n)[i] == RowCode(values, valid, b, i)
  {
    if i < n - 1 {
      CodesAre(values, valid, b, n - 1, i);
    }
  }

  /** In numbers: a null row and the first valid row have code 0; any other has that of the difference from the
      last valid row before it, taken as a signed number of the width: twice the difference, or one less than twice
      its negation. */
  lemma CodeExact(c: Column<int>, b: nat, i: nat, d: int)
    requires c.WellFormed() && 0 < b <= REGISTER && i < |c.values|
    ensures !c.IsValid(i) || LastValid(c.ValidRows(), i) < 0 ==> CodesOf(c, b)[i] == 0
    ensures c.IsValid(i) && LastValid(c.ValidRows(), i) >= 0 && IsSigned(d, b)
            && Mask(d, b) == Mask(c.values[i] - c.values[LastValid(c.ValidRows(), i)], b) ==>
              CodesOf(c, b)[i] == if d < 0 then -2 * d - 1 else 2 * d
  {
    var last := LastValid(c.ValidRows(), i);
    CodeAt(c, b, i);
    if c.IsValid(i) && last >= 0 && IsSigned(d, b) && Mask(d, b) == Mask(c.values[i] - c.values[last], b) {
      CodeInNumbers(c.values[i], c.values[last], b, d);
    }
  }

  lemma CodeInNumbers(v: int, prev: int, b: nat, d: int)
    requires 0 < b <= REGISTER && IsSigned(d, b) && Mask(d, b) == Mask(v - prev, b)
    ensures DeltaCode(v, prev, b) == if d < 0 then -2 * d - 1 else 2 * d
  {
    MaskDiff(v, prev, b);
    SteppedDifference(prev, d, b, v);
    ZigZagValue(d, REGISTER, b);
    MaskSmall(if d < 0 then -2 * d - 1 else 2 * d, b);
  }

  /** A code leads from the last valid value to the row if and only if it is the code of the row. */
  lemma StepIff(c: Column<int>, b: nat, i: nat, code: nat)
    requires c.WellFormed() && 0 < b <= REGISTER && AllSigned(c.values, b) && i < |c.values| && code < Pow2(b)
    requires c.IsValid(i) && LastValid(c.ValidRows(), i) >= 0
    ensures c.values[i] == DeltaStep(c.values[LastValid(c.ValidRows(), i)], code, b) <==> code == CodesOf(c, b)[i]
  {
    var prev := c.values[LastValid(c.ValidRows(), i)];
    CodesStep(c.values, c.ValidRows(), b, |c.values|, i);
    CodeAt(c, b, i);
    if c.values[i] == DeltaStep(prev, code, b) {
      CodeUndoesStep(prev, code, b, c.values[i]);
    }
  }

  /** The codes a bulk path reads step through the column if and only if they agree with its own. */
  lemma SeenStepsIff(c: Column<int>, anchor: int, b: nat, bw: nat, avx2: bool, seen: seq<nat>)
    requires c.WellFormed() && 0 < b <= REGISTER && AllSigned(c.values, b) && Anchors(c, anchor) && |seen| == |c.values|
    requires forall i {:trigger SeenRow(|seen|, bw, b, avx2, i)} :: 0 <= i < |seen| ==>
               var r := SeenRow(|seen|, bw, b, avx2, i); r <= i && seen[i] == CodesOf(c, b)[r]
    ensures StepsThrough(c.values, c.ValidRows(), seen, anchor, DeltaSteps(b)) <==> CodesAgree(c, b, bw, avx2)
  {
    var valid := c.ValidRows();
    forall i | 0 <= i < |seen| && valid[i]
      ensures SeenRow(|seen|, bw, b, avx2, i) <= i && seen[i] == CodesOf(c, b)[SeenRow(|seen|, bw, b, avx2, i)]
      ensures LastValid(valid, i) < 0 ==> c.values[i] == anchor
      ensures LastValid(valid, i) >= 0 ==> (c.values[i] == DeltaStep(c.values[LastValid(valid, i)], seen[i], b)
                                            <==> seen[i] == CodesOf(c, b)[i])
    {
      assert c.IsValid(i);
      if LastValid(valid, i) >= 0 {
        CodesStep(c.values, valid, b, |seen|, SeenRow(|seen|, bw, b, avx2, i));
        StepIff(c, b, i, seen[i]);
      }
    }
  }

  /** What decoding a packed form gives has the column's nulls. */
  lemma DecodedIff(p: Packed, c: Column<int>, anchor: int, b: nat)
    requires c.WellFormed() && b > 0 && p.Sound() && p.length == |c.values|
    requires p.nullBitmap == ArrayBitmap(c) && KeepsNulls(c)
    ensures SameColumn(DecodeDelta(p, anchor, b), c)
       <==> StepsThrough(c.values, c.ValidRows(), Unpacked(p, b), anchor, DeltaSteps(b))
  {
    var d := DecodeDelta(p, anchor, b);
    ValidRowsOf(p, c);
    RowsRestoredIff(c.values, c.ValidRows(), Unpacked(p, b), anchor, DeltaSteps(b));
    forall i | 0 <= i < |c.values| ensures d.IsValid(i) == c.IsValid(i) == c.ValidRows()[i] {
      SameNulls(p, c, i);
    }
  }

  lemma ValidRowsOf(p: Packed, c: Column<int>)
    requires c.WellFormed() && p.Sound() && p.length == |c.values|
    requires p.nullBitmap == ArrayBitmap(c) && KeepsNulls(c)
    ensures ValidRows(p) == c.ValidRows()
  {
    forall i | 0 <= i < p.length ensures ValidRows(p)[i] == c.ValidRows()[i] {
      SameNulls(p, c, i);
    }
  }

  /** What the bulk path decodes is the column if and only if the rows it confuses have equal codes. */
  lemma SeenDelta(p: Packed, c: Column<int>, anchor: int, b: nat, avx2: bool)
    requires c.WellFormed() && 0 < b <= REGISTER && AllSigned(c.values, b) && EncodesDelta(p, c, anchor, b)
             && KeepsNulls(c)
    ensures Seen(p, b, avx2).Sound()
    ensures SameColumn(DecodeDelta(Seen(p, b, avx2), anchor, b), c) <==> CodesAgree(c, b, p.bitWidth, avx2)
  {
    var q := Seen(p, b, avx2);
    SeenNulls(p, b, avx2);
    var seen := Unpacked(q, b);
    forall i {:trigger SeenRow(|seen|, p.bitWidth, b, avx2, i)} | 0 <= i < |seen|
      ensures var r := SeenRow(|seen|, p.bitWidth, b, avx2, i); r <= i && seen[i] == CodesOf(c, b)[r]
    {
      SeenCode(p, c, anchor, b, avx2, i);
    }
    SeenStepsIff(c, anchor, b, p.bitWidth, avx2, seen);
    DecodedIff(q, c, anchor, b);
  }

  lemma CodesAgreeUnlessRewound(c: Column<int>, b: nat, bw: nat, avx2: bool)
    requires c.WellFormed() && b > 0 && !Rewinds(|c.values|, bw, b, avx2)
    ensures CodesAgree(c, b, bw, avx2)
  {
  }

  /** The packed codes of a column decode to it, unless its bitmap is dropped. */
  lemma EncodedDelta(p: Packed, c: Column<int>, anchor: int, b: nat)
    requires c.WellFormed() && 0 < b <= REGISTER && AllSigned(c.values, b) && EncodesDelta(p, c, anchor, b)
    ensures SameColumn(DecodeDelta(p, anchor, b), c) <==> KeepsNulls(c)
  {
    if KeepsNulls(c) {
      SeenDelta(p, c, anchor, b, false);
      CodesAgreeUnlessRewound(c, b, p.bitWidth, false);
    } else {
      NullsLost(p, c, DecodeDelta(p, anchor, b));
    }
  }

  class LiquidPrimitiveDeltaArray {
    const bits: nat
    const anchor: int
    const bitPacked: BitPackedArray

    constructor (bits: nat, anchor: int, bitPacked: BitPackedArray)
      ensures this.bits == bits && this.anchor == anchor && this.bitPacked == bitPacked
    {
      this.bits, this.anchor, this.bitPacked := bits, anchor, bitPacked;
    }

    ghost predicate Valid()
      reads bitPacked
    {
      NativeType(bits, true).Valid() && bitPacked.View().Sound()
    }

    ghost function Decoded(): (c: Column<int>)
      requires Valid()
      reads bitPacked
      ensures c.WellFormed()
    {
      DecodeDelta(bitPacked.View(), anchor, bits)
    }

    static method FromArrow(c: Column<int>, bits: nat) returns (a: LiquidPrimitiveDeltaArray)
      requires c.WellFormed() && NativeType(bits, true).Valid() && |c.values| < TWO_32 && AllSigned(c.values, bits)
      ensures fresh(a) && fresh(a.bitPacked) && a.bits == bits
      ensures a.Valid() && (SameColumn(a.Decoded(), c) <==> KeepsNulls(c))
      ensures DeltaWidthIs(c, bits, a.bitPacked.bitWidth) && a.bitPacked.length == |c.values|
      ensures c.NullCount() == |c.values| ==> a.anchor == 0
      ensures c.NullCount() < |c.values| ==> EncodesDelta(a.bitPacked.View(), c, a.anchor, bits)
    {
      var n := |c.values|;
      if c.NullCount() == n {
        var packed := new BitPackedArray(Zeros(n), Some(Zeros(CeilDiv8(n))), 0);
        a := new LiquidPrimitiveDeltaArray(bits, 0, packed);
        NullColumn(packed.View(), c, a.Decoded());
        return;
      }
      a := EncodeCodes(c, bits);
      EncodedDelta(a.bitPacked.View(), c, a.anchor, bits);
    }

    /** The encoding of a column that is not all null. */
    static method EncodeCodes(c: Column<int>, bits: nat) returns (a: LiquidPrimitiveDeltaArray)
      requires c.WellFormed() && NativeType(bits, true).Valid() && |c.values| < TWO_32 && AllSigned(c.values, bits)
      ensures fresh(a) && fresh(a.bitPacked) && a.bits == bits
      ensures EncodesDelta(a.bitPacked.View(), c, a.anchor, bits)
      ensures exists m :: Greatest(CodesOf(c, bits), m) && a.bitPacked.bitWidth == GetBitWidth(m)
    {
      var codes, maxCode, anchor := EncodeLoop(c.values, c.ValidRows(), bits);
      var packed := PackCodes(c, codes, maxCode, bits);
      a := new LiquidPrimitiveDeltaArray(bits, anchor, packed);
    }

    /** Codes and bitmap, packed at the width of the greatest code. */
    static method PackCodes(c: Column<int>, codes: seq<nat>, maxCode: nat, bits: nat) returns (packed: BitPackedArray)
      requires c.WellFormed() && |codes| == |c.values| < TWO_32
      requires Greatest(codes, maxCode) && 0 < bits <= 64 && maxCode < Pow2(bits)
      ensures fresh(packed) && packed.View().Sound()
      ensures packed.View().Holds(codes, GetBitWidth(maxCode)) && packed.nullBitmap == ArrayBitmap(c)
      ensures forall i :: 0 <= i < |codes| ==> codes[i] < Pow2(packed.bitWidth)
    {
      WidthWithin(maxCode, bits);
      packed := new BitPackedArray(codes, c.KeptBitmap(), GetBitWidth(maxCode));
    }

    /** The encoding loop: codes, their greatest, and the first value that is not null. */
    static method EncodeLoop(values: seq<int>, valid: seq<bool>, bits: nat)
      returns (codes: seq<nat>, maxCode: nat, anchor: int)
      requires |valid| == |values| && 0 < bits <= REGISTER && AllSigned(values, bits)
      ensures codes == Codes(values, valid, bits, |values|)
      ensures maxCode < Pow2(bits) && Greatest(codes, maxCode)
      ensures forall i :: 0 <= i < |valid| && valid[i] && LastValid(valid, i) < 0 ==> anchor == values[i]
    {
      codes, maxCode, anchor := [], 0, 0;
      var prev, havePrev := 0, false;
      ghost var first := 0;
      for i := 0 to |values|
        invariant codes == Codes(values, valid, bits, i)
        invariant Greatest(codes, maxCode) && maxCode < Pow2(bits)
        invariant havePrev == (LastValid(valid, i) >= 0)
        invariant havePrev ==> prev == values[LastValid(valid, i)]
        invariant havePrev ==> first < i && valid[first] && LastValid(valid, first) < 0 && anchor == values[first]
      {
        var code := 0;
        if valid[i] {
          if havePrev {
            code := DeltaCode(values[i], prev, bits);
          } else {
            anchor, havePrev := values[i], true;
            first := i;
          }
          prev := values[i];
        }
        NextCode(values, valid, bits, codes, maxCode, i);
        if code > maxCode { maxCode := code; }
        codes := codes + [code];
      }
      OnlyFirst(values, valid, first, havePrev, anchor);
    }

    method ToArrow(avx2: bool) returns (c: Column<int>, nulls: nat)
      requires Valid() && Ends(bitPacked.length, bitPacked.bitWidth, bits, avx2)
      ensures Seen(bitPacked.View(), bits, avx2).Sound()
      ensures c == DecodeDelta(Seen(bitPacked.View(), bits, avx2), anchor, bits)
      ensures nulls == c.NullCount()
    {
      var n := bitPacked.length;
      var temp := new nat[n];
      ghost var p := Seen(bitPacked.View(), bits, avx2);
      SeenNulls(bitPacked.View(), bits, avx2);
      bitPacked.BulkUnpackTo(temp, bits, avx2);
      var values := DecodeLoop(temp, DeltaSteps(bits), ValidRows(p), Unpacked(p, bits));
      nulls := bitPacked.NullCount();
      c := Column(values, bitPacked.View().NullBuffer());
      NullCountAgrees(p, values);
    }

    /** The decoding loop: the running value starts at the anchor and steps at every later row that is not null. */
    method DecodeLoop(temp: array<nat>, step: Step, ghost valid: seq<bool>, ghost codes: seq<nat>)
      returns (values: seq<int>)
      requires bitPacked.View().Sound() && temp.Length == bitPacked.length == |valid| == |codes|
      requires forall i {:trigger bitPacked.View().IsNull(i)} :: 0 <= i < |valid| ==>
                 valid[i] == !bitPacked.View().IsNull(i)
      requires temp[..] == codes
      ensures values == RowValues(valid, codes, anchor, step, |valid|)
    {
      values := [];
      var current, haveFirst := anchor, false;
      for i := 0 to temp.Length
        invariant values == RowValues(valid, codes, anchor, step, i)
        invariant Running(valid, codes, anchor, step, i) == if haveFirst then Some(current) else None
      {
        assert valid[i] == !bitPacked.View().IsNull(i);
        if bitPacked.IsNull(i) {
          values := values + [0];
        } else if !haveFirst {
          values := values + [anchor];
          current, haveFirst := anchor, true;
        } else {
          current := step(current, temp[i]);
          values := values + [current];
        }
      }
    }
  }

  lemma OnlyFirst(values: seq<int>, valid: seq<bool>, first: nat, some: bool, anchor: int)
    requires |values| == |valid| && some == (LastValid(valid, |valid|) >= 0)
    requires some ==> first < |valid| && valid[first] && LastValid(valid, first) < 0 && anchor == values[first]
    ensures forall i :: 0 <= i < |valid| && valid[i] && LastValid(valid, i) < 0 ==> anchor == values[i]
  {
    forall i | 0 <= i < |valid| && valid[i] && LastValid(valid, i) < 0 ensures anchor == values[i] {
      OneFirst(valid, i, |valid|);
      OneFirst(valid, first, i);
      OneFirst(valid, i, first);
    }
  }

  lemma NextCode(values: seq<int>, valid: seq<bool>, b: nat, codes: seq<nat>, m: nat, i: nat)
    requires i < |values| == |valid| && 0 < b <= REGISTER && AllSigned(values, b)
    requires codes == Codes(values, valid, b, i) && Greatest(codes, m) && m < Pow2(b)
    ensures var code := RowCode(values, valid, b, i); var most := if code > m then code else m;
            codes + [code] == Codes(values, valid, b, i + 1) && Greatest(codes + [code], most) && most < Pow2(b)
  {
    if valid[i] && LastValid(valid, i) >= 0 {
      CodeFits(values[i], values[LastValid(valid, i)], b);
    }
    GreatestNext(codes, m, RowCode(values, valid, b, i));
  }

  lemma GreatestNext(codes: seq<nat>, m: nat, code: nat)
    requires Greatest(codes, m)
    ensures Greatest(codes + [code], if code > m then code else m)
  {
    var more := codes + [code];
    if code <= m && m > 0 {
      var i :| 0 <= i < |codes| && codes[i] == m;
      assert more[i] == m;
    }
    assert more[|codes|] == code;
  }

  /** Delta encoding restores the column, for any null pattern and any values, including differences that wrap, if and
      only if the rows that the 32-bit byte index of a copy confuses have equal codes. */
  method RoundTrip(c: Column<int>, bits: nat, avx2: bool) returns (d: Column<int>, nulls: nat, bw: nat)
    requires c.WellFormed() && NativeType(bits, true).Valid() && AllSigned(c.values, bits) && AllEnd(|c.values|, avx2)
    ensures d.WellFormed() && nulls == d.NullCount() && DeltaWidthIs(c, bits, bw)
    ensures SameColumn(d, c) <==> CodesAgree(c, bits, bw, avx2)
    ensures !Rewinds(|c.values|, bw, bits, avx2) ==> SameColumn(d, c)
  {
    var a := LiquidPrimitiveDeltaArray.FromArrow(c, bits);
    bw := a.bitPacked.bitWidth;
    EndsAtAnyWidth(|c.values|, bw, bits, avx2);
    d, nulls := a.ToArrow(avx2);
    if c.NullCount() < |c.values| {
      SeenDelta(a.bitPacked.View(), c, a.anchor, bits, avx2);
    }
    if !Rewinds(|c.values|, bw, bits, avx2) {
      CodesAgreeUnlessRewound(c, bits, bw, avx2);
    }
  }
}
