/**
  `LiquidFloatQuantizedArray`: the integers of a float column cut to half their width, and
  comparisons answered from the buckets that the cut leaves.
 */
module Quantized {
  import opened Arith
  import opened Alp
  import opened Arrow
  import opened BitPacked
  import opened Bytes
  import opened FrameOfReference
  import opened Ieee
  import opened Native
  import opened Unpacking
  import opened Wrappers

  datatype Operator = OpEq | OpNotEq | OpLt | OpLtEq | OpGt | OpGtEq

  /** The comparison itself. */
  predicate Compare(op: Operator, v: Double, k: Double) {
    match op
    case OpEq => Eq(v, k)
    case OpNotEq => !Eq(v, k)
    case OpLt => Lt(v, k)
    case OpLtEq => Le(v, k)
    case OpGt => Lt(k, v)
    case OpGtEq => Le(k, v)
  }

  /** The operators on numbers, and on NaN, of which only `not equal` is true. */
  lemma CompareRules(op: Operator, v: Double, k: Double)
    ensures v.NaN? || k.NaN? ==> (Compare(op, v, k) <==> op.OpNotEq?)
    ensures v.IsFinite() && k.IsFinite() ==>
              (Compare(op, v, k) <==> match op
                                      case OpEq => v.Num() == k.Num()
                                      case OpNotEq => v.Num() != k.Num()
                                      case OpLt => v.Num() < k.Num()
                                      case OpLtEq => v.Num() <= k.Num()
                                      case OpGt => v.Num() > k.Num()
                                      case OpGtEq => v.Num() >= k.Num())
  {
  }

  /** The answer for a whole bucket `[lo, hi]`, or none when the bucket does not decide. */
  function Handle(op: Operator, lo: Double, hi: Double, k: Double): Option<bool> {
    match op
    case OpEq => if Lt(k, lo) || Lt(hi, k) then Some(false) else None
    case OpNotEq => if Lt(k, lo) || Lt(hi, k) then Some(true) else None
    case OpLt => if Le(k, lo) then Some(false) else if Lt(hi, k) then Some(true) else None
    case OpLtEq => if Lt(k, lo) then Some(false) else if Le(hi, k) then Some(true) else None
    case OpGt => if Lt(k, lo) then Some(true) else if Le(hi, k) then Some(false) else None
    case OpGtEq => if Le(k, lo) then Some(true) else if Lt(hi, k) then Some(false) else None
  }

  ghost predicate HandlersSoundFor(lo: Double, hi: Double, v: Double) {
    forall op: Operator, k: Double :: Handle(op, lo, hi, k).Some? ==> Handle(op, lo, hi, k).value == Compare(op, v, k)
  }

  /** The six handlers are right about a value, for every literal, precisely when the value lies in the bucket. */
  lemma HandlersSoundIff(lo: Double, hi: Double, v: Double)
    requires !lo.NaN? && !hi.NaN? && !v.NaN?
    ensures HandlersSoundFor(lo, hi, v) <==> Le(lo, v) && Le(v, hi)
  {
    if Le(lo, v) && Le(v, hi) {
      forall op: Operator, k: Double | Handle(op, lo, hi, k).Some?
        ensures Handle(op, lo, hi, k).value == Compare(op, v, k)
      {
        InBucket(op, lo, hi, v, k);
      }
    } else {
      Trichotomy(lo, v);
      Trichotomy(v, hi);
      assert Handle(OpEq, lo, hi, v) == Some(false) && Compare(OpEq, v, v);
    }
  }

  lemma InBucket(op: Operator, lo: Double, hi: Double, v: Double, k: Double)
    requires Le(lo, v) && Le(v, hi) && Handle(op, lo, hi, k).Some?
    ensures Handle(op, lo, hi, k).value == Compare(op, v, k)
  {
  }

  /** Does a bucket settle a comparison? Equality when the literal is outside it, and an order when its two ends compare
      alike; an end that wrapped below the other leaves nothing open. NaN is never settled. */
  predicate Decides(op: Operator, lo: Double, hi: Double, k: Double) {
    && !k.NaN?
    && if op.OpEq? || op.OpNotEq? then !(Le(lo, k) && Le(k, hi))
       else Lt(hi, lo) || Compare(op, lo, k) == Compare(op, hi, k)
  }

  /** The handlers answer if and only if the bucket settles the comparison, and then as its lower end compares; with
      equality the answer is that no value of the bucket is equal. */
  lemma HandleDecidesIff(op: Operator, lo: Double, hi: Double, k: Double)
    requires !lo.NaN? && !hi.NaN?
    ensures Handle(op, lo, hi, k).Some? <==> Decides(op, lo, hi, k)
    ensures Handle(op, lo, hi, k).Some? ==>
              Handle(op, lo, hi, k).value == if op.OpEq? then false else if op.OpNotEq? then true
                                             else Compare(op, lo, k)
  {
  }

  /** A patched row that is answered from its bucket as well has its patch ORed in. Its answers are right, for every
      operator and literal the bucket decides, precisely when the patch lies in the bucket; NaN lies in none. */
  lemma LateRowIff(lo: Double, hi: Double, v: Double)
    requires !lo.NaN? && !hi.NaN?
    ensures LateRowSound(lo, hi, v) <==> Le(lo, v) && Le(v, hi)
  {
    if Le(lo, v) && Le(v, hi) {
      forall op: Operator, k: Double | Handle(op, lo, hi, k).Some?
        ensures (Handle(op, lo, hi, k).value || Compare(op, v, k)) == Compare(op, v, k)
      {
        InBucket(op, lo, hi, v, k);
      }
    } else if v.NaN? {
      assert Handle(OpGtEq, lo, hi, lo) == Some(true) && !Compare(OpGtEq, v, lo);
    } else {
      Trichotomy(lo, v);
      Trichotomy(v, hi);
      assert Handle(OpNotEq, lo, hi, v) == Some(true) && !Compare(OpNotEq, v, v);
    }
  }

  ghost predicate LateRowSound(lo: Double, hi: Double, v: Double) {
    forall op: Operator, k: Double :: Handle(op, lo, hi, k).Some? ==>
      (Handle(op, lo, hi, k).value || Compare(op, v, k)) == Compare(op, v, k)
  }

  // ---------------------------------------------------------------- buckets

  /** The integer a row was encoded as, recomputed from its unpacked offset. */
  function FullInteger(offset: nat, reference: int, b: nat): int
    requires b > 0
  {
    ToSigned(Mask(reference, b) + offset, b)
  }

  /** What squeezing stores for a row, before the cut to the new width. */
  function QuantizedOffset(full: int, reference: int, s: nat, b: nat): nat {
    Mask(Mask(Shr(full, s), b) - Mask(Shr(reference, s), b), b)
  }

  /** The bucket a stored quantum stands for, in the arithmetic of the predicate. */
  function BucketLow(u: nat, reference: int, s: nat, b: nat): int
    requires b > 0
  {
    ToSigned(Mask(Shl(BucketIndex(u, reference, s, b), s), b) + Mask(reference, b), b)
  }

  function BucketHigh(u: nat, reference: int, s: nat, b: nat): int
    requires b > 0
  {
    ToSigned(Mask(Shl(Mask(BucketIndex(u, reference, s, b) + 1, b), s), b) + Mask(reference, b), b)
  }

  function BucketIndex(u: nat, reference: int, s: nat, b: nat): nat
    requires b > 0
  {
    Mask(ToSigned(Shr(reference, s) + ToSigned(u, b), b), b)
  }

  /** The bucket the arithmetic intends; the reference is added to an index that already contains it. */
  function Low(full: int, reference: int, s: nat): int { Shl(Shr(full, s), s) + reference }

  function High(full: int, reference: int, s: nat): int { Shl(Shr(full, s) + 1, s) + reference }

  /** A row's quantum survives the cut, its bucket does not wrap, and its integer lies in its bucket. */
  predicate Covered(full: int, reference: int, s: nat, newWidth: nat, b: nat)
    requires b > 0
  {
    && 0 <= Shr(full, s) - Shr(reference, s) < Pow2(newWidth)
    && IsSigned(Low(full, reference, s), b) && IsSigned(High(full, reference, s), b)
    && Low(full, reference, s) <= full <= High(full, reference, s)
  }

  /** Within the register, an integer lies in its bucket precisely when the reference is within its remainder. */
  lemma CoveredIff(full: int, reference: int, s: nat)
    ensures Low(full, reference, s) <= full <= High(full, reference, s)
       <==> reference <= Mask(full, s) <= Pow2(s) + reference
  {
    SplitAt(full, s);
    ShlAdd(Shr(full, s), 1, s);
    ShlMul(1, s);
  }

  /** With reference 0 and two spare bits, every row is covered. */
  lemma ZeroReferenceCovered(full: nat, s: nat, newWidth: nat, b: nat)
    requires full < Pow2(s + newWidth) && s + newWidth + 1 < b
    ensures Covered(full, 0, s, newWidth, b)
  {
    ShrBound(full, s, newWidth);
    ShrZero(s);
    CoveredIff(full, 0, s);
    MaskBound(full, s);
    SplitAt(full, s);
    ShlAdd(Shr(full, s), 1, s);
    ShlMul(1, s);
    Pow2Mono(s + newWidth, b - 2);
    Pow2Mono(s, b - 2);
    ShlBound(Shr(full, s), newWidth, s);
  }

  lemma ShrZero(s: nat)
    ensures Shr(0, s) == 0
  {
    ShrBound(0, s, 0);
  }

  lemma {:induction false} ShrSigned(x: int, s: nat, b: nat)
    requires b > 0 && IsSigned(x, b)
    ensures IsSigned(Shr(x, s), b)
    decreases s
  {
    if s > 0 {
      ShrSigned(x / 2, s - 1, b);
    }
  }

  /** The wrapped shift of a register is the register of the shift. */
  lemma ShiftedRegister(q: int, s: nat, b: nat)
    requires s <= b
    ensures Mask(Shl(Mask(q, b), s), b) == Mask(Shl(q, s), b)
  {
    MaskOfShl(Mask(q, b), s, b);
    MaskOfShl(q, s, b);
    MaskMask(q, b - s, b);
  }

  /** The index a row's quantum stands for after the cut to the new width. */
  function StoredIndex(full: int, reference: int, s: nat, newWidth: nat): int {
    Shr(reference, s) + Mask(Shr(full, s) - Shr(reference, s), newWidth)
  }

  /** The ends of the bucket that is computed for a row; index, shift and sum may all wrap. */
  function RowLow(full: int, reference: int, s: nat, newWidth: nat, b: nat): int
    requires b > 0
  {
    ToSigned(Shl(StoredIndex(full, reference, s, newWidth), s) + reference, b)
  }

  function RowHigh(full: int, reference: int, s: nat, newWidth: nat, b: nat): int
    requires b > 0
  {
    ToSigned(Shl(StoredIndex(full, reference, s, newWidth) + 1, s) + reference, b)
  }

  /** The quantum read back is the difference of the shifted integers, cut. */
  lemma QuantumCut(q: int, r: int, newWidth: nat, b: nat)
    requires newWidth <= b
    ensures Mask(Mask(Mask(Mask(q, b) - Mask(r, b), b), newWidth), b) == Mask(q - r, newWidth)
  {
    MaskDiff(q, r, b);
    MaskMask(q - r, newWidth, b);
    MaskMask(q - r, b, newWidth);
  }

  /** Registers hold the index up to wrapping. */
  lemma IndexWraps(u: nat, reference: int, s: nat, b: nat)
    requires b > 0
    ensures BucketIndex(u, reference, s, b) == Mask(Shr(reference, s) + u, b)
  {
    var r, v := Shr(reference, s), ToSigned(u, b);
    SignedCongruent(u, b);
    SignedCongruent(r + v, b);
    CongruentSum(v, u, r, b);
  }

  lemma CongruentSum(x: int, y: int, r: int, b: nat)
    requires Mask(x, b) == Mask(y, b)
    ensures Mask(r + x, b) == Mask(r + y, b)
  {
    MaskSum(x, r, b);
    MaskSum(y, r, b);
  }

  lemma EndWraps(i: int, reference: int, s: nat, b: nat)
    requires b > 0 && s <= b
    ensures ToSigned(Mask(Shl(Mask(i, b), s), b) + Mask(reference, b), b) == ToSigned(Shl(i, s) + reference, b)
  {
    ShiftedRegister(i, s, b);
    ResidueSum(reference, Shl(i, s), b);
    SameSigned(Mask(Shl(i, s), b) + Mask(reference, b), Shl(i, s) + reference, b);
  }

  lemma IndexComputed(full: int, reference: int, s: nat, newWidth: nat, b: nat, u: nat)
    requires 0 < b && newWidth <= b && u == Mask(Mask(QuantizedOffset(full, reference, s, b), newWidth), b)
    ensures BucketIndex(u, reference, s, b) == Mask(StoredIndex(full, reference, s, newWidth), b)
  {
    var q, r := Shr(full, s), Shr(reference, s);
    QuantumCut(q, r, newWidth, b);
    assert u == Mask(q - r, newWidth);
    IndexWraps(u, reference, s, b);
  }

  /** The bucket the predicate computes for a row, for every integer, reference, shift and width. */
  lemma ComputedBucket(full: int, reference: int, s: nat, newWidth: nat, b: nat, u: nat)
    requires 0 < b && s <= b && newWidth <= b && u == Mask(Mask(QuantizedOffset(full, reference, s, b), newWidth), b)
    ensures BucketLow(u, reference, s, b) == RowLow(full, reference, s, newWidth, b)
    ensures BucketHigh(u, reference, s, b) == RowHigh(full, reference, s, newWidth, b)
  {
    IndexComputed(full, reference, s, newWidth, b, u);
    EndsComputed(StoredIndex(full, reference, s, newWidth), reference, s, b, u);
  }

  lemma EndsComputed(i: int, reference: int, s: nat, b: nat, u: nat)
    requires 0 < b && s <= b && BucketIndex(u, reference, s, b) == Mask(i, b)
    ensures BucketLow(u, reference, s, b) == ToSigned(Shl(i, s) + reference, b)
    ensures BucketHigh(u, reference, s, b) == ToSigned(Shl(i + 1, s) + reference, b)
  {
    EndWraps(i, reference, s, b);
    MaskSum(i, 1, b);
    EndWraps(i + 1, reference, s, b);
  }

  /** For a covered row nothing is cut and nothing wraps. */
  lemma CoveredBucket(full: int, reference: int, s: nat, newWidth: nat, b: nat)
    requires 0 < b && Covered(full, reference, s, newWidth, b)
    ensures RowLow(full, reference, s, newWidth, b) == Low(full, reference, s)
    ensures RowHigh(full, reference, s, newWidth, b) == High(full, reference, s)
  {
    MaskSmall(Shr(full, s) - Shr(reference, s), newWidth);
    SignedRoundTrip(Low(full, reference, s), b);
    SignedRoundTrip(High(full, reference, s), b);
  }

  /** Larger integers decode to larger values, and none to NaN. */
  ghost predicate Monotone(codec: Codec)
    requires codec.bits > 0
  {
    forall x: int, y: int :: IsSigned(x, codec.bits) && IsSigned(y, codec.bits) && x <= y ==>
      Le(codec.dec(x), codec.dec(y))
  }

  /** What the predicate decides about a row from its stored quantum. */
  function RowVerdict(op: Operator, k: Double, u: nat, reference: int, s: nat, codec: Codec): Option<bool>
    requires codec.bits > 0
  {
    Handle(op, codec.dec(BucketLow(u, reference, s, codec.bits)), codec.dec(BucketHigh(u, reference, s, codec.bits)), k)
  }

  /** The codec tells the order of two integers. */
  predicate Ordered(codec: Codec, x: int, y: int) {
    Le(codec.dec(x), codec.dec(y)) <==> x <= y
  }

  /** A row is answered soundly, for every operator and literal, precisely when its decoded value lies between the
      decoded ends of the bucket computed for it; where the codec tells these integers apart, precisely when its
      integer does. */
  lemma RowSoundIff(full: int, reference: int, s: nat, newWidth: nat, codec: Codec)
    requires 0 < codec.bits && s <= codec.bits && newWidth <= codec.bits
    requires !codec.dec(RowLow(full, reference, s, newWidth, codec.bits)).NaN? && !codec.dec(full).NaN?
    requires !codec.dec(RowHigh(full, reference, s, newWidth, codec.bits)).NaN?
    ensures var u := Mask(Mask(QuantizedOffset(full, reference, s, codec.bits), newWidth), codec.bits);
            var lo, hi :=
                RowLow(full, reference, s, newWidth, codec.bits), RowHigh(full, reference, s, newWidth, codec.bits);
            var sound := HandlersSoundFor(codec.dec(BucketLow(u, reference, s, codec.bits)),
                                          codec.dec(BucketHigh(u, reference, s, codec.bits)), codec.dec(full));
            && (sound <==> Le(codec.dec(lo), codec.dec(full)) && Le(codec.dec(full), codec.dec(hi)))
            && (Ordered(codec, lo, full) && Ordered(codec, full, hi) ==> (sound <==> lo <= full <= hi))
  {
    var u := Mask(Mask(QuantizedOffset(full, reference, s, codec.bits), newWidth), codec.bits);
    ComputedBucket(full, reference, s, newWidth, codec.bits, u);
    HandlersSoundIff(codec.dec(RowLow(full, reference, s, newWidth, codec.bits)),
                     codec.dec(RowHigh(full, reference, s, newWidth, codec.bits)), codec.dec(full));
  }

  // ---------------------------------------------------------------- the predicate over a column

  /** How many leading patches the predicate's cursor gets past: it never moves off a null row. */
  function PassablePatches(rows: seq<nat>, valid: seq<bool>): (n: nat)
    requires forall j :: 0 <= j < |rows| ==> rows[j] < |valid|
    ensures n <= |rows|
    ensures forall j :: 0 <= j < n ==> valid[rows[j]]
    ensures n < |rows| ==> !valid[rows[n]]
  {
    if rows == [] || !valid[rows[0]] then 0 else 1 + PassablePatches(rows[1..], valid)
  }

  /** Does the predicate leave row `i` to its patch? */
  predicate LeftToPatch(rows: seq<nat>, valid: seq<bool>, i: nat)
    requires forall j :: 0 <= j < |rows| ==> rows[j] < |valid|
  {
    i in rows[..PassablePatches(rows, valid)]
  }

  function LeftRows(rows: seq<nat>, valid: seq<bool>): (s: seq<bool>)
    requires forall j :: 0 <= j < |rows| ==> rows[j] < |valid|
    ensures |s| == |valid|
    ensures forall i {:trigger LeftToPatch(rows, valid, i)} :: 0 <= i < |valid| ==> s[i] == LeftToPatch(rows, valid, i)
  {
    seq(|valid|, i requires 0 <= i < |valid| => LeftToPatch(rows, valid, i))
  }

  /** Which rows are not null. */
  function NonNull(p: Packed): (s: seq<bool>)
    requires p.Sound()
    ensures |s| == p.length
    ensures forall i {:trigger p.IsNull(i)} :: 0 <= i < p.length ==> s[i] == !p.IsNull(i)
  {
    seq(p.length, i requires 0 <= i < p.length => !p.IsNull(i))
  }

  /** What the buckets say of every row. */
  function Verdicts(q: Packed, reference: int, s: nat, codec: Codec, op: Operator, k: Double): (v: seq<Option<bool>>)
    requires codec.bits > 0
    ensures |v| == q.length
    ensures forall i :: 0 <= i < q.length ==>
              v[i] == RowVerdict(op, k, Mask(q.Element(i), codec.bits), reference, s, codec)
  {
    seq(q.length, i requires 0 <= i < q.length =>
      RowVerdict(op, k, Mask(q.Element(i), codec.bits), reference, s, codec))
  }

  /** Some row that is not null and not left to its patch is undecided. */
  ghost predicate Undecided(verdicts: seq<Option<bool>>, left: seq<bool>, valid: seq<bool>)
    requires |verdicts| == |valid| == |left|
  {
    exists i :: 0 <= i < |valid| && valid[i] && !left[i] && verdicts[i].None?
  }

  /** No integer of the type decodes to NaN. */
  ghost predicate NumericCodec(codec: Codec)
    requires codec.bits > 0
  {
    forall x {:trigger codec.dec(x)} :: IsSigned(x, codec.bits) ==> !codec.dec(x).NaN?
  }

  /** The bucket of a stored quantum settles the comparison. */
  predicate BucketDecides(u: nat, reference: int, s: nat, codec: Codec, op: Operator, k: Double)
    requires codec.bits > 0
  {
    var lo, hi := BucketLow(u, reference, s, codec.bits), BucketHigh(u, reference, s, codec.bits);
    Decides(op, codec.dec(lo), codec.dec(hi), k)
  }

  /** Some row that is not null and not left to its patch has a bucket that settles nothing. */
  ghost predicate SomeOpen(q: Packed, reference: int, s: nat, codec: Codec, op: Operator, k: Double, left: seq<bool>,
                           valid: seq<bool>)
    requires codec.bits > 0 && |left| == |valid|
  {
    exists i {:trigger valid[i], left[i]} :: 0 <= i < |valid| && valid[i] && !left[i]
      && !BucketDecides(Mask(q.Element(i), codec.bits), reference, s, codec, op, k)
  }

  lemma VerdictDecidesIff(op: Operator, k: Double, u: nat, reference: int, s: nat, codec: Codec)
    requires codec.bits > 0 && NumericCodec(codec)
    ensures RowVerdict(op, k, u, reference, s, codec).Some? <==> BucketDecides(u, reference, s, codec, op, k)
  {
    var i := BucketIndex(u, reference, s, codec.bits);
    ToSignedRange(Mask(Shl(i, s), codec.bits) + Mask(reference, codec.bits), codec.bits);
    ToSignedRange(Mask(Shl(Mask(i + 1, codec.bits), s), codec.bits) + Mask(reference, codec.bits), codec.bits);
    HandleDecidesIff(op, codec.dec(BucketLow(u, reference, s, codec.bits)),
                     codec.dec(BucketHigh(u, reference, s, codec.bits)), k);
  }

  lemma UndecidedIffOpen(q: Packed, reference: int, s: nat, codec: Codec, op: Operator, k: Double, left: seq<bool>,
                         valid: seq<bool>)
    requires codec.bits > 0 && |left| == |valid| == q.length
    ensures NumericCodec(codec) ==> (Undecided(Verdicts(q, reference, s, codec, op, k), left, valid)
                                     <==> SomeOpen(q, reference, s, codec, op, k, left, valid))
  {
    if NumericCodec(codec) {
      var verdicts := Verdicts(q, reference, s, codec, op, k);
      forall i {:trigger valid[i], left[i]} {:trigger verdicts[i]} | 0 <= i < q.length
        ensures verdicts[i].Some? <==> BucketDecides(Mask(q.Element(i), codec.bits), reference, s, codec, op, k)
      {
        VerdictDecidesIff(op, k, Mask(q.Element(i), codec.bits), reference, s, codec);
      }
    }
  }

  predicate SaysTrue(verdicts: seq<Option<bool>>, left: seq<bool>, valid: seq<bool>, i: nat)
    requires i < |verdicts| == |valid| == |left|
  {
    valid[i] && !left[i] && verdicts[i] == Some(true)
  }

  ghost predicate PatchSaysTrue(op: Operator, k: Double, rows: seq<nat>, patches: seq<Double>, n: nat, i: nat)
    requires n <= |rows| == |patches|
  {
    exists j :: 0 <= j < n && rows[j] == i && Compare(op, patches[j], k)
  }

  ghost predicate Ascending(rows: seq<nat>) {
    forall j, k :: 0 <= j < k < |rows| ==> rows[j] < rows[k]
  }

  function Decisions(decide: nat -> Option<bool>, unpacked: seq<nat>): (s: seq<Option<bool>>)
    ensures |s| == |unpacked|
    ensures forall i :: 0 <= i < |s| ==> s[i] == decide(unpacked[i])
  {
    seq(|unpacked|, i requires 0 <= i < |unpacked| => decide(unpacked[i]))
  }

  lemma VerdictsDecided(q: Packed, reference: int, s: nat, codec: Codec, op: Operator, k: Double, unpacked: seq<nat>,
                        decide: nat -> Option<bool>)
    requires codec.bits > 0 && |unpacked| == q.length
    requires forall i :: 0 <= i < q.length ==> unpacked[i] == Mask(q.Element(i), codec.bits)
    requires forall u {:trigger decide(u)} :: decide(u) == RowVerdict(op, k, u, reference, s, codec)
    ensures Decisions(decide, unpacked) == Verdicts(q, reference, s, codec, op, k)
  {
  }

  /** The cursor has passed the patches before row `i`, as far as it can. */
  ghost predicate CursorAt(rows: seq<nat>, valid: seq<bool>, next: nat, i: nat)
    requires forall j :: 0 <= j < |rows| ==> rows[j] < |valid|
  {
    var n := PassablePatches(rows, valid);
    next <= n && (next > 0 ==> rows[next - 1] < i) && (next < n ==> i <= rows[next])
  }

  /** At a row that is not null, the cursor is at the row's patch precisely when the row is left to it. */
  lemma CursorStep(rows: seq<nat>, valid: seq<bool>, next: nat, i: nat)
    requires forall j :: 0 <= j < |rows| ==> rows[j] < |valid|
    requires Ascending(rows) && i < |valid| && CursorAt(rows, valid, next, i)
    ensures valid[i] ==> (LeftToPatch(rows, valid, i) <==> next < |rows| && rows[next] == i)
    ensures CursorAt(rows, valid, if valid[i] && next < |rows| && rows[next] == i then next + 1 else next, i + 1)
  {
    var n := PassablePatches(rows, valid);
    if valid[i] && LeftToPatch(rows, valid, i) {
      var j :| 0 <= j < n && rows[..n][j] == i;
    } else if next < n {
      assert rows[..n][next] == rows[next];
    }
  }

  /** The loop over the rows, with its cursor into the patches; `decide` answers for a stored quantum. */
  method EvalBuckets(quantized: BitPackedArray, rows: seq<nat>, decide: nat -> Option<bool>, unpacked: array<nat>,
                     ghost left: seq<bool>, ghost valid: seq<bool>)
    returns (bits: seq<byte>, decided: bool)
    requires quantized.View().Sound() && unpacked.Length == |valid| == quantized.length
    requires Ascending(rows) && forall j :: 0 <= j < |rows| ==> rows[j] < |valid|
    requires forall i {:trigger quantized.View().IsNull(i)} :: 0 <= i < |valid| ==>
               valid[i] == !quantized.View().IsNull(i)
    requires left == LeftRows(rows, valid)
    ensures decided <==> !Undecided(Decisions(decide, unpacked[..]), left, valid)
    ensures |bits| == CeilDiv8(quantized.length)
    ensures decided ==> forall i :: 0 <= i < quantized.length ==>
              (BitRows(bits, quantized.length)[i] <==> SaysTrue(Decisions(decide, unpacked[..]), left, valid, i))
  {
    var len := quantized.length;
    bits := Zeros(CeilDiv8(len));
    BitRowsZeros(len);
    ghost var bitRows, verdicts := BitRows(bits, len), Decisions(decide, unpacked[..]);
    var nextPatch, ignorePatches := 0, rows == [];
    for i := 0 to len
      invariant |bits| == CeilDiv8(len) && bitRows == BitRows(bits, len)
      invariant nextPatch <= |rows| && (ignorePatches <==> nextPatch == |rows|)
      invariant CursorAt(rows, valid, nextPatch, i)
      invariant forall j :: i <= j < len ==> !bitRows[j]
      invariant forall j :: 0 <= j < i ==> (bitRows[j] <==> SaysTrue(verdicts, left, valid, j))
      invariant forall j :: 0 <= j < i && valid[j] && !left[j] ==> verdicts[j].Some?
    {
      CursorStep(rows, valid, nextPatch, i);
      assert valid[i] == !quantized.View().IsNull(i);
      if !quantized.IsNull(i) {
        if !ignorePatches && nextPatch < |rows| && rows[nextPatch] == i {
          nextPatch := nextPatch + 1;
          if nextPatch == |rows| { ignorePatches := true; }
        } else {
          var d := decide(unpacked[i]);
          if d.None? {
            return bits, false;
          }
          if d.value {
            BitRowsSet(bits, len, i);
            bits, bitRows := SetBit(bits, i), bitRows[i := true];
          }
        }
      }
    }
    decided := true;
  }

  datatype BooleanArray = BooleanArray(length: nat, bits: seq<byte>, validity: Option<seq<byte>>, nullCount: nat)

  class LiquidFloatQuantizedArray {
    const codec: Codec
    const quantized: BitPackedArray
    const referenceValue: int
    const bucketWidth: nat
    const patchIndices: seq<nat>
    const patchValues: seq<Double>

    constructor (codec: Codec, quantized: BitPackedArray, referenceValue: int, bucketWidth: nat,
                 patchIndices: seq<nat>, patchValues: seq<Double>)
      ensures this.codec == codec && this.quantized == quantized && this.referenceValue == referenceValue
      ensures this.bucketWidth == bucketWidth
      ensures this.patchIndices == patchIndices && this.patchValues == patchValues
    {
      this.codec, this.quantized, this.referenceValue := codec, quantized, referenceValue;
      this.bucketWidth, this.patchIndices, this.patchValues := bucketWidth, patchIndices, patchValues;
    }

    ghost predicate Valid()
      reads quantized
    {
      && codec.Valid() && quantized.View().Sound()
      && |patchIndices| == |patchValues| && Ascending(patchIndices)
      && forall j :: 0 <= j < |patchIndices| ==> patchIndices[j] < quantized.length
    }

    ghost function ValidRows(): (s: seq<bool>)
      requires Valid()
      reads quantized
      ensures |s| == quantized.length
      ensures forall i {:trigger quantized.View().IsNull(i)} ::
                0 <= i < quantized.length ==> s[i] == !quantized.View().IsNull(i)
    {
      NonNull(quantized.View())
    }

    ghost function LeftToPatches(): (s: seq<bool>)
      requires Valid()
      reads quantized
      ensures |s| == quantized.length
    {
      LeftRows(patchIndices, ValidRows())
    }

    ghost function RowVerdicts(op: Operator, literal: Double, avx2: bool): (v: seq<Option<bool>>)
      requires Valid()
      reads quantized
      ensures |v| == quantized.length
    {
      Verdicts(Seen(quantized.View(), codec.bits, avx2), referenceValue, bucketWidth, codec, op, literal)
    }

    /** Answers from the buckets and the patches, or not at all. The unpacking must end, and the size of the mask in
        bytes, a 32-bit sum, must not wrap. */
    method TryEvalPredicate(op: Operator, literal: Double, avx2: bool) returns (r: Option<BooleanArray>)
      requires Valid() && Ends(quantized.length, quantized.bitWidth, codec.bits, avx2) && quantized.length + 7 < TWO_32
      ensures r.None? <==> Undecided(RowVerdicts(op, literal, avx2), LeftToPatches(), ValidRows())
      ensures NumericCodec(codec) ==>
                (r.None? <==> SomeOpen(Seen(quantized.View(), codec.bits, avx2), referenceValue, bucketWidth, codec, op,
                                       literal, LeftToPatches(), ValidRows()))
      ensures r.Some? ==>
                && r.value.length == quantized.length && |r.value.bits| == CeilDiv8(quantized.length)
                && r.value.validity == quantized.View().NullBuffer()
                && r.value.nullCount == quantized.View().NullCount()
      ensures r.Some? ==> forall i :: 0 <= i < quantized.length ==>
                (BitRows(r.value.bits, quantized.length)[i] <==>
                   || SaysTrue(RowVerdicts(op, literal, avx2), LeftToPatches(), ValidRows(), i)
                   || PatchSaysTrue(op, literal, patchIndices, patchValues, |patchIndices|, i))
    {
      var len := quantized.length;
      UndecidedIffOpen(Seen(quantized.View(), codec.bits, avx2), referenceValue, bucketWidth, codec, op, literal,
                       LeftToPatches(), ValidRows());
      var bits, decided := DecideRows(op, literal, avx2);
      if !decided {
        return None;
      }
      bits := ApplyPatches(op, literal, bits, len);
      var nullCount := quantized.NullCount();
      r := Some(BooleanArray(len, bits, quantized.View().NullBuffer(), nullCount));
    }

    /** Unpacks the quanta and asks the buckets. */
    method DecideRows(op: Operator, literal: Double, avx2: bool) returns (bits: seq<byte>, decided: bool)
      requires Valid() && Ends(quantized.length, quantized.bitWidth, codec.bits, avx2)
      ensures decided <==> !Undecided(RowVerdicts(op, literal, avx2), LeftToPatches(), ValidRows())
      ensures |bits| == CeilDiv8(quantized.length)
      ensures decided ==> forall i :: 0 <= i < quantized.length ==>
                (BitRows(bits, quantized.length)[i]
                 <==> SaysTrue(RowVerdicts(op, literal, avx2), LeftToPatches(), ValidRows(), i))
    {
      var unpacked := new nat[quantized.length];
      quantized.BulkUnpackTo(unpacked, codec.bits, avx2);
      var decide := (u: nat) => RowVerdict(op, literal, u, referenceValue, bucketWidth, codec);
      VerdictsDecided(Seen(quantized.View(), codec.bits, avx2), referenceValue, bucketWidth, codec, op, literal,
                      unpacked[..], decide);
      bits, decided := EvalBuckets(quantized, patchIndices, decide, unpacked, LeftToPatches(), ValidRows());
    }

    /** The loop that ORs in the comparisons of the patches. */
    method ApplyPatches(op: Operator, literal: Double, before: seq<byte>, len: nat) returns (bits: seq<byte>)
      requires |before| == CeilDiv8(len) && |patchIndices| == |patchValues|
      requires forall j :: 0 <= j < |patchIndices| ==> patchIndices[j] < len
      ensures |bits| == CeilDiv8(len)
      ensures forall i :: 0 <= i < len ==>
                (BitRows(bits, len)[i] <==>
                   BitRows(before, len)[i] || PatchSaysTrue(op, literal, patchIndices, patchValues, |patchIndices|, i))
    {
      bits := before;
      ghost var first, bitRows := BitRows(before, len), BitRows(before, len);
      for j := 0 to |patchIndices|
        invariant |bits| == CeilDiv8(len) && bitRows == BitRows(bits, len)
        invariant forall i :: 0 <= i < len ==>
          (bitRows[i] <==> first[i] || PatchSaysTrue(op, literal, patchIndices, patchValues, j, i))
      {
        forall i | 0 <= i < len {
          NextPatch(op, literal, patchIndices, patchValues, j, i);
        }
        if Compare(op, patchValues[j], literal) {
          BitRowsSet(bits, len, patchIndices[j]);
          bits, bitRows := SetBit(bits, patchIndices[j]), bitRows[patchIndices[j] := true];
        }
      }
    }
  }

  lemma NextPatch(op: Operator, k: Double, rows: seq<nat>, patches: seq<Double>, n: nat, i: nat)
    requires n < |rows| == |patches|
    ensures PatchSaysTrue(op, k, rows, patches, n + 1, i)
       <==> PatchSaysTrue(op, k, rows, patches, n, i) || (i == rows[n] && Compare(op, patches[n], k))
  {
    if PatchSaysTrue(op, k, rows, patches, n, i) {
      var j :| 0 <= j < n && rows[j] == i && Compare(op, patches[j], k);
    }
  }

  // ---------------------------------------------------------------- squeezing

  function NewWidth(origBw: nat): nat { origBw / 2 }

  function Shift(origBw: nat): nat { origBw - NewWidth(origBw) }

  /** The kept half is no wider than the dropped one, and at most a bit narrower. */
  lemma HalfWidth(bw: nat)
    ensures NewWidth(bw) + Shift(bw) == bw && NewWidth(bw) <= Shift(bw) <= NewWidth(bw) + 1
  {
  }

  /** What squeezing stores: nothing for a null row, and the upper bits of the integer, less those of the reference. */
  function Quanta(p: Packed, reference: int, s: nat, codec: Codec): (v: seq<nat>)
    requires p.Sound() && codec.bits > 0
    ensures |v| == p.length
  {
    seq(p.length, i requires 0 <= i < p.length => Quantum(p, reference, s, codec, i))
  }

  function Quantum(p: Packed, reference: int, s: nat, codec: Codec, i: nat): nat
    requires p.Sound() && codec.bits > 0 && i < p.length
  {
    if p.IsNull(i) then 0
    else QuantizedOffset(FullInteger(Mask(p.Element(i), codec.bits), reference, codec.bits), reference, s, codec.bits)
  }

  /** Every row holds its quantum, cut to half the width. */
  ghost predicate StoresQuanta(q: Packed, p: Packed, reference: int, codec: Codec)
    requires p.Sound() && codec.bits > 0
  {
    && q.length == p.length
    && forall i {:trigger q.Element(i)} :: 0 <= i < p.length ==>
         q.Element(i) == Mask(Quantum(p, reference, Shift(p.bitWidth), codec, i), NewWidth(p.bitWidth))
  }

  lemma QuantaStored(q: Packed, p: Packed, reference: int, codec: Codec)
    requires p.Sound() && codec.bits > 0
    requires q.Holds(Quanta(p, reference, Shift(p.bitWidth), codec), NewWidth(p.bitWidth))
    ensures StoresQuanta(q, p, reference, codec)
  {
    forall i | 0 <= i < p.length
      ensures q.Element(i) == Mask(Quantum(p, reference, Shift(p.bitWidth), codec, i), NewWidth(p.bitWidth))
    {
      GetAfterPack(q, Quanta(p, reference, Shift(p.bitWidth), codec), NewWidth(p.bitWidth), i);
    }
  }

  /** Null rows hold 0. */
  lemma NullQuanta(q: Packed, p: Packed, reference: int, codec: Codec)
    requires p.Sound() && codec.bits > 0 && StoresQuanta(q, p, reference, codec)
    ensures forall i {:trigger q.Element(i)} :: 0 <= i < p.length && p.IsNull(i) ==> q.Element(i) == 0
  {
    MaskSmall(0, NewWidth(p.bitWidth));
  }

  lemma BufferKept(p: Packed, q: Packed)
    requires p.Sound() && q.Sound() && p.length == q.length > 0
    requires q.nullBitmap == if p.NullBuffer().Some? then p.NullBuffer().value[..CeilDiv8(p.length)] else []
    ensures q.NullBuffer() == p.NullBuffer()
  {
    if p.NullBuffer().Some? {
      var n := p.NullBuffer().value;
      assert n[..CeilDiv8(p.length)] == n && |n| > 0;
    }
  }

  /** The loop of the squeeze; `p` is the array as its unpacking saw it. */
  method QuantizeRows(packed: BitPackedArray, offsets: array<nat>, reference: int, s: nat, codec: Codec,
                      ghost p: Packed)
    returns (quanta: seq<nat>)
    requires packed.View().Sound() && 0 < codec.bits <= 64 && offsets.Length == packed.length
    requires p.Sound() && p.length == packed.length && p.nullBitmap == packed.nullBitmap
    requires forall i :: 0 <= i < packed.length ==> offsets[i] == Mask(p.Element(i), codec.bits)
    ensures quanta == Quanta(p, reference, s, codec)
    ensures forall i :: 0 <= i < packed.length ==> quanta[i] < TWO_64
  {
    quanta := [];
    for i := 0 to packed.length
      invariant |quanta| == i
      invariant forall j :: 0 <= j < i ==> quanta[j] == Quanta(p, reference, s, codec)[j] && quanta[j] < TWO_64
    {
      assert Quanta(p, reference, s, codec)[i] == Quantum(p, reference, s, codec, i);
      if packed.IsNull(i) {
        quanta := quanta + [0];
      } else {
        var full := FullInteger(offsets[i], reference, codec.bits);
        OffsetFits(Mask(Shr(full, s), codec.bits) - Mask(Shr(reference, s), codec.bits), codec.bits);
        quanta := quanta + [QuantizedOffset(full, reference, s, codec.bits)];
      }
    }
  }

  /** Cuts the integers to half their width; narrow arrays are left alone. */
  method Squeeze(a: LiquidFloatArray, avx2: bool) returns (r: Option<LiquidFloatQuantizedArray>)
    requires a.Valid() && Ascending(a.patchIndices) && a.bitPacked.length + 7 < TWO_32
    requires Ends(a.bitPacked.length, a.bitPacked.bitWidth, a.codec.bits, avx2)
    ensures Seen(a.bitPacked.View(), a.codec.bits, avx2).Sound()
    ensures r.None? <==> a.bitPacked.bitWidth < 8
    ensures r.Some? ==>
              var h, p := r.value, Seen(a.bitPacked.View(), a.codec.bits, avx2);
              && fresh(h) && fresh(h.quantized) && h.Valid()
              && h.codec == a.codec && h.referenceValue == a.referenceValue
              && h.patchIndices == a.patchIndices && h.patchValues == a.patchValues
              && h.bucketWidth == Shift(p.bitWidth) && h.quantized.bitWidth == NewWidth(p.bitWidth)
              && StoresQuanta(h.quantized.View(), p, a.referenceValue, a.codec)
              && (forall i {:trigger h.quantized.View().Element(i)} :: 0 <= i < p.length && p.IsNull(i) ==>
                    h.quantized.View().Element(i) == 0)
              && (h.quantized.length > 0 ==> h.quantized.View().NullBuffer() == p.NullBuffer())
  {
    SeenNulls(a.bitPacked.View(), a.codec.bits, avx2);
    var origBw := a.bitPacked.bitWidth;
    if origBw < 8 {
      return None;
    }
    var packed := PackQuanta(a, avx2);
    NullQuanta(packed.View(), Seen(a.bitPacked.View(), a.codec.bits, avx2), a.referenceValue, a.codec);
    var hybrid :=
        new LiquidFloatQuantizedArray(a.codec, packed, a.referenceValue, Shift(origBw), a.patchIndices, a.patchValues);
    r := Some(hybrid);
  }

  /** The quanta of an array, packed at half its width. */
  method PackQuanta(a: LiquidFloatArray, avx2: bool) returns (packed: BitPackedArray)
    requires a.Valid() && a.bitPacked.length + 7 < TWO_32
    requires Ends(a.bitPacked.length, a.bitPacked.bitWidth, a.codec.bits, avx2)
    requires Seen(a.bitPacked.View(), a.codec.bits, avx2).Sound()
    ensures fresh(packed) && packed.View().Sound() && packed.bitWidth == NewWidth(a.bitPacked.bitWidth)
    ensures StoresQuanta(packed.View(), Seen(a.bitPacked.View(), a.codec.bits, avx2), a.referenceValue, a.codec)
    ensures packed.length > 0 ==> packed.View().NullBuffer() == a.bitPacked.View().NullBuffer()
  {
    var origBw := a.bitPacked.bitWidth;
    ghost var p := Seen(a.bitPacked.View(), a.codec.bits, avx2);
    var origOffsets := new nat[a.bitPacked.length];
    a.bitPacked.BulkUnpackTo(origOffsets, a.codec.bits, avx2);
    var quanta := QuantizeRows(a.bitPacked, origOffsets, a.referenceValue, Shift(origBw), a.codec, p);
    packed := new BitPackedArray(quanta, a.bitPacked.View().NullBuffer(), NewWidth(origBw));
    QuantaStored(packed.View(), p, a.referenceValue, a.codec);
    if a.bitPacked.length > 0 {
      BufferKept(a.bitPacked.View(), packed.View());
    }
  }

  lemma FullIsRestored(temp: nat, reference: int, b: nat)
    requires b > 0
    ensures FullInteger(temp, reference, b) == Restore(temp, reference, NativeType(b, true))
  {
    var ty := NativeType(b, true);
    ty.WrapSum(reference, temp);
    MaskSum(reference, temp, b);
    SameSigned(Mask(reference, b) + temp, reference + temp, b);
  }

  // ---------------------------------------------------------------- what a squeezed column answers

  predicate RowsWithin(rows: seq<nat>, n: nat) {
    forall j :: 0 <= j < |rows| ==> rows[j] < n
  }

  /** A float array as its bulk path sees it, with its patches. */
  datatype Floats = Floats(p: Packed, reference: int, codec: Codec, rows: seq<nat>, patches: seq<Double>) {
    ghost predicate Valid() {
      && p.Sound() && codec.Valid() && 8 <= p.bitWidth <= codec.bits
      && |rows| == |patches| && Ascending(rows) && RowsWithin(rows, p.length)
    }

    /** The column it decodes to. */
    ghost function Column(): (c: Column<Double>)
      requires Valid()
      ensures c.WellFormed() && |c.values| == p.length
    {
      DecodeFloat(p, reference, codec, rows, patches)
    }

    ghost predicate Left(i: nat)
      requires Valid()
    {
      LeftToPatch(rows, NonNull(p), i)
    }

    ghost function Low(i: nat): Double
      requires Valid() && i < p.length
    {
      codec.dec(RowLow(Integers(p, reference, codec)[i], reference, Shift(p.bitWidth), NewWidth(p.bitWidth),
                       codec.bits))
    }

    ghost function High(i: nat): Double
      requires Valid() && i < p.length
    {
      codec.dec(RowHigh(Integers(p, reference, codec)[i], reference, Shift(p.bitWidth), NewWidth(p.bitWidth),
                        codec.bits))
    }

    /** What the squeezed column says of a row that is not null: a row left to its patch is compared; any other is
        answered from its bucket, with its patch ORed in if it has one. */
    ghost function Answer(op: Operator, k: Double, i: nat): Option<bool>
      requires Valid() && i < p.length
    {
      if Left(i) then Some(Compare(op, Column().values[i], k))
      else if Handle(op, Low(i), High(i), k).None? then None
      else Some(Handle(op, Low(i), High(i), k).value || (i in rows && Compare(op, Column().values[i], k)))
    }

    /** Nothing is said of the row, or what is true. */
    ghost predicate Right(op: Operator, k: Double, i: nat)
      requires Valid() && i < p.length
    {
      Answer(op, k, i).Some? ==> Answer(op, k, i).value == Compare(op, Column().values[i], k)
    }

    /** Every row answered from its bucket lies in it. */
    ghost predicate InBuckets()
      requires Valid()
    {
      forall i {:trigger Low(i)} :: 0 <= i < p.length && !p.IsNull(i) && !Left(i) ==>
        Le(Low(i), Column().values[i]) && Le(Column().values[i], High(i))
    }

    /** No integer of the type decodes to NaN. */
    ghost predicate Numeric()
      requires Valid()
    {
      NumericCodec(codec)
    }

    /** Some row that is not null and not left to its patch has a bucket that settles nothing. */
    ghost predicate Open(op: Operator, k: Double)
      requires Valid()
    {
      exists i {:trigger Low(i)} :: 0 <= i < p.length && !p.IsNull(i) && !Left(i) && !Decides(op, Low(i), High(i), k)
    }
  }

  lemma EndsSigned(full: int, reference: int, s: nat, newWidth: nat, b: nat)
    requires b > 0
    ensures IsSigned(RowLow(full, reference, s, newWidth, b), b)
            && IsSigned(RowHigh(full, reference, s, newWidth, b), b)
  {
    var i := StoredIndex(full, reference, s, newWidth);
    ToSignedRange(Shl(i, s) + reference, b);
    ToSignedRange(Shl(i + 1, s) + reference, b);
  }

  lemma IntegerSigned(f: Floats, i: nat)
    requires f.Valid() && i < f.p.length
    ensures IsSigned(Integers(f.p, f.reference, f.codec)[i], f.codec.bits)
  {
    RestoredSigned(Mask(f.p.Element(i), f.codec.bits), f.reference, f.codec.bits);
  }

  lemma RestoredSigned(temp: nat, reference: int, b: nat)
    requires b > 0
    ensures IsSigned(Restore(temp, reference, NativeType(b, true)), b)
  {
    var ty := NativeType(b, true);
    ToSignedRange(reference + ty.Wrap(temp), b);
  }

  lemma EndsNumeric(f: Floats, i: nat)
    requires f.Valid() && f.Numeric() && i < f.p.length
    ensures !f.Low(i).NaN? && !f.High(i).NaN? && !f.codec.dec(Integers(f.p, f.reference, f.codec)[i]).NaN?
  {
    IntegerSigned(f, i);
    EndsSigned(Integers(f.p, f.reference, f.codec)[i], f.reference, Shift(f.p.bitWidth), NewWidth(f.p.bitWidth),
               f.codec.bits);
  }

  /** Some row has no answer precisely when some bucket settles nothing. */
  lemma OpenIff(f: Floats, op: Operator, k: Double)
    requires f.Valid()
    ensures f.Numeric() ==>
              (f.Open(op, k) <==> exists i :: 0 <= i < f.p.length && !f.p.IsNull(i) && f.Answer(op, k, i).None?)
  {
    if f.Numeric() {
      forall i {:trigger f.Low(i)} {:trigger f.Answer(op, k, i)} | 0 <= i < f.p.length
        ensures f.Answer(op, k, i).None? <==> !f.Left(i) && !Decides(op, f.Low(i), f.High(i), k)
      {
        EndsNumeric(f, i);
        HandleDecidesIff(op, f.Low(i), f.High(i), k);
      }
    }
  }

  /** A row in its bucket is answered rightly. */
  lemma RightInBucket(f: Floats, op: Operator, k: Double, i: nat)
    requires f.Valid() && i < f.p.length
    requires f.Left(i) || (Le(f.Low(i), f.Column().values[i]) && Le(f.Column().values[i], f.High(i)))
    ensures f.Right(op, k, i)
  {
    if !f.Left(i) && Handle(op, f.Low(i), f.High(i), k).Some? {
      InBucket(op, f.Low(i), f.High(i), f.Column().values[i], k);
    }
  }

  /** Any other row is answered wrongly for some operator and literal. */
  lemma WrongOutside(f: Floats, i: nat) returns (op: Operator, k: Double)
    requires f.Valid() && f.Numeric() && i < f.p.length && !f.Left(i)
    requires !(Le(f.Low(i), f.Column().values[i]) && Le(f.Column().values[i], f.High(i)))
    ensures !f.Right(op, k, i)
  {
    var lo, hi, v := f.Low(i), f.High(i), f.Column().values[i];
    EndsNumeric(f, i);
    if i in f.rows {
      LateRowIff(lo, hi, v);
      op, k :| Handle(op, lo, hi, k).Some? && (Handle(op, lo, hi, k).value || Compare(op, v, k)) != Compare(op, v, k);
    } else {
      UnpatchedValue(f, i);
      HandlersSoundIff(lo, hi, v);
      op, k :| Handle(op, lo, hi, k).Some? && Handle(op, lo, hi, k).value != Compare(op, v, k);
    }
  }

  lemma UnpatchedValue(f: Floats, i: nat)
    requires f.Valid() && i < f.p.length && i !in f.rows
    ensures f.Column().values[i] == f.codec.dec(Integers(f.p, f.reference, f.codec)[i])
  {
    PatchedAt(Unpatched(f.p, f.reference, f.codec), f.rows, f.patches, |f.rows|, i);
    assert i !in f.rows[..|f.rows|];
  }

  /** For a column: whatever is asked, no row is answered wrongly, if and only if every row that is answered from its
      bucket lies in it. */
  lemma AnswersSoundIff(f: Floats)
    requires f.Valid() && f.Numeric()
    ensures f.InBuckets()
       <==> forall op, k, i {:trigger f.Right(op, k, i)} :: 0 <= i < f.p.length && !f.p.IsNull(i) ==> f.Right(op, k, i)
  {
    if f.InBuckets() {
      forall op, k, i {:trigger f.Right(op, k, i)} | 0 <= i < f.p.length && !f.p.IsNull(i) ensures f.Right(op, k, i) {
        AllRight(f, op, k);
      }
    } else {
      var i :| 0 <= i < f.p.length && !f.p.IsNull(i) && !f.Left(i)
            && !(Le(f.Low(i), f.Column().values[i]) && Le(f.Column().values[i], f.High(i)));
      var op, k := WrongOutside(f, i);
    }
  }

  lemma AllRight(f: Floats, op: Operator, k: Double)
    requires f.Valid() && f.InBuckets()
    ensures forall i :: 0 <= i < f.p.length && !f.p.IsNull(i) ==> f.Right(op, k, i)
  {
    forall i | 0 <= i < f.p.length && !f.p.IsNull(i) ensures f.Right(op, k, i) {
      assert f.Left(i) || Le(f.Low(i), f.Column().values[i]);
      RightInBucket(f, op, k, i);
    }
  }

  /** The mask answers the comparison at every row that is not null, and has the nulls of the column. */
  ghost predicate MaskAnswers(m: BooleanArray, c: Column<Double>, op: Operator, k: Double)
    requires c.WellFormed()
  {
    && MaskFor(m, c)
    && forall i :: 0 <= i < |c.values| && c.IsValid(i) ==>
         BitRows(m.bits, m.length)[i] == Compare(op, c.values[i], k)
  }

  predicate MaskFor<T>(m: BooleanArray, c: Column<T>)
    requires c.WellFormed()
  {
    && m.length == |c.values| && |m.bits| == CeilDiv8(m.length)
    && (m.length > 0 ==> m.validity == c.validity) && m.nullCount == c.NullCount()
  }

  /** What the buckets decide of a row that is not null, by its decoded bucket. */
  lemma VerdictAt(f: Floats, q: Packed, op: Operator, k: Double, i: nat)
    requires f.Valid() && i < f.p.length && !f.p.IsNull(i) && StoresQuanta(q, f.p, f.reference, f.codec)
    ensures Verdicts(q, f.reference, Shift(f.p.bitWidth), f.codec, op, k)[i] == Handle(op, f.Low(i), f.High(i), k)
  {
    FullIsRestored(Mask(f.p.Element(i), f.codec.bits), f.reference, f.codec.bits);
    var full, s, w, b :=
        Integers(f.p, f.reference, f.codec)[i], Shift(f.p.bitWidth), NewWidth(f.p.bitWidth), f.codec.bits;
    ComputedBucket(full, f.reference, s, w, b, Mask(Mask(QuantizedOffset(full, f.reference, s, b), w), b));
  }

  /** A patch is what its row decodes to. */
  lemma PatchOf(f: Floats, i: nat) returns (j: nat)
    requires f.Valid() && i < f.p.length && i in f.rows
    ensures j < |f.rows| && f.rows[j] == i && f.Column().values[i] == f.patches[j]
  {
    PatchedAt(Unpatched(f.p, f.reference, f.codec), f.rows, f.patches, |f.rows|, i);
    j :| 0 <= j < |f.rows| && f.rows[j] == i;
  }

  lemma PatchedAnswered(f: Floats, op: Operator, k: Double, i: nat)
    requires f.Valid() && i < f.p.length
    ensures PatchSaysTrue(op, k, f.rows, f.patches, |f.rows|, i)
       <==> i in f.rows && Compare(op, f.Column().values[i], k)
  {
    if i in f.rows {
      var j := PatchOf(f, i);
      OnePatch(op, k, f.rows, f.patches, j);
    }
  }

  lemma OnePatch(op: Operator, k: Double, rows: seq<nat>, patches: seq<Double>, j: nat)
    requires |rows| == |patches| && Ascending(rows) && j < |rows|
    ensures PatchSaysTrue(op, k, rows, patches, |rows|, rows[j]) <==> Compare(op, patches[j], k)
  {
    if PatchSaysTrue(op, k, rows, patches, |rows|, rows[j]) {
      var n :| 0 <= n < |rows| && rows[n] == rows[j] && Compare(op, patches[n], k);
      assert n == j;
    }
  }

  /** The bit of a row that is not null is its answer, and the mask is returned precisely when all rows have one. */
  lemma MaskIsAnswers(f: Floats, q: Packed, op: Operator, k: Double, valid: seq<bool>, verdicts: seq<Option<bool>>,
                      i: nat)
    requires f.Valid() && StoresQuanta(q, f.p, f.reference, f.codec) && valid == NonNull(f.p)
    requires verdicts == Verdicts(q, f.reference, Shift(f.p.bitWidth), f.codec, op, k)
    requires i < f.p.length && !f.p.IsNull(i)
    ensures f.Answer(op, k, i).None? <==> !LeftRows(f.rows, valid)[i] && verdicts[i].None?
    ensures f.Answer(op, k, i).Some? ==>
              (f.Answer(op, k, i).value <==> || SaysTrue(verdicts, LeftRows(f.rows, valid), valid, i)
                                             || PatchSaysTrue(op, k, f.rows, f.patches, |f.rows|, i))
  {
    VerdictAt(f, q, op, k, i);
    PatchedAnswered(f, op, k, i);
    assert LeftRows(f.rows, valid)[i] == LeftToPatch(f.rows, valid, i);
  }

  /** Squeezes and evaluates. */
  method EvalSqueezed(a: LiquidFloatArray, op: Operator, literal: Double, avx2: bool, ghost f: Floats)
    returns (r: Option<BooleanArray>)
    requires a.Valid() && Ascending(a.patchIndices) && AllEnd(a.bitPacked.length, avx2)
    requires a.bitPacked.bitWidth <= a.codec.bits
    requires f == Floats(Seen(a.bitPacked.View(), a.codec.bits, avx2), a.referenceValue, a.codec, a.patchIndices,
               a.patchValues)
    ensures a.bitPacked.bitWidth < 8 ==> r.None?
    ensures a.bitPacked.bitWidth >= 8 ==> f.Valid()
    ensures a.bitPacked.bitWidth >= 8 ==>
              (r.None? <==> exists i :: 0 <= i < f.p.length && !f.p.IsNull(i) && f.Answer(op, literal, i).None?)
    ensures r.Some? ==> HoldsAnswers(f, op, literal, r.value)
  {
    EndsAtAnyWidth(a.bitPacked.length, a.bitPacked.bitWidth, a.codec.bits, avx2);
    var h := Squeeze(a, avx2);
    if h.None? {
      return None;
    }
    EndsAtAnyWidth(a.bitPacked.length, h.value.quantized.bitWidth, a.codec.bits, avx2);
    r := h.value.TryEvalPredicate(op, literal, avx2);
    HalfWidthSeen(h.value.quantized.View(), f.p.bitWidth, f.codec.bits, avx2);
    SqueezedMask(f, h.value.quantized.View(), op, literal, h.value.ValidRows(), h.value.RowVerdicts(op, literal, avx2),
                 r);
  }

  /** From a float array to the mask of its squeezed form: returned precisely when every row that is not null
      has an answer, which it has unless its bucket leaves the comparison open, with exactly these answers; so it is
      right for this operator and literal if and only if every answer is, and for every operator and literal when
      all rows answered from their buckets lie in them. */
  method SqueezedPredicate(a: LiquidFloatArray, op: Operator, literal: Double, avx2: bool)
    returns (r: Option<BooleanArray>, ghost f: Floats)
    requires a.Valid() && Ascending(a.patchIndices) && AllEnd(a.bitPacked.length, avx2)
    requires a.bitPacked.bitWidth <= a.codec.bits
    ensures f == Floats(Seen(a.bitPacked.View(), a.codec.bits, avx2), a.referenceValue, a.codec, a.patchIndices,
              a.patchValues)
    ensures a.bitPacked.bitWidth < 8 ==> r.None?
    ensures a.bitPacked.bitWidth >= 8 ==> f.Valid()
    ensures a.bitPacked.bitWidth >= 8 ==>
              (r.None? <==> exists i :: 0 <= i < f.p.length && !f.p.IsNull(i) && f.Answer(op, literal, i).None?)
    ensures a.bitPacked.bitWidth >= 8 && f.Numeric() ==> (r.None? <==> f.Open(op, literal))
    ensures r.Some? ==> HoldsAnswers(f, op, literal, r.value)
    ensures r.Some? ==> (MaskAnswers(r.value, f.Column(), op, literal)
                         <==> forall i {:trigger f.Right(op, literal, i)} :: 0 <= i < f.p.length && !f.p.IsNull(i) ==>
                             f.Right(op, literal, i))
    ensures r.Some? && f.InBuckets() ==> MaskAnswers(r.value, f.Column(), op, literal)
  {
    f := Floats(Seen(a.bitPacked.View(), a.codec.bits, avx2), a.referenceValue, a.codec, a.patchIndices, a.patchValues);
    r := EvalSqueezed(a, op, literal, avx2, f);
    if a.bitPacked.bitWidth >= 8 {
      OpenIff(f, op, literal);
    }
    if r.Some? {
      AnswersMean(f, op, literal, r.value);
      if f.InBuckets() {
        AllRight(f, op, literal);
      }
    }
  }

  /** The mask holds the answers. */
  ghost predicate HoldsAnswers(f: Floats, op: Operator, k: Double, m: BooleanArray)
    requires f.Valid()
  {
    && MaskFor(m, f.Column())
    && forall i {:trigger f.Answer(op, k, i)} :: 0 <= i < f.p.length && !f.p.IsNull(i) ==>
         f.Answer(op, k, i) == Some(BitRows(m.bits, m.length)[i])
  }

  /** A mask that holds the answers is right if and only if they are. */
  lemma AnswersMean(f: Floats, op: Operator, k: Double, m: BooleanArray)
    requires f.Valid() && HoldsAnswers(f, op, k, m)
    ensures MaskAnswers(m, f.Column(), op, k)
       <==> forall i {:trigger f.Right(op, k, i)} :: 0 <= i < f.p.length && !f.p.IsNull(i) ==> f.Right(op, k, i)
  {
    ColumnNulls(f);
    if MaskAnswers(m, f.Column(), op, k) {
      forall i {:trigger f.Right(op, k, i)} | 0 <= i < f.p.length && !f.p.IsNull(i) ensures f.Right(op, k, i) {
        AnswerMeans(f, op, k, m, i);
      }
    }
    if forall i {:trigger f.Right(op, k, i)} :: 0 <= i < f.p.length && !f.p.IsNull(i) ==> f.Right(op, k, i) {
      forall i | 0 <= i < f.p.length && f.Column().IsValid(i)
        ensures BitRows(m.bits, m.length)[i] == Compare(op, f.Column().values[i], k)
      {
        assert !f.p.IsNull(i) && f.Right(op, k, i);
        AnswerMeans(f, op, k, m, i);
      }
    }
  }

  lemma ColumnNulls(f: Floats)
    requires f.Valid()
    ensures forall i {:trigger f.p.IsNull(i)} :: 0 <= i < f.p.length ==> f.Column().IsValid(i) == !f.p.IsNull(i)
  {
    forall i | 0 <= i < f.p.length ensures f.Column().IsValid(i) == !f.p.IsNull(i) {
      DecodedNull(f.p, f.Column().values, i);
    }
  }

  lemma AnswerMeans(f: Floats, op: Operator, k: Double, m: BooleanArray, i: nat)
    requires f.Valid() && HoldsAnswers(f, op, k, m) && i < f.p.length && !f.p.IsNull(i)
    ensures f.Right(op, k, i) <==> BitRows(m.bits, m.length)[i] == Compare(op, f.Column().values[i], k)
  {
    assert f.Answer(op, k, i) == Some(BitRows(m.bits, m.length)[i]);
  }

  /** What the result of the predicate on the squeezed array says of the array. */
  lemma SqueezedMask(f: Floats, q: Packed, op: Operator, k: Double, valid: seq<bool>,
                     verdicts: seq<Option<bool>>, r: Option<BooleanArray>)
    requires f.Valid() && q.Sound() && StoresQuanta(q, f.p, f.reference, f.codec)
    requires f.p.length > 0 ==> q.NullBuffer() == f.p.NullBuffer()
    requires valid == NonNull(q) && verdicts == Verdicts(q, f.reference, Shift(f.p.bitWidth), f.codec, op, k)
    requires r.None? <==> Undecided(verdicts, LeftRows(f.rows, valid), valid)
    requires r.Some? ==> r.value.length == q.length && |r.value.bits| == CeilDiv8(q.length)
    requires r.Some? ==> r.value.validity == q.NullBuffer() && r.value.nullCount == q.NullCount()
    requires r.Some? ==> forall i :: 0 <= i < q.length ==>
               (BitRows(r.value.bits, q.length)[i] <==> || SaysTrue(verdicts, LeftRows(f.rows, valid), valid, i)
                                                        || PatchSaysTrue(op, k, f.rows, f.patches, |f.rows|, i))
    ensures r.None? <==> exists i :: 0 <= i < f.p.length && !f.p.IsNull(i) && f.Answer(op, k, i).None?
    ensures r.Some? ==> HoldsAnswers(f, op, k, r.value)
  {
    SameNullRows(f.p, q);
    assert valid == NonNull(f.p);
    forall i | 0 <= i < f.p.length && !f.p.IsNull(i)
      ensures f.Answer(op, k, i).None? <==> valid[i] && !LeftRows(f.rows, valid)[i] && verdicts[i].None?
      ensures r.Some? && f.Answer(op, k, i).Some? ==> f.Answer(op, k, i).value == BitRows(r.value.bits, q.length)[i]
    {
      MaskIsAnswers(f, q, op, k, valid, verdicts, i);
    }
    NullCountAgrees(f.p, f.Column().values);
  }

  /** Half the width is never copied. */
  lemma HalfWidthSeen(q: Packed, bw: nat, tbits: nat, avx2: bool)
    requires q.bitWidth == NewWidth(bw) && 8 <= bw <= tbits
    ensures Seen(q, tbits, avx2) == q
  {
  }

  lemma DecodedNull<T>(p: Packed, values: seq<T>, i: nat)
    requires p.Sound() && |values| == p.length && i < p.length
    ensures Column(values, p.NullBuffer()).IsValid(i) == !p.IsNull(i)
  {
  }

  /** Null buffers that agree mean the same null rows. */
  lemma SameNullRows(p: Packed, q: Packed)
    requires p.Sound() && q.Sound() && p.length == q.length && (p.length > 0 ==> p.NullBuffer() == q.NullBuffer())
    ensures forall i {:trigger p.IsNull(i)} {:trigger q.IsNull(i)} :: 0 <= i < p.length ==> p.IsNull(i) == q.IsNull(i)
    ensures p.NullCount() == q.NullCount()
  {
    if p.length > 0 && p.nullBitmap != [] {
      CountPrefix(p.nullBitmap, CeilDiv8(p.length), p.length);
      CountPrefix(q.nullBitmap, CeilDiv8(p.length), p.length);
      forall i | 0 <= i < p.length ensures p.IsNull(i) == q.IsNull(i) {
        assert BitSet(p.NullBuffer().value, i) == BitSet(p.nullBitmap, i);
        assert BitSet(q.NullBuffer().value, i) == BitSet(q.nullBitmap, i);
      }
    }
  }

  // ---------------------------------------------------------------- when every row lies in its bucket

  /** With a zero reference and two spare bits, a monotone codec and no patch on a null row, every row does. */
  lemma ZeroReferenceInBuckets(f: Floats)
    requires f.Valid() && f.reference == 0 && f.p.bitWidth + 1 < f.codec.bits && Monotone(f.codec)
    requires forall j :: 0 <= j < |f.rows| ==> !f.p.IsNull(f.rows[j])
    ensures f.InBuckets()
  {
    AllPassable(f.rows, NonNull(f.p));
    assert f.rows[..|f.rows|] == f.rows;
    forall i | 0 <= i < f.p.length && !f.p.IsNull(i) && !f.Left(i)
      ensures Le(f.Low(i), f.Column().values[i]) && Le(f.Column().values[i], f.High(i))
    {
      UnpatchedValue(f, i);
      ZeroReferenceRow(f, i);
    }
  }

  lemma ZeroReferenceRow(f: Floats, i: nat)
    requires f.Valid() && f.reference == 0 && f.p.bitWidth + 1 < f.codec.bits && Monotone(f.codec) && i < f.p.length
    ensures var v := f.codec.dec(Integers(f.p, 0, f.codec)[i]); Le(f.Low(i), v) && Le(v, f.High(i))
  {
    var s, w, b := Shift(f.p.bitWidth), NewWidth(f.p.bitWidth), f.codec.bits;
    ZeroReferenceInteger(f.p, f.codec, i);
    var full := Integers(f.p, 0, f.codec)[i];
    ZeroReferenceCovered(full, s, w, b);
    CoveredBucket(full, 0, s, w, b);
    Pow2Mono(f.p.bitWidth, b - 1);
  }

  lemma ZeroReferenceInteger(p: Packed, codec: Codec, i: nat)
    requires i < p.length && p.bitWidth + 1 < codec.bits
    ensures Integers(p, 0, codec)[i] == p.Element(i) < Pow2(p.bitWidth)
  {
    BitsBound(LE(p.packedData), i * p.bitWidth, p.bitWidth);
    RestoreDifference(p.Element(i), 0, codec.IntType(), p.bitWidth) by {
      Pow2Mono(p.bitWidth, codec.bits - 1);
    }
    MaskSmall(p.Element(i), p.bitWidth);
  }

  lemma {:induction false} AllPassable(rows: seq<nat>, valid: seq<bool>)
    requires forall j :: 0 <= j < |rows| ==> rows[j] < |valid| && valid[rows[j]]
    ensures PassablePatches(rows, valid) == |rows|
  {
    if rows != [] {
      AllPassable(rows[1..], valid);
    }
  }

  /** Comparisons do not tell equal values apart. */
  lemma CompareRespectsEq(op: Operator, x: Double, y: Double, k: Double)
    requires Eq(x, y)
    ensures Compare(op, x, k) == Compare(op, y, k)
  {
  }

  lemma NullRowsOf(c: Column<Double>, d: Column<Double>, codec: Codec, p: Packed)
    requires c.WellFormed() && d.WellFormed() && Lossless(d, c, codec)
    requires p.Sound() && |d.values| == p.length && d.validity == p.NullBuffer()
    ensures forall i :: 0 <= i < p.length ==> p.IsNull(i) == !c.IsValid(i)
  {
    forall i | 0 <= i < p.length ensures p.IsNull(i) == !c.IsValid(i) {
      DecodedNull(p, d.values, i);
      assert d.IsValid(i) == c.IsValid(i);
    }
  }

  /** From the column to the mask: an encoded column with a zero reference, two spare bits, and null slots that need no
      patch answers, from half its bits, what comparing the values of the column would. */
  method FilterColumn(c: Column<Double>, a: LiquidFloatArray, op: Operator, literal: Double, avx2: bool)
    returns (r: Option<BooleanArray>)
    requires c.WellFormed() && AllEnd(|c.values|, avx2) && a.Valid() && Lossless(a.Decoded(), c, a.codec)
    requires a.patchIndices == PatchRows(c.values, a.codec, |c.values|)
    requires forall i :: 0 <= i < |c.values| && !c.IsValid(i) ==> !a.codec.NeedsPatch(c.values[i])
    requires Monotone(a.codec) && a.referenceValue == 0 && a.bitPacked.bitWidth + 1 < a.codec.bits
    ensures r.Some? ==> |r.value.bits| == CeilDiv8(|c.values|)
    ensures r.Some? ==> forall i :: 0 <= i < |c.values| && c.IsValid(i) ==>
              BitRows(r.value.bits, |c.values|)[i] == Compare(op, c.values[i], literal)
  {
    ghost var p, d := a.bitPacked.View(), a.Decoded();
    NullRowsOf(c, d, a.codec, p);
    ghost var f;
    r, f := SqueezedPredicate(a, op, literal, avx2) by {
      PatchRowsExact(c.values, a.codec, |c.values|);
    }
    if r.Some? {
      assert f.p == p && f.Column() == d;
      PatchesOffNulls(c, a.codec, p);
      ZeroReferenceInBuckets(f);
      MaskOfLossless(c, d, a.codec, op, literal, r.value);
    }
  }

  lemma PatchesOffNulls(c: Column<Double>, codec: Codec, p: Packed)
    requires c.WellFormed() && p.Sound() && p.length == |c.values|
    requires forall i :: 0 <= i < |c.values| && !c.IsValid(i) ==> !codec.NeedsPatch(c.values[i])
    requires forall i :: 0 <= i < p.length ==> p.IsNull(i) == !c.IsValid(i)
    ensures var rows := PatchRows(c.values, codec, |c.values|);
            forall j :: 0 <= j < |rows| ==> rows[j] < p.length && !p.IsNull(rows[j])
  {
    PatchRowsExact(c.values, codec, |c.values|);
  }

  /** A mask that answers for the decoded column answers for the original. */
  lemma MaskOfLossless(c: Column<Double>, d: Column<Double>, codec: Codec, op: Operator, k: Double, m: BooleanArray)
    requires c.WellFormed() && d.WellFormed() && Lossless(d, c, codec) && MaskAnswers(m, d, op, k)
    ensures forall i :: 0 <= i < |c.values| && c.IsValid(i) ==>
              BitRows(m.bits, |c.values|)[i] == Compare(op, c.values[i], k)
  {
    forall i | 0 <= i < |c.values| && c.IsValid(i)
      ensures BitRows(m.bits, |c.values|)[i] == Compare(op, c.values[i], k)
    {
      assert d.IsValid(i);
      if !codec.NeedsPatch(c.values[i]) {
        CompareRespectsEq(op, d.values[i], c.values[i], k);
      }
    }
  }
}
