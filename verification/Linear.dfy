/** `LiquidLinearIntegerArray`: residuals from a fitted line, or the values themselves when the line does not help. */
module Linear {
  import opened Arith
  import opened Arrow
  import opened Bytes
  import opened FrameOfReference
  import opened Ieee
  import opened Native
  import opened BitPacked
  import opened Unpacking
  import opened Wrappers

  const I64_MIN: int := -0x8000_0000_0000_0000
  const I64_MAX: int := 0x7FFF_FFFF_FFFF_FFFF
  const U64_MAX: int := 0xFFFF_FFFF_FFFF_FFFF

  const INT64 := NativeType(64, true)

  /** The line evaluated at a row, whatever fit it comes from. */
  type Line = nat -> Double

  /** The line of slope 0 and intercept 0. */
  const ZERO_LINE: Line := _ => Finite(0.0)

  /** The bound of a type as a `double`: the two 64-bit maxima are not representable and round up. */
  function AsDouble(x: int): real {
    if x == U64_MAX || x == I64_MAX then (x + 1) as real else x as real
  }

  /** The prediction at a row, saturated to the type. */
  function Predict(pred: Double, lo: int, hi: int): int {
    if !pred.IsFinite() then 0
    else if pred.Num() <= AsDouble(lo) then lo
    else if pred.Num() >= AsDouble(hi) then hi
    else Round(pred.Num())
  }

  /** Within the range of the type the prediction is a nearest integer, outside it the end that was passed; a line that
      is not finite predicts 0. */
  lemma PredictIsNearest(pred: Double, lo: int, hi: int)
    requires lo <= 0 < hi
    ensures !pred.IsFinite() ==> Predict(pred, lo, hi) == 0
    ensures pred.IsFinite() && pred.Num() <= lo as real ==> Predict(pred, lo, hi) == lo
    ensures pred.IsFinite() && pred.Num() >= AsDouble(hi) ==> Predict(pred, lo, hi) == hi
    ensures pred.IsFinite() && lo as real < pred.Num() < AsDouble(hi) ==>
              -0.5 <= Predict(pred, lo, hi) as real - pred.Num() <= 0.5
    ensures AsDouble(hi) == if hi == 0xFFFF_FFFF_FFFF_FFFF || hi == 0x7FFF_FFFF_FFFF_FFFF then (hi + 1) as real
                            else hi as real
  {
    if pred.IsFinite() {
      RoundIsNearest(pred.Num());
    }
  }

  lemma RoundIsNearest(x: real)
    ensures -0.5 <= Round(x) as real - x <= 0.5
  {
  }

  function Lowest(ty: NativeType): int {
    if !ty.signed then 0
    else if ty.bits == 8 then -0x80 else if ty.bits == 16 then -0x8000
    else if ty.bits == 32 then -0x8000_0000 else I64_MIN
  }

  function Highest(ty: NativeType): int {
    if ty.signed then
      if ty.bits == 8 then 0x7F else if ty.bits == 16 then 0x7FFF
      else if ty.bits == 32 then 0x7FFF_FFFF else I64_MAX
    else
      if ty.bits == 8 then 0xFF else if ty.bits == 16 then 0xFFFF
      else if ty.bits == 32 then 0xFFFF_FFFF else U64_MAX
  }

  lemma TypeBounds(ty: NativeType, v: int)
    requires ty.Valid()
    ensures ty.Contains(v) <==> Lowest(ty) <= v <= Highest(ty)
  {
    Pow2Width(ty.bits);
  }

  function Clamp(x: int, lo: int, hi: int): int
  {
    if x < lo then lo else if x > hi then hi else x
  }

  function PredictAt(line: Line, ty: NativeType, i: nat): int {
    Predict(line(i), Lowest(ty), Highest(ty))
  }

  /** The residual stored for a row, saturated to 64 bits. */
  function Residual(v: int, p: int): int {
    Clamp(v - p, I64_MIN, I64_MAX)
  }

  /** The value decoded from a prediction and a residual. */
  function Rebuild(p: int, r: int, ty: NativeType): int {
    Clamp(p + r, Lowest(ty), Highest(ty))
  }

  /** A row is exact precisely when its residual did not saturate. */
  lemma RebuildExactly(v: int, p: int, ty: NativeType)
    requires ty.Valid() && ty.Contains(v) && Lowest(ty) <= p <= Highest(ty) + 1
    ensures Rebuild(p, Residual(v, p), ty) == v <==> I64_MIN <= v - p <= I64_MAX
    ensures Residual(v, p) == v - p <==> I64_MIN <= v - p <= I64_MAX
  {
    TypeBounds(ty, v);
  }

  /** A residual that does not fit is the end of the 64-bit range it passes, and a sum out of the type is the end of the
      type. */
  lemma Saturates(v: int, p: int, r: int, ty: NativeType)
    requires ty.Valid()
    ensures v - p > 0x7FFF_FFFF_FFFF_FFFF ==> Residual(v, p) == 0x7FFF_FFFF_FFFF_FFFF
    ensures v - p < -0x8000_0000_0000_0000 ==> Residual(v, p) == -0x8000_0000_0000_0000
    ensures ty.Contains(Rebuild(p, r, ty))
    ensures ty.Contains(p + r) ==> Rebuild(p, r, ty) == p + r
    ensures forall x :: ty.Contains(x) && p + r <= x ==> Rebuild(p, r, ty) <= x
    ensures forall x :: ty.Contains(x) && x <= p + r ==> x <= Rebuild(p, r, ty)
  {
    forall x ensures ty.Contains(x) <==> Lowest(ty) <= x <= Highest(ty) {
      TypeBounds(ty, x);
    }
  }

  lemma PredictInRange(pred: Double, ty: NativeType)
    requires ty.Valid()
    ensures Lowest(ty) <= Predict(pred, Lowest(ty), Highest(ty)) <= Highest(ty) + 1
    ensures ty.bits <= 32 ==> Predict(pred, Lowest(ty), Highest(ty)) <= Highest(ty)
  {
  }

  // ---------------------------------------------------------------- the choice between residuals and values

  /** Least over the rows that are not null. */
  function Least(s: seq<int>, valid: seq<bool>, n: nat): Option<int>
    requires n <= |s| == |valid|
  {
    if n == 0 then None
    else
      var before := Least(s, valid, n - 1);
      if !valid[n - 1] then before
      else if before.None? || s[n - 1] < before.value then Some(s[n - 1])
      else before
  }

  /** The least is taken at some row and is below every row. */
  lemma {:induction false} LeastIsLeast(s: seq<int>, valid: seq<bool>, n: nat)
    requires n <= |s| == |valid|
    ensures Least(s, valid, n).None? <==> forall i :: 0 <= i < n ==> !valid[i]
    ensures Least(s, valid, n).Some? ==> exists i :: 0 <= i < n && valid[i] && s[i] == Least(s, valid, n).value
    ensures forall i :: 0 <= i < n && valid[i] ==> Least(s, valid, n).Some? && Least(s, valid, n).value <= s[i]
  {
    if n > 0 {
      LeastIsLeast(s, valid, n - 1);
    }
  }

  function Negated(s: seq<int>): (t: seq<int>)
    ensures |t| == |s| && forall i :: 0 <= i < |s| ==> t[i] == -s[i]
  {
    seq(|s|, i requires 0 <= i < |s| => -s[i])
  }

  /** Greatest minus least. */
  function Spread(s: seq<int>, valid: seq<bool>): int
    requires |s| == |valid|
  {
    var lo, hi := Least(s, valid, |s|), Least(Negated(s), valid, |s|);
    if lo.None? || hi.None? then 0 else -hi.value - lo.value
  }

  /** The spread is the difference of two rows, and no two rows differ by more. */
  lemma SpreadIsGreatest(s: seq<int>, valid: seq<bool>)
    requires |s| == |valid| && exists i :: 0 <= i < |s| && valid[i]
    ensures exists k, l :: 0 <= k < |s| && 0 <= l < |s| && valid[k] && valid[l] && s[k] - s[l] == Spread(s, valid)
    ensures forall i, j :: 0 <= i < |s| && 0 <= j < |s| && valid[i] && valid[j] ==> s[i] - s[j] <= Spread(s, valid)
  {
    var t := Negated(s);
    LeastIsLeast(s, valid, |s|);
    LeastIsLeast(t, valid, |s|);
    var l :| 0 <= l < |s| && valid[l] && s[l] == Least(s, valid, |s|).value;
    var k :| 0 <= k < |s| && valid[k] && t[k] == Least(t, valid, |s|).value;
    assert s[k] - s[l] == Spread(s, valid);
    forall i, j | 0 <= i < |s| && 0 <= j < |s| && valid[i] && valid[j] ensures s[i] - s[j] <= Spread(s, valid) {
      assert t[i] == -s[i];
    }
  }

  function Gap(s: seq<int>, k: nat, l: nat): int
    requires k < |s| && l < |s|
  {
    s[k] - s[l]
  }

  /** Any two valid rows differ by less than `gap`. */
  ghost predicate Within(s: seq<int>, valid: seq<bool>, gap: int)
    requires |s| == |valid|
  {
    forall i, j :: 0 <= i < |s| && 0 <= j < |s| && valid[i] && valid[j] ==> s[i] - s[j] < gap
  }

  /** One spread is less than another when some two rows of the other differ by more than any two of it. */
  lemma SpreadLess(a: seq<int>, b: seq<int>, valid: seq<bool>)
    requires |a| == |b| == |valid|
    ensures Spread(a, valid) < Spread(b, valid)
       <==> exists k, l {:trigger Gap(b, k, l)} :: 0 <= k < |b| && 0 <= l < |b| && valid[k] && valid[l]
              && Within(a, valid, Gap(b, k, l))
  {
    if exists i :: 0 <= i < |a| && valid[i] {
      SpreadIsGreatest(a, valid);
      SpreadIsGreatest(b, valid);
      var i, j :| 0 <= i < |a| && 0 <= j < |a| && valid[i] && valid[j] && a[i] - a[j] == Spread(a, valid);
      var k, l :| 0 <= k < |b| && 0 <= l < |b| && valid[k] && valid[l] && b[k] - b[l] == Spread(b, valid);
      if Spread(a, valid) < Spread(b, valid) {
        assert Within(a, valid, Gap(b, k, l));
      }
    } else {
      LeastIsLeast(a, valid, |a|);
      LeastIsLeast(b, valid, |b|);
    }
  }

  /** Least as a loop tracks it, from a start no row exceeds. */
  function RunningMin(s: seq<int>, valid: seq<bool>, n: nat, start: int): int
    requires n <= |s| == |valid|
  {
    if n == 0 then start
    else
      var before := RunningMin(s, valid, n - 1, start);
      if valid[n - 1] && s[n - 1] < before then s[n - 1] else before
  }

  function RunningMax(s: seq<int>, valid: seq<bool>, n: nat, start: int): int
    requires n <= |s| == |valid|
  {
    if n == 0 then start
    else
      var before := RunningMax(s, valid, n - 1, start);
      if valid[n - 1] && s[n - 1] > before then s[n - 1] else before
  }

  lemma {:induction false} RunningMinIsLeast(s: seq<int>, valid: seq<bool>, n: nat, start: int)
    requires n <= |s| == |valid| && forall i :: 0 <= i < n && valid[i] ==> s[i] <= start
    ensures RunningMin(s, valid, n, start) == if Least(s, valid, n).Some? then Least(s, valid, n).value else start
  {
    if n > 0 {
      RunningMinIsLeast(s, valid, n - 1, start);
    }
  }

  lemma {:induction false} RunningMaxIsMin(s: seq<int>, valid: seq<bool>, n: nat, start: int)
    requires n <= |s| == |valid|
    ensures RunningMax(s, valid, n, start) == -RunningMin(Negated(s), valid, n, -start)
  {
    if n > 0 {
      RunningMaxIsMin(s, valid, n - 1, start);
    }
  }

  /** The loop's extremes are the spread, once some row is not null. */
  lemma RunningSpread(s: seq<int>, valid: seq<bool>, first: int, last: int)
    requires |s| == |valid| && exists i :: 0 <= i < |s| && valid[i]
    requires forall i :: 0 <= i < |s| ==> last <= s[i] <= first
    ensures RunningMax(s, valid, |s|, last) - RunningMin(s, valid, |s|, first) == Spread(s, valid)
  {
    RunningMinIsLeast(s, valid, |s|, first);
    RunningMaxIsMin(s, valid, |s|, last);
    RunningMinIsLeast(Negated(s), valid, |s|, -last);
    LeastIsLeast(s, valid, |s|);
    LeastIsLeast(Negated(s), valid, |s|);
  }

  function Residuals(c: Column<int>, line: Line, ty: NativeType): (s: seq<int>)
    requires c.WellFormed()
    ensures |s| == |c.values|
  {
    seq(|c.values|, i requires 0 <= i < |c.values| =>
      if c.IsValid(i) then Residual(c.values[i], PredictAt(line, ty, i)) else 0)
  }

  /** The encoder falls back to the values when the residuals spread no less than they do. */
  predicate FallsBack(c: Column<int>, line: Line, ty: NativeType)
    requires c.WellFormed()
  {
    Spread(Residuals(c, line, ty), c.ValidRows()) >= Spread(c.values, c.ValidRows())
  }

  /** The line helps: some two valid rows differ by more than the residuals of any two. */
  ghost predicate LineHelps(c: Column<int>, line: Line, ty: NativeType)
    requires c.WellFormed()
  {
    exists k, l {:trigger Gap(c.values, k, l)} :: 0 <= k < |c.values| && 0 <= l < |c.values|
      && c.IsValid(k) && c.IsValid(l) && ResidualsWithin(c, line, ty, Gap(c.values, k, l))
  }

  /** The residuals of any two valid rows differ by less than `gap`. */
  ghost predicate ResidualsWithin(c: Column<int>, line: Line, ty: NativeType, gap: int)
    requires c.WellFormed()
  {
    forall i, j {:trigger PredictAt(line, ty, i), PredictAt(line, ty, j)} ::
      0 <= i < |c.values| && 0 <= j < |c.values| && c.IsValid(i) && c.IsValid(j) ==>
        Residual(c.values[i], PredictAt(line, ty, i)) - Residual(c.values[j], PredictAt(line, ty, j)) < gap
  }

  /** The residuals are kept if and only if the line helps. */
  lemma FallsBackIff(c: Column<int>, line: Line, ty: NativeType)
    requires c.WellFormed()
    ensures !FallsBack(c, line, ty) <==> LineHelps(c, line, ty)
  {
    SpreadLess(Residuals(c, line, ty), c.values, c.ValidRows());
    HelpsIff(c, line, ty, Residuals(c, line, ty), c.ValidRows());
  }

  lemma HelpsIff(c: Column<int>, line: Line, ty: NativeType, rs: seq<int>, valid: seq<bool>)
    requires c.WellFormed() && rs == Residuals(c, line, ty) && valid == c.ValidRows()
    ensures LineHelps(c, line, ty)
       <==> exists k, l {:trigger Gap(c.values, k, l)} :: 0 <= k < |c.values| && 0 <= l < |c.values|
              && valid[k] && valid[l] && Within(rs, valid, Gap(c.values, k, l))
  {
    forall gap {:trigger Within(rs, valid, gap)} {:trigger ResidualsWithin(c, line, ty, gap)}
      ensures ResidualsWithin(c, line, ty, gap) <==> Within(rs, valid, gap)
    {
      SameWithin(c, line, ty, gap);
    }
  }

  lemma SameWithin(c: Column<int>, line: Line, ty: NativeType, gap: int)
    requires c.WellFormed()
    ensures ResidualsWithin(c, line, ty, gap) <==> Within(Residuals(c, line, ty), c.ValidRows(), gap)
  {
    var rs, valid := Residuals(c, line, ty), c.ValidRows();
    if Within(rs, valid, gap) {
      forall i, j | 0 <= i < |c.values| && 0 <= j < |c.values| && c.IsValid(i) && c.IsValid(j)
        ensures Residual(c.values[i], PredictAt(line, ty, i)) - Residual(c.values[j], PredictAt(line, ty, j)) < gap
      {
        assert valid[i] && valid[j] && rs[i] - rs[j] < gap;
      }
    }
    if ResidualsWithin(c, line, ty, gap) {
      forall i, j | 0 <= i < |rs| && 0 <= j < |rs| && valid[i] && valid[j] ensures rs[i] - rs[j] < gap {
        assert PredictAt(line, ty, i) == PredictAt(line, ty, i) && PredictAt(line, ty, j) == PredictAt(line, ty, j);
      }
    }
  }

  /** What the fallback stores: unsigned values are masked to 63 bits. */
  function FallbackValue(v: int, ty: NativeType): int {
    if ty.signed then v else Mask(v, Min(ty.bits, 63))
  }

  /** Is a difference within the 64-bit signed registers? */
  predicate InWord(x: int) {
    -0x8000_0000_0000_0000 <= x < 0x8000_0000_0000_0000
  }

  /** Exactly the rows the encoding keeps, in terms of the input and the line: where the line helps, those whose
      residual does not saturate; elsewhere the signed values and those below 2^63. */
  ghost predicate RowKept(c: Column<int>, line: Line, ty: NativeType, i: nat)
    requires c.WellFormed() && i < |c.values|
  {
    if LineHelps(c, line, ty) then InWord(c.values[i] - PredictAt(line, ty, i))
    else ty.signed || c.values[i] < 0x8000_0000_0000_0000
  }

  /** The same, as the encoder decides it. */
  lemma RowKeptIff(c: Column<int>, line: Line, ty: NativeType, i: nat)
    requires c.WellFormed() && i < |c.values|
    ensures RowKept(c, line, ty, i)
       <==> if FallsBack(c, line, ty) then ty.signed || c.values[i] <= I64_MAX
            else I64_MIN <= c.values[i] - PredictAt(line, ty, i) <= I64_MAX
  {
    FallsBackIff(c, line, ty);
  }

  /** What a column must be to come back whole: no residual saturates when the line helps; otherwise signed, or without
      values from 2^63 up. */
  ghost predicate ComesBack(c: Column<int>, line: Line, ty: NativeType)
    requires c.WellFormed()
  {
    if LineHelps(c, line, ty)
    then forall i :: 0 <= i < |c.values| && c.IsValid(i) ==> InWord(c.values[i] - PredictAt(line, ty, i))
    else ty.signed || forall i :: 0 <= i < |c.values| && c.IsValid(i) ==> c.values[i] < 0x8000_0000_0000_0000
  }

  lemma ComesBackIff(c: Column<int>, line: Line, ty: NativeType)
    requires c.WellFormed()
    ensures ComesBack(c, line, ty) <==> forall i :: 0 <= i < |c.values| && c.IsValid(i) ==> RowKept(c, line, ty, i)
  {
    forall i | 0 <= i < |c.values|
      ensures RowKept(c, line, ty, i)
         <==> if LineHelps(c, line, ty) then InWord(c.values[i] - PredictAt(line, ty, i))
              else ty.signed || c.values[i] < 0x8000_0000_0000_0000
    {
    }
  }

  /** Types of at most 32 bits are kept whole, whatever the line. */
  lemma NarrowTypesKept(c: Column<int>, line: Line, ty: NativeType, i: nat)
    requires c.WellFormed() && i < |c.values| && ty.Valid() && ty.bits <= 32 && ty.Contains(c.values[i])
    ensures RowKept(c, line, ty, i)
  {
    RowKeptIff(c, line, ty, i);
    TypeBounds(ty, c.values[i]);
    PredictInRange(line(i), ty);
  }

  /** A 64-bit row can be lost, whatever the line: a single value has no spread, so the fallback is taken, and it cuts
      every value from 2^63 up. */
  lemma WideTypeLosesRow(line: Line, v: int)
    requires I64_MAX < v <= U64_MAX
    ensures var c := Column([v], None);
            FallsBack(c, line, NativeType(64, false)) && !RowKept(c, line, NativeType(64, false), 0)
  {
    var c := Column([v], None);
    var ty := NativeType(64, false);
    var r := Residual(v, PredictAt(line, ty, 0));
    assert c.IsValid(0) && c.ValidRows() == [true] && Residuals(c, line, ty) == [r];
    SpreadOfOne(r);
    SpreadOfOne(v);
    RowKeptIff(c, line, ty, 0);
  }

  lemma SpreadOfOne(a: int)
    ensures Spread([a], [true]) == 0
  {
    var s, t, valid := [a], Negated([a]), [true];
    assert Least(s, valid, 1) == Some(a) && Least(t, valid, 1) == Some(-a);
  }

  lemma FallbackExactly(v: int, ty: NativeType)
    requires ty.Valid() && ty.Contains(v)
    ensures Rebuild(PredictAt(ZERO_LINE, ty, 0), FallbackValue(v, ty), ty) == v <==> ty.signed || v <= I64_MAX
    ensures I64_MIN <= FallbackValue(v, ty) <= I64_MAX
    ensures FallbackValue(v, ty) == if ty.signed || v < 0x8000_0000_0000_0000 then v else v - 0x8000_0000_0000_0000
  {
    TypeBounds(ty, v);
    var w := Min(ty.bits, 63);
    Pow2Top(w);
    if !ty.signed && v > I64_MAX {
      CutTop(v, w);
    }
    if !ty.signed {
      MaskBound(v, w);
      if v <= I64_MAX {
        MaskSmall(v, w);
      }
    }
  }

  lemma CutTop(v: int, w: nat)
    requires w == 63 && I64_MAX < v <= U64_MAX
    ensures Mask(v, w) == v - 0x8000_0000_0000_0000
  {
    Pow2Top(w);
    ShlMul(1, w);
    Unjoin(v - Pow2(w), 1, w, v);
  }

  lemma Pow2Top(w: nat)
    ensures w == 63 ==> Pow2(w) == I64_MAX + 1
    ensures w == 32 ==> Pow2(w) == 0x1_0000_0000
    ensures w == 16 ==> Pow2(w) == 0x1_0000
    ensures w == 8 ==> Pow2(w) == 0x100
  {
    Pow2Width(w);
    Pow2Width(w + 1);
  }

  // ---------------------------------------------------------------- whole columns

  /** The column an array builder makes: a bitmap only when some row is null. */
  function Built(values: seq<int>, valid: seq<bool>): (c: Column<int>)
    requires |values| == |valid|
    ensures c.WellFormed()
  {
    Column(values, if false in valid then Some(PackBools(valid)) else None)
  }

  lemma BuiltRows(values: seq<int>, valid: seq<bool>, i: nat)
    requires i < |values| == |valid|
    ensures Built(values, valid).IsValid(i) == valid[i]
  {
    PackBoolsBit(valid, i);
  }

  /** The column that residuals and a line stand for. */
  function DecodeLinear(rd: Column<int>, line: Line, ty: NativeType): (c: Column<int>)
    requires rd.WellFormed()
    ensures c.WellFormed()
  {
    Built(seq(|rd.values|, i requires 0 <= i < |rd.values| =>
            if rd.IsValid(i) then Rebuild(PredictAt(line, ty, i), rd.values[i], ty) else 0),
          rd.ValidRows())
  }

  /** Decoding keeps the length and the null rows, and restores exactly the rows that are kept. */
  ghost predicate RestoresKept(d: Column<int>, c: Column<int>, line: Line, ty: NativeType)
    requires c.WellFormed() && d.WellFormed()
  {
    && |d.values| == |c.values|
    && forall i :: 0 <= i < |c.values| ==>
         && d.IsValid(i) == c.IsValid(i)
         && (c.IsValid(i) ==> (d.values[i] == c.values[i] <==> RowKept(c, line, ty, i)))
  }

  /** What the encoder stores for a row. */
  function Stored(c: Column<int>, line: Line, ty: NativeType, i: nat): int
    requires c.WellFormed() && i < |c.values|
  {
    if !c.IsValid(i) then 0
    else if FallsBack(c, line, ty) then FallbackValue(c.values[i], ty)
    else Residual(c.values[i], PredictAt(line, ty, i))
  }

  lemma StoredRestores(rd: Column<int>, c: Column<int>, line: Line, ty: NativeType)
    requires c.WellFormed() && rd.WellFormed() && ty.Valid() && |rd.values| == |c.values| && AllContained(c.values, ty)
    requires forall i :: 0 <= i < |c.values| ==> rd.IsValid(i) == c.IsValid(i)
    requires forall i :: 0 <= i < |c.values| && c.IsValid(i) ==> rd.values[i] == Stored(c, line, ty, i)
    ensures RestoresKept(DecodeLinear(rd, if FallsBack(c, line, ty) then ZERO_LINE else line, ty), c, line, ty)
  {
    var used := if FallsBack(c, line, ty) then ZERO_LINE else line;
    var d := DecodeLinear(rd, used, ty);
    forall i | 0 <= i < |c.values|
      ensures d.IsValid(i) == c.IsValid(i)
      ensures c.IsValid(i) ==> (d.values[i] == c.values[i] <==> RowKept(c, line, ty, i))
    {
      BuiltRows(d.values, rd.ValidRows(), i);
      if c.IsValid(i) {
        RowRebuilt(c, line, ty, i, rd.values[i]);
      }
    }
  }

  /** What is stored for a valid row is rebuilt exactly when the row is kept. */
  lemma RowRebuilt(c: Column<int>, line: Line, ty: NativeType, i: nat, r: int)
    requires c.WellFormed() && ty.Valid() && i < |c.values| && c.IsValid(i) && ty.Contains(c.values[i])
    requires r == Stored(c, line, ty, i)
    ensures Rebuild(PredictAt(if FallsBack(c, line, ty) then ZERO_LINE else line, ty, i), r, ty) == c.values[i]
       <==> RowKept(c, line, ty, i)
  {
    RowKeptIff(c, line, ty, i);
    if FallsBack(c, line, ty) {
      FallbackExactly(c.values[i], ty);
    } else {
      PredictInRange(line(i), ty);
      RebuildExactly(c.values[i], PredictAt(line, ty, i), ty);
    }
  }

  class LiquidLinearIntegerArray {
    const ty: NativeType
    const line: Line
    const residuals: LiquidPrimitiveArray

    constructor (ty: NativeType, line: Line, residuals: LiquidPrimitiveArray)
      ensures this.ty == ty && this.line == line && this.residuals == residuals
    {
      this.ty, this.line, this.residuals := ty, line, residuals;
    }

    ghost predicate Valid()
      reads residuals.bitPacked
    {
      ty.Valid() && residuals.Valid()
    }

    ghost function Decoded(): (c: Column<int>)
      requires Valid()
      reads residuals.bitPacked
      ensures c.WellFormed()
    {
      DecodeLinear(residuals.Decoded(), line, ty)
    }

    /** Encodes against the fitted line; `fit` may be any function of the row. */
    static method FromArrow(c: Column<int>, ty: NativeType, fit: Line) returns (a: LiquidLinearIntegerArray)
      requires c.WellFormed() && ty.Valid() && |c.values| < TWO_32 && AllContained(c.values, ty)
      ensures fresh(a) && fresh(a.residuals) && fresh(a.residuals.bitPacked) && a.ty == ty
      ensures a.Valid() && a.residuals.ty == INT64 && a.residuals.bitPacked.length == |c.values|
      ensures RestoresKept(a.Decoded(), c, fit, ty) <==> KeepsNulls(c)
    {
      var n := |c.values|;
      var residuals, line := Zeros(n), ZERO_LINE;
      if c.NullCount() < n {
        var fallsBack;
        residuals, fallsBack := Encode(c, ty, fit);
        line := if fallsBack then ZERO_LINE else fit;
      }
      a := PackResiduals(c, ty, residuals, line);
      if c.NullCount() == n {
        NoneFallsBack(c, fit, ty);
      }
      PackedKept(a.residuals.Decoded(), residuals, c, fit, ty, line);
    }

    static method PackResiduals(c: Column<int>, ty: NativeType, residuals: seq<int>, line: Line)
      returns (a: LiquidLinearIntegerArray)
      requires c.WellFormed() && ty.Valid() && |c.values| == |residuals| < TWO_32 && AllContained(residuals, INT64)
      ensures fresh(a) && fresh(a.residuals) && fresh(a.residuals.bitPacked)
      ensures a.ty == ty && a.line == line && a.residuals.ty == INT64
      ensures a.Valid() && a.residuals.bitPacked.length == |c.values|
      ensures SameColumn(a.residuals.Decoded(), Built(residuals, c.ValidRows()))
         <==> KeepsNulls(Built(residuals, c.ValidRows()))
      ensures !KeepsNulls(Built(residuals, c.ValidRows())) ==> a.residuals.Decoded().validity.None?
      ensures |a.residuals.Decoded().values| == |c.values|
    {
      var packed := LiquidPrimitiveArray.FromArrow(Built(residuals, c.ValidRows()), INT64);
      a := new LiquidLinearIntegerArray(ty, line, packed);
    }

    /** The residual loop, the choice, and the fallback loop. */
    static method Encode(c: Column<int>, ty: NativeType, fit: Line) returns (residuals: seq<int>, fallsBack: bool)
      requires c.WellFormed() && ty.Valid() && c.NullCount() < |c.values| && AllContained(c.values, ty)
      ensures fallsBack == FallsBack(c, fit, ty) == !LineHelps(c, fit, ty)
      ensures |residuals| == |c.values| && AllContained(residuals, INT64)
      ensures forall i :: 0 <= i < |c.values| ==> residuals[i] == Stored(c, fit, ty, i)
    {
      var valid := c.ValidRows();
      var rspread, ospread;
      residuals, rspread, ospread := ResidualLoop(c.values, valid, ty, fit, Residuals(c, fit, ty)) by {
        SomeRow(c);
      }
      fallsBack := rspread >= ospread;
      FallsBackIff(c, fit, ty);
      if fallsBack {
        residuals := FallbackLoop(c.values, valid, ty);
      }
      AllStoredFit(c, fit, ty, residuals);
    }

    static method FallbackLoop(values: seq<int>, valid: seq<bool>, ty: NativeType) returns (residuals: seq<int>)
      requires |values| == |valid|
      ensures |residuals| == |values|
      ensures forall i :: 0 <= i < |values| ==> residuals[i] == if valid[i] then FallbackValue(values[i], ty) else 0
    {
      residuals := [];
      for i := 0 to |values|
        invariant |residuals| == i
        invariant forall j :: 0 <= j < i ==> residuals[j] == if valid[j] then FallbackValue(values[j], ty) else 0
      {
        residuals := residuals + [if valid[i] then FallbackValue(values[i], ty) else 0];
      }
    }

    /** Residuals, with the spread of the residuals and of the values. */
    static method ResidualLoop(values: seq<int>, valid: seq<bool>, ty: NativeType, fit: Line, ghost rs: seq<int>)
      returns (residuals: seq<int>, rspread: int, ospread: int)
      requires ty.Valid() && |values| == |valid| == |rs|
      requires forall i :: 0 <= i < |rs| ==> I64_MIN <= rs[i] <= I64_MAX
      requires AllContained(values, ty)
      requires forall i {:trigger PredictAt(fit, ty, i)} {:trigger valid[i], rs[i]} :: 0 <= i < |values| ==>
                 rs[i] == if valid[i] then Residual(values[i], PredictAt(fit, ty, i)) else 0
      requires exists i :: 0 <= i < |values| && valid[i]
      ensures residuals == rs
      ensures rspread == Spread(rs, valid) && ospread == Spread(values, valid)
    {
      residuals := [];
      var first := if ty.signed then I64_MAX else U64_MAX;
      var last := if ty.signed then I64_MIN else 0;
      var omin, omax, rmin, rmax := first, last, I64_MAX, I64_MIN;
      for i := 0 to |values|
        invariant residuals == rs[..i]
        invariant rmin == RunningMin(rs, valid, i, I64_MAX) && rmax == RunningMax(rs, valid, i, I64_MIN)
        invariant omin == RunningMin(values, valid, i, first) && omax == RunningMax(values, valid, i, last)
      {
        if valid[i] {
          var v := values[i];
          if v < omin { omin := v; }
          if v > omax { omax := v; }
          var r := Residual(v, PredictAt(fit, ty, i));
          if r < rmin { rmin := r; }
          if r > rmax { rmax := r; }
          residuals := residuals + [r];
        } else {
          residuals := residuals + [0];
        }
      }
      RunningSpread(rs, valid, I64_MAX, I64_MIN);
      forall i | 0 <= i < |values| ensures last <= values[i] <= first {
        TypeBounds(ty, values[i]);
      }
      RunningSpread(values, valid, first, last);
      rspread, ospread := rmax - rmin, omax - omin;
    }

    method ToArrow(avx2: bool) returns (c: Column<int>)
      requires Valid() && residuals.ty == INT64
      requires Ends(residuals.bitPacked.length, residuals.bitPacked.bitWidth, 64, avx2)
      ensures c == Decoded()
    {
      var rd, _ := residuals.ToArrow(avx2);
      var values := RebuildLoop(rd, DecodeLinear(rd, line, ty).values);
      c := Built(values, rd.ValidRows());
    }

    /** The values of all rows, by prediction and residual. */
    method RebuildLoop(rd: Column<int>, ghost expected: seq<int>) returns (values: seq<int>)
      requires rd.WellFormed() && |expected| == |rd.values|
      requires forall i {:trigger expected[i]} :: 0 <= i < |expected| ==>
                 expected[i] == if rd.IsValid(i) then Rebuild(PredictAt(line, ty, i), rd.values[i], ty) else 0
      ensures values == expected
    {
      values := [];
      for i := 0 to |rd.values|
        invariant values == expected[..i]
      {
        assert expected[i] == if rd.IsValid(i) then Rebuild(PredictAt(line, ty, i), rd.values[i], ty) else 0;
        values := values + [if rd.IsValid(i) then Rebuild(PredictAt(line, ty, i), rd.values[i], ty) else 0];
      }
    }
  }

  lemma SomeRow(c: Column<int>)
    requires c.WellFormed() && c.NullCount() < |c.values|
    ensures exists i :: 0 <= i < |c.values| && c.ValidRows()[i]
  {
    AllNull(c);
    var i :| 0 <= i < |c.values| && c.IsValid(i);
    assert c.ValidRows()[i];
  }

  lemma NoneFallsBack(c: Column<int>, line: Line, ty: NativeType)
    requires c.WellFormed() && c.NullCount() == |c.values|
    ensures FallsBack(c, line, ty)
    ensures forall i :: 0 <= i < |c.values| ==> Stored(c, line, ty, i) == 0
  {
    AllNull(c);
    LeastIsLeast(c.values, c.ValidRows(), |c.values|);
    LeastIsLeast(Residuals(c, line, ty), c.ValidRows(), |c.values|);
  }

  /** What the packed residuals of a column decode to. */
  lemma PackedKept(rd: Column<int>, residuals: seq<int>, c: Column<int>, fit: Line, ty: NativeType, line: Line)
    requires c.WellFormed() && rd.WellFormed() && ty.Valid() && AllContained(c.values, ty)
    requires |residuals| == |c.values| == |rd.values|
    requires forall i :: 0 <= i < |c.values| ==> residuals[i] == Stored(c, fit, ty, i)
    requires line == if FallsBack(c, fit, ty) then ZERO_LINE else fit
    requires SameColumn(rd, Built(residuals, c.ValidRows())) <==> KeepsNulls(Built(residuals, c.ValidRows()))
    requires !KeepsNulls(Built(residuals, c.ValidRows())) ==> rd.validity.None?
    ensures RestoresKept(DecodeLinear(rd, line, ty), c, fit, ty) <==> KeepsNulls(c)
  {
    RowsBuilt(residuals, c);
    SameKeep(Built(residuals, c.ValidRows()), c);
    if KeepsNulls(c) {
      StoredRestores(rd, c, fit, ty);
    } else {
      DecodedRows(rd, line, ty);
      NullRow(c, DecodeLinear(rd, line, ty));
    }
  }

  lemma DecodedRows(rd: Column<int>, line: Line, ty: NativeType)
    requires rd.WellFormed()
    ensures |DecodeLinear(rd, line, ty).values| == |rd.values|
    ensures forall i :: 0 <= i < |rd.values| ==> DecodeLinear(rd, line, ty).IsValid(i) == rd.IsValid(i)
    ensures forall i :: 0 <= i < |rd.values| && !rd.IsValid(i) ==> DecodeLinear(rd, line, ty).values[i] == 0
  {
    forall i | 0 <= i < |rd.values| ensures DecodeLinear(rd, line, ty).IsValid(i) == rd.IsValid(i) {
      BuiltRows(DecodeLinear(rd, line, ty).values, rd.ValidRows(), i);
    }
  }

  lemma AllStoredFit(c: Column<int>, line: Line, ty: NativeType, residuals: seq<int>)
    requires c.WellFormed() && ty.Valid() && AllContained(c.values, ty) && |residuals| == |c.values|
    requires forall i :: 0 <= i < |c.values| ==> residuals[i] == Stored(c, line, ty, i)
    ensures AllContained(residuals, INT64)
  {
    forall i | 0 <= i < |c.values| ensures INT64.Contains(residuals[i]) {
      StoredFits(c, line, ty, i);
    }
  }

  lemma StoredFits(c: Column<int>, line: Line, ty: NativeType, i: nat)
    requires c.WellFormed() && ty.Valid() && i < |c.values| && ty.Contains(c.values[i])
    ensures INT64.Contains(Stored(c, line, ty, i))
  {
    FallbackExactly(c.values[i], ty);
    TypeBounds(INT64, Stored(c, line, ty, i));
  }

  lemma RowsBuilt(residuals: seq<int>, c: Column<int>)
    requires c.WellFormed() && |residuals| == |c.values|
    ensures forall i :: 0 <= i < |c.values| ==> Built(residuals, c.ValidRows()).IsValid(i) == c.IsValid(i)
  {
    forall i | 0 <= i < |c.values| ensures Built(residuals, c.ValidRows()).IsValid(i) == c.IsValid(i) {
      BuiltRows(residuals, c.ValidRows(), i);
    }
  }

  /** Without its bitmap a column of residuals makes null rows valid. */
  lemma NullRow(c: Column<int>, d: Column<int>)
    requires c.WellFormed() && d.WellFormed() && |c.values| == |d.values| && !KeepsNulls(c)
    requires forall i :: 0 <= i < |d.values| ==> d.IsValid(i)
    ensures exists i :: 0 <= i < |c.values| && d.IsValid(i) != c.IsValid(i)
  {
    NoNull(c);
  }

  /** Whatever line is fitted, exactly the kept rows come back, and the whole column if and only if the line
      helps and no residual saturates, or it does not help and no unsigned value reaches 2^63; narrow types always
      do. Residuals have 64 bits, so no path copies them, and the only bound on the count is that the loops end. */
  method RoundTrip(c: Column<int>, ty: NativeType, fit: Line, avx2: bool) returns (d: Column<int>)
    requires c.WellFormed() && ty.Valid() && AllContained(c.values, ty) && AllEnd(|c.values|, avx2)
    ensures d.WellFormed() && RestoresKept(d, c, fit, ty)
    ensures SameColumn(d, c) <==> ComesBack(c, fit, ty)
    ensures ty.bits <= 32 ==> SameColumn(d, c)
  {
    var a := LiquidLinearIntegerArray.FromArrow(c, ty, fit);
    EndsAtAnyWidth(|c.values|, a.residuals.bitPacked.bitWidth, 64, avx2);
    d := a.ToArrow(avx2);
    ComesBackIff(c, fit, ty);
    if ty.bits <= 32 {
      forall i | 0 <= i < |c.values| ensures RowKept(c, fit, ty, i) {
        NarrowTypesKept(c, fit, ty, i);
      }
    }
  }
}
