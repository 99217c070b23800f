/**
  Floating-point values as far as the codecs look into them: the comparisons of
  section 5.11 of IEEE 754, in which NaN is unordered and the two zeros are equal.
 */
module Ieee {

  datatype Double =
    | NaN(payload: nat)
    | NegInf
    | PosInf
    | NegZero
    | Finite(r: real)
  {
    predicate IsFinite() { NegZero? || Finite? }

    function Num(): real
      requires IsFinite()
    {
      if NegZero? then 0.0 else r
    }
  }

  /** Rounding half away from zero. */
  function Round(x: real): int {
    if x >= 0.0 then (x + 0.5).Floor else -((0.5 - x).Floor)
  }

  predicate Eq(a: Double, b: Double) {
    if a.NaN? || b.NaN? then false
    else if a.IsFinite() && b.IsFinite() then a.Num() == b.Num()
    else a == b
  }

  predicate Lt(a: Double, b: Double) {
    if a.NaN? || b.NaN? || a.PosInf? || b.NegInf? then false
    else if a.NegInf? || b.PosInf? then true
    else a.Num() < b.Num()
  }

  predicate Le(a: Double, b: Double) {
    Lt(a, b) || Eq(a, b)
  }

  /** The rules of the comparisons: NaN compares with nothing, numbers as real numbers, the zeros as equal, and
      infinities beyond all numbers and equal to themselves. */
  lemma ComparisonRules(a: Double, b: Double)
    ensures a.NaN? || b.NaN? ==> !Eq(a, b) && !Lt(a, b) && !Le(a, b)
    ensures a.IsFinite() && b.IsFinite() ==>
              (Eq(a, b) <==> a.Num() == b.Num()) && (Lt(a, b) <==> a.Num() < b.Num())
              && (Le(a, b) <==> a.Num() <= b.Num())
    ensures Eq(NegZero, Finite(0.0)) && Eq(PosInf, PosInf) && Eq(NegInf, NegInf) && Lt(NegInf, PosInf)
    ensures a.IsFinite() ==> Lt(NegInf, a) && Lt(a, PosInf) && !Lt(PosInf, a) && !Lt(a, NegInf)
    ensures a.IsFinite() ==> !Eq(a, PosInf) && !Eq(a, NegInf)
  {
  }

  lemma Trichotomy(a: Double, b: Double)
    requires !a.NaN? && !b.NaN?
    ensures Lt(a, b) || Eq(a, b) || Lt(b, a)
    ensures !(Lt(a, b) && Le(b, a))
  {
  }
}
