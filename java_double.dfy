/**
 * Java `double` values as far as the click-assist engine uses them: comparisons
 * with the constants 0 and 1, and a division by 100. Finite values are exact
 * reals; rounding is not modelled.
 */
module JavaDouble {

  /** A `double`: not-a-number, the two infinities, or a finite value. */
  datatype Dbl = NaN | NegInf | PosInf | Num(value: real)

  /** Java's `d < x` for a finite constant `x`; false whenever `d` is NaN. */
  predicate Below(d: Dbl, x: real)
  {
    match d
    case NaN => false
    case NegInf => true
    case PosInf => false
    case Num(v) => v < x
  }

  /** Java's `d > x` for a finite constant `x`; false whenever `d` is NaN. */
  predicate Above(d: Dbl, x: real)
  {
    match d
    case NaN => false
    case NegInf => false
    case PosInf => true
    case Num(v) => v > x
  }

  /**
   * The two comparisons as Java evaluates them: NaN is neither below nor
   * above anything, no value is both, and any other value is below `x`,
   * above `x`, or exactly `x`.
   */
  lemma Comparisons(d: Dbl, x: real)
    ensures d.NaN? ==> !Below(d, x) && !Above(d, x)
    ensures !(Below(d, x) && Above(d, x))
    ensures !d.NaN? ==> (Below(d, x) || Above(d, x) || d == Num(x))
  {
  }

  /** Java's `d / 100.0`, without rounding. */
  function DivideBy100(d: Dbl): (q: Dbl)
    ensures q.NaN? <==> d.NaN?
    ensures q.PosInf? <==> d.PosInf?
    ensures q.NegInf? <==> d.NegInf?
    ensures q.Num? ==> q.value * 100.0 == d.value
  {
    match d
    case Num(v) => Num(v / 100.0)
    case _ => d
  }

  /** A number that is not NaN, clamped into the unit interval. */
  function Clamp(p: Dbl): (c: real)
    requires !p.NaN?
    ensures 0.0 <= c <= 1.0
    ensures Below(p, 0.0) ==> c == 0.0
    ensures Above(p, 1.0) ==> c == 1.0
    ensures !Below(p, 0.0) && !Above(p, 1.0) ==> p == Num(c)
  {
    match p
    case NegInf => 0.0
    case PosInf => 1.0
    case Num(v) => if v < 0.0 then 0.0 else if v > 1.0 then 1.0 else v
  }

  /**
   * The probability stored after asking for `p` while `current` is stored:
   * NaN is ignored, every other value is clamped.
   */
  function ChanceAfter(current: real, p: Dbl): (c: real)
    requires 0.0 <= current <= 1.0
    ensures 0.0 <= c <= 1.0
    ensures p.NaN? ==> c == current
    ensures Below(p, 0.0) ==> c == 0.0
    ensures Above(p, 1.0) ==> c == 1.0
    ensures p.Num? && 0.0 <= p.value <= 1.0 ==> c == p.value
  {
    if p.NaN? then current else Clamp(p)
  }

  /** The clamping law on sample inputs: -0.3 stores 0, 1.7 stores 1, NaN keeps the current value. */
  lemma ClampingLaw(current: real)
    requires 0.0 <= current <= 1.0
    ensures ChanceAfter(current, Num(-0.3)) == 0.0
    ensures ChanceAfter(current, Num(1.7)) == 1.0
    ensures ChanceAfter(current, NegInf) == 0.0 && ChanceAfter(current, PosInf) == 1.0
    ensures ChanceAfter(current, NaN) == current
  {
  }
}
