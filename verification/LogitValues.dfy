/** Logits: reals, or minus infinity for what must not be chosen. */
module LogitValues {
  datatype Logit = Finite(value: real) | NegInf

  const NEUTRAL := Finite(0.0)

  function Plus(a: Logit, b: Logit): Logit {
    if a.Finite? && b.Finite? then Finite(a.value + b.value) else NegInf
  }

  predicate AtMost(a: Logit, b: Logit) {
    a.NegInf? || (b.Finite? && a.value <= b.value)
  }
}
