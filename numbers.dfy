/**
 * JavaScript numbers as the calculator uses them. Floating-point behaviour is not
 * modelled: every conversion and every IEEE operation is a field of a `Platform`
 * record that the engine receives, so each proof holds for any platform.
 */
module Numbers {
  import opened Types

  /** A JavaScript number: finite, not-a-number, or a signed infinity. */
  datatype Num = Finite(value: real) | NaN | Infinity(negative: bool)

  const Zero := Finite(0.0)

  datatype Platform = Platform(
    parseFloat: string -> Num,      // parseFloat(s)
    number: string -> Num,          // Number(s)
    toString: Num -> string,        // String(n) and template interpolation
    toFixed: (Num, nat) -> string,  // n.toFixed(digits)
    toExponential: (Num, nat) -> string, // n.toExponential(digits)
    ieee: (Op, Num, Num) -> Num,    // a + b, a - b, a * b, a / b, Math.pow(a, b)
    sqrt: Num -> Num,
    sin: Num -> Num,
    cos: Num -> Num,
    tan: Num -> Num,
    log10: Num -> Num,
    ln: Num -> Num,                 // Math.log
    pi: Num,                        // Math.PI
    e: Num                          // Math.E
  )

  /** The facts of the JavaScript number text that the error path relies on. */
  ghost predicate JsNumberText(p: Platform)
  {
    && p.toString(NaN) == "NaN"
    && p.toString(Infinity(false)) == "Infinity"
    && p.toString(Infinity(true)) == "-Infinity"
    && p.parseFloat("NaN") == NaN
    && p.number("NaN") == NaN
    && (forall n: nat :: p.toFixed(NaN, n) == "NaN")
  }

  /** Math.sqrt of a negative number is not a number. */
  ghost predicate SqrtDomain(p: Platform)
  {
    forall r: real :: r < 0.0 ==> p.sqrt(Finite(r)) == NaN
  }

  /**
   * computeResult: the binary operator table. Division by zero (either sign of
   * zero) is not-a-number instead of an infinity; no operator yields `b`.
   */
  function ComputeResult(p: Platform, a: Num, b: Num, op: Option<Op>): (r: Num)
    ensures op == Some(Div) && b == Zero ==> r == NaN
    ensures op == None ==> r == b
    ensures op.Some? && !(op.value == Div && b == Zero) ==> r == p.ieee(op.value, a, b)
  {
    match op
    case None => b
    case Some(o) =>
      if o == Div && b == Zero then NaN else p.ieee(o, a, b)
  }
}
