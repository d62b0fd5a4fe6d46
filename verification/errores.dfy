/**
 The lesson on errors: a `dividir` that never panics. It checks the divisor
 before dividing and reports a zero divisor through Go's second return
 value, an `error` built with `errors.New`.
 */
module Errores {

  import opened GoInt
  import opened Optional
  import Funciones

  /** A Go `error` made by `errors.New`: all it carries is its message. */
  datatype Error = Error(message: string)

  const DivisionPorCero: Error := Error("división por cero")

  /** The pair `(int, error)` a Go function returns; `err == None` is `nil`. */
  datatype Returned = Returned(value: Int, err: Option<Error>)

  /** `dividir(a, b)`: total on every pair of words. The error is set exactly
      when the divisor is zero, and then the value is 0; otherwise the value
      is Go's truncating quotient. */
  function Dividir(a: Int, b: Int): (r: Returned)
    ensures r.err.Some? <==> b == 0
    ensures b == 0 ==> r.value == 0 && r.err == Some(DivisionPorCero)
    ensures b != 0 && !QuoOverflows(a, b) ==> r.value == TruncDiv(a, b)
    ensures QuoOverflows(a, b) ==> r.value == MinInt
  {
    if b == 0 then Returned(0, Some(DivisionPorCero)) else Returned(Quo(a, b), None)
  }

  /** Exactly one of the two outcomes the caller tests for: a nil error with
      the quotient, or the division-by-zero error with value 0. */
  lemma ExactlyOneOutcome(a: Int, b: Int)
    ensures var r := Dividir(a, b);
      (r.err == None && b != 0 && r.value == Quo(a, b))
      != (r.err == Some(DivisionPorCero) && r.value == 0)
  {
  }

  /** On a non-zero divisor the error-returning `dividir` of this lesson gives
      the same quotient as the quotient-and-remainder `dividir` of the lesson
      on functions, so the value recombines with that remainder into `a`
      and inherits its characterisation (Funciones.DividirUnique). */
  lemma AgreesWithFunciones(a: Int, b: Int)
    requires b != 0
    ensures Dividir(a, b).value == Funciones.Dividir(a, b).0
    ensures !QuoOverflows(a, b) ==>
      Dividir(a, b).value * b + Funciones.Dividir(a, b).1 == a
  {
  }

  /** The call in main takes the error branch. */
  lemma MainTakesErrorBranch()
    ensures Dividir(10, 0).err == Some(DivisionPorCero)
    ensures Dividir(10, 0).err.value.message == "división por cero"
  {
  }
}
