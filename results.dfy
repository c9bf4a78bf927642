/** Error outcomes of the PLSA fitting engine and failure-compatible result types. */
module Results {

  /** The ways a fitting run stops abnormally. */
  datatype Error =
    | ZeroRowSum            // `normalize` met a row that sums to zero (it raises)
    | DegenerateEStep       // the E-step met a (document, word) pair of zero topic mixture (it exits)
    | DegenerateLikelihood  // the likelihood met a non-positive mixture (the logarithm raises)

  /** A value, or the error that prevented computing it. */
  datatype Result<+T> = Ok(value: T) | Err(error: Error) {
    predicate IsFailure() { Err? }

    function PropagateFailure<U>(): Result<U>
      requires Err?
    {
      Err(error)
    }

    function Extract(): T
      requires Ok?
    {
      value
    }
  }

  /** The result of a step that only changes state. */
  datatype Outcome = Pass | Fail(error: Error) {
    predicate IsFailure() { Fail? }

    function PropagateFailure(): Outcome
      requires Fail?
    {
      this
    }
  }
}
