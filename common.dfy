/** Values shared by the text processor and the dashboard. */
module Common {

  /** The way an operation on the text processor's input directory fails. */
  datatype Error = NotFound(filename: string)

  datatype Result<T> = Ok(value: T) | Err(error: Error)

  /** A quotient the scripts compute as `numerator / denominator if ... else 0`.
      The division itself is floating point; the model keeps its exact
      operands, or the integer `0` of the fallback branch. */
  datatype Average = Zero | Ratio(numerator: nat, denominator: nat)
}
