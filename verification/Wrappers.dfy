/** The optional value and the two-way result used by every model in this project. */
module Wrappers {

  datatype Option<+T> = None | Some(value: T)

  datatype Result<+T, +E> = Ok(value: T) | Err(error: E) {
    predicate IsFailure() {
      Err?
    }

    function PropagateFailure<U>(): Result<U, E>
      requires Err?
    {
      Err(error)
    }

    function Extract(): T
      requires Ok?
    {
      value
    }
  }

  /** The unsigned number `u`, of as many bits as `modulus` says, means `v` in two's complement. */
  ghost predicate IsSigned(v: int, u: int, modulus: int) {
    -modulus <= 2 * v < modulus && (v == u || v == u - modulus)
  }
}
