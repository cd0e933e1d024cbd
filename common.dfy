// Small wrapper types shared by every module of the model.

module Common {

  /** A value that may be absent (JavaScript `null`/`undefined`, a C `NULL`). */
  datatype Option<T> = None | Some(value: T)

  /** The outcome of an operation that may throw (JavaScript) or abort (C `exit`). */
  datatype Result<T> = Ok(value: T) | Err(msg: string)

  /** The outcome of an operation that returns nothing but may throw. */
  datatype Outcome = Pass | Fail(msg: string)

  /** The index `Math.floor(Math.random() * n)` of a draw `r` in [0, 1). */
  function Pick(r: real, n: nat): (k: nat)
    requires 0.0 <= r < 1.0 && n > 0
    ensures k < n
  {
    assert 0.0 <= r * n as real < n as real;
    (r * n as real).Floor
  }
}
