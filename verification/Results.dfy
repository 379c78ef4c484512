/** The outcomes of the public entry points. */
module Results {
  datatype Option<+T> = None | Some(value: T)

  /** What an entry point can raise.  The first three are the library's own hierarchy
    * (`StateSealMismatch` and `MalformedEnvelope` are kinds of `SCEError`); the last stands for a
    * Python exception outside it, such as `OverflowError` or `struct.error`. */
  datatype Error = SceError | StateSealMismatch | MalformedEnvelope | NativeError

  datatype Result<+T> = Ok(value: T) | Err(error: Error) {
    predicate IsFailure() {
      Err?
    }

    function PropagateFailure<U>(): Result<U>
      requires Err?
    {
      Err(error)
    }

    function Extract(): T
      requires Ok?
    {
      value
    }
  }
}
