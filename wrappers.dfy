/** Failure-compatible wrappers and the error values of the LOGO! client.
    Go returns `(value, error)` pairs; here an operation returns a `Result`
    (or an `Option<Error>` when it has no value to return). */
module Wrappers {

  /** The errors the client can return. Go builds them as strings; the model
      keeps one constructor per distinct `errors.New`/`fmt.Errorf` site. */
  datatype Error =
    | UnknownAddressFormat     // parseTypeByVmAddr: no pattern matched
    | NotDigits(text: string)  // NewVmAddrFromString: strconv.Atoi rejected a part
    | UnknownDataType          // writeToBuffer / getIntFromBuffer: default branch
    | EmptyArgs                // WriteMany called with no arguments
    | OutOfBlock               // the block refused an access outside DB 1

  datatype Option<+T> = None | Some(value: T)

  datatype Result<+T> = Ok(value: T) | Err(error: Error) {
    predicate IsFailure() {
      Err?
    }

    function PropagateFailure<U>(): Result<U>
      requires Err?
    {
      Err(error)
    }

    function Extract(): T
      requires Ok?
    {
      value
    }
  }
}
