/** Optional values and the ways an operation of the library can end other
    than normally. */
module Outcome {

  /** The conventional Some/None datatype, used in place of a null pointer. */
  datatype Option<+T> = None | Some(value: T)

  /** How an operation of the library can end abnormally. */
  datatype Failure =
    | AssertionFailed  // an `assert` of a debug build aborted the program
    | BadAlloc         // `malloc` returned NULL and `create` threw
    | UseAfterFree     // the code wrote to a reference counter it had already deleted
    | OutOfRange       // `std::stoi` threw `std::out_of_range`: the number does not fit an `int`

  /** Either the normal result of an operation or the way it failed. */
  datatype Result<+T> = Ok(value: T) | Fail(failure: Failure) {

    predicate IsFailure() {
      Fail?
    }

    function PropagateFailure<U>(): Result<U>
      requires Fail?
    {
      Fail(failure)
    }

    function Extract(): T
      requires Ok?
    {
      value
    }
  }
}
