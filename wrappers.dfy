/** Result types shared by the models of the library's modules. */
module Wrappers {

  datatype Option<T> = None | Some(value: T)

  /** The ways an operation of the library can fail to return a value. */
  datatype Failure =
    | NegativeArgument(n: int)         // ValueError: "<n> is negative"
    | InvalidAlgorithm(name: string)   // ValueError: "<name> is not a valid value for algorithm"
    | MissingArguments                 // TypeError: a helper called without its arguments
    | DivisionByZero                   // ZeroDivisionError
    | EmptySequence                    // min() of an empty list, or an index into an empty list
    | NonTermination                   // the loop of the operation never exits

  datatype Outcome<T> = Ok(value: T) | Err(failure: Failure)
}
