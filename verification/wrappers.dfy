/** Failure-compatible wrappers shared by every module of the model, and the
    exceptions the modelled Python code raises. */
module Wrappers {

  datatype Option<+T> = None | Some(value: T)

  /** The Python exceptions that the modelled code can raise. */
  datatype Exception =
    | TypeError
    | KeyError
    | IndexError
    | AttributeError
      /** ndb: a required property is unset when the entity is put. */
    | BadValueError
      /** ndb: a query without an ancestor inside a transaction. */
    | BadRequestError
      /** a local variable read before any assignment bound it. */
    | UnboundLocalError

  /** Either the value an operation returns or the exception it raises. */
  datatype Result<+T> = Ok(value: T) | Err(error: Exception) {

    predicate IsFailure() {
      Err?
    }

    function PropagateFailure<U>(): Result<U>
      requires Err?
    {
      Err(error)
    }

    function Extract(): T
      requires Ok?
    {
      value
    }
  }

  /** The signed-in user, as the identity service reports it. */
  datatype User = User(email: string)
}
