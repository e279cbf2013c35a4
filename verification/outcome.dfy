/**
 * Failure-compatible result types for the slide layer.
 *
 * The slide code reports failure in three ways: `load` returns FALSE when a
 * slide's files are missing, setters throw an argument exception for a
 * caller-correctable value, and storage problems throw an internal
 * exception. A fourth failure is the fatal error raised by calling a method
 * on a NULL object. Each becomes one constructor of `Error`.
 */
module Outcome {

  /** The record field a validation failure is attributed to. */
  datatype Field = IdField | MarkupField | NameField | IndexField | TimeField | OwnerField | ExpireField

  /** The rule a rejected value broke. */
  datatype Rule = Unknown | BadChars | TooLong | OutOfRange | Negative

  datatype Error =
    | NotFound                            // the slide's directory or files are absent
    | Validation(field: Field, rule: Rule) // an argument exception from a setter
    | Integrity(reason: string)           // an internal exception: unreadable or malformed storage
    | NullKeep                            // a method called on the NULL kept slide

  datatype Option<+T> = None | Some(value: T)

  datatype Result<+T> = Ok(value: T) | Err(error: Error) {

    predicate IsFailure() {
      Err?
    }

    function PropagateFailure<U>(): Result<U>
      requires Err?
    {
      Err(error)
    }

    function Extract(): T
      requires Ok?
    {
      value
    }
  }
}
