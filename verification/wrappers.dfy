/** Failure-compatible wrappers shared by the whole model.

    Every Python exception that the conversion module can raise aborts the
    conversion; the model returns it as `Fail(failure)` instead. */
module Wrappers {

  datatype Option<+T> = None | Some(value: T) {

    function GetOr(default: T): T {
      match this
      case Some(v) => v
      case None => default
    }
  }

  /** The exceptions the conversion code can raise, named after what goes wrong. */
  datatype Failure =
    | TextIsNone          // a regular expression or int() applied to a missing `.text` (TypeError)
    | IndexOutOfRange     // a list or child index past the end (IndexError)
    | NotAnInteger        // int() of text that is not a number (ValueError)
    | NoPreviousSibling   // `.getprevious()` returned None and was dereferenced (AttributeError)
    | RootSibling         // a sibling added next to the root element (TypeError)
    | NotAnElement        // a child inserted into a comment node (TypeError)

  datatype Outcome<+T> = Ok(value: T) | Fail(error: Failure) {

    predicate IsFailure() {
      Fail?
    }

    function PropagateFailure<U>(): Outcome<U>
      requires Fail?
    {
      Fail(error)
    }

    function Extract(): T
      requires Ok?
    {
      value
    }
  }
}
