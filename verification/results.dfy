/** Failure-compatible wrappers used in place of the source's force-unwraps and
    `fatalError` calls: a parse step either yields a value or names what went wrong. */
module Results {

  /** An optional value (the source's `String?` / `String!`). */
  datatype Option<+T> = None | Some(value: T)

  /** Either a computed value or the error that stopped the computation. */
  datatype Result<+T, +E> = Ok(value: T) | Err(error: E) {

    predicate IsFailure() {
      Err?
    }

    function PropagateFailure<U>(): Result<U, E>
      requires Err?
    {
      Err(error)
    }

    function Extract(): T
      requires Ok?
    {
      value
    }
  }
}

/** Everything that makes the header parser give up on one document. In the
    source each of these is a trap: a `fatalError`, a force-unwrapped `nil`,
    an out-of-range string index or a failed `Int(_:)` conversion. */
module Errors {

  datatype ParseError =
    | EmptyFile                                 // `lines[0]` on a document with no lines
    | MissingIdentifierLine                     // no "* Proposal:" line in the header window
    | MissingAuthorLine                         // neither "* Author:" nor "* Authors:" in the window
    | MissingStatusLine                         // no "* Status: " line in the window
    | TooShort(text: string, needed: nat)       // a fixed-offset slice runs past the end of `text`
    | UnknownStatus(line: string)               // no status phrase matched; carries the whole status line
    | UnknownVersion(text: string)              // "Implemented" without a known Swift version
    | NotANumber(text: string)                  // the part of an identifier after "SE-" is not an integer
}
