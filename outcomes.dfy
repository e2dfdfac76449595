/** The exceptions of the lexer (Compiler/lexer/exception.swift) and the shapes in which the
    token constructors, the state handlers and the driver report them. */
module Exceptions {

  /** The cases of LexerException. The handlers construct each case with a reason text and,
      for some cases, a column offset; the reason text is not modelled. */
  datatype ErrorKind =
    | InvalidLeadingZeroOnIntegerLiteral
    | InvalidIntegerLiteral
    | InvalidCharacterLiteral
    | InvalidEscapeCharacter
    | IntegerLiteralExceedsBounds
    | InvalidOperatorException
    | IntegerPrefixWithoutLiteral
    | UppercaseIntegerPrefix
    | InvalidIntegerPrefix

  /** A thrown LexerException: its case and its column offset relative to the start of the
      token (0 where the source gives none). */
  datatype LexError = LexError(kind: ErrorKind, columnOffset: nat)
}

/** Option, the result of a throwing Swift function, and the outcome of a handler that may
    also stop the program with a runtime trap (a failed force unwrap or conversion). */
module Outcomes {
  import opened Exceptions

  datatype Option<+T> = Nothing | Some(value: T)

  /** A value, or the LexerException thrown instead of it. */
  datatype Result<+T> = Ok(value: T) | Err(error: LexError) {
    predicate IsFailure() { Err? }

    function PropagateFailure<U>(): Result<U>
      requires Err?
    {
      Err(error)
    }

    function Extract(): T
      requires Ok?
    {
      value
    }
  }

  /** A value, a thrown LexerException, or a runtime trap that ends the program. */
  datatype Outcome<+T> = Done(value: T) | Thrown(error: LexError) | Trapped {
    predicate IsFailure() { !Done? }

    function PropagateFailure<U>(): Outcome<U>
      requires !Done?
    {
      if Thrown? then Thrown(error) else Trapped
    }

    function Extract(): T
      requires Done?
    {
      value
    }
  }

  /** A `try` of a throwing call inside a function that may also trap. */
  function Try<T>(r: Result<T>): Outcome<T> {
    match r
    case Ok(v) => Done(v)
    case Err(e) => Thrown(e)
  }
}
