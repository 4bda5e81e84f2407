/** The `Result` shape shared by every stage of the decoder: a value, or the
    error that aborted the stage. */
module Results {
  datatype Result<+T, +E> = Ok(value: T) | Err(error: E) {
    predicate IsFailure() { Err? }

    function PropagateFailure<U>(): Result<U, E>
      requires Err?
    {
      Err(error)
    }

    function Extract(): T
      requires Ok?
    {
      value
    }
  }
}

/** The shape of a byte parser's outcome: the parsed value and the input it
    left unconsumed, or the reason it stopped. */
module Parsing {
  import opened Bytes
  import opened Results

  datatype Parsed<+T> = Parsed(value: T, rest: seq<byte>)

  /** Why a parser failed: input ran out (`Eof`), a literal did not match
      (`Tag`), or a field held a value with no meaning (`MapRes`). */
  datatype ParseError = Eof | Tag | MapRes

  type ParseResult<T> = Result<Parsed<T>, ParseError>
}
