/** Shared value types of the slang analyzer. */
module SlangTypes {

  /** JavaScript's `null`/`undefined` versus a present value. */
  datatype Option<+T> = None | Some(value: T) {
    /** `value || fallback` for a value that is always truthy when present. */
    function GetOr(fallback: T): T {
      match this
      case Some(v) => v
      case None => fallback
    }
  }

  /** One element of the analysis list returned by the slang-identification flow.
      Only `term` takes part in highlighting; the other fields are shown in the
      popover and the glossary and are opaque here. */
  datatype Item = Item(
    term: string,
    meaning: string,
    countryOfOrigin: string,
    estimatedAgeRange: string,
    briefDefinition: string)

  /** A thrown JavaScript value: an `Error` object (possibly a `SyntaxError`)
      with its message, or any other value. */
  datatype Thrown =
    | ThrownError(isSyntaxError: bool, message: string)
    | ThrownValue

  /** The message the code reports for a caught value:
      `err instanceof Error ? err.message : "An unknown error occurred."`. */
  function MessageOf(e: Thrown): string {
    match e
    case ThrownError(_, message) => message
    case ThrownValue => UnknownError
  }

  const UnknownError: string := "An unknown error occurred."
}
