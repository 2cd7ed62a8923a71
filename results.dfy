/** Values shared by the whole model: format names, optional values (Ruby's
    `nil`), the failures the negotiator can raise, and a result type that
    carries either a value or one of those failures. */
module Results {

  /** A format identifier (a Ruby symbol such as `:json` or `:yaml`). */
  type Name = string

  datatype Option<+T> = None | Some(value: T)

  /** What Ruby's string interpolation prints for an optional format name:
      the name itself, or the empty string for `nil`. */
  function Text(n: Option<Name>): string
  {
    match n
    case Some(s) => s
    case None => ""
  }

  /** The failures that can surface from the negotiator. */
  datatype Failure =
    | NotRegistered(name: Option<Name>)  // the registry knows no format under this name
    | Raised(message: string)            // a codec raised an exception with this message
    | FormatError(message: string)       // the uniform wrapper the dispatch methods raise

  /** The text of a failure, as `#{err}` prints it. */
  function Message(e: Failure): string
  {
    match e
    case NotRegistered(n) => "No format registered as " + Text(n)
    case Raised(m) => m
    case FormatError(m) => m
  }

  datatype Result<+T> = Ok(value: T) | Err(error: Failure)
}
