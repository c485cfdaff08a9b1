/**
 * Failure values of the TOML parser. Every failure of the JavaScript parser is one
 * `TomlError` thrown with a message and an offset into the document; here the
 * message becomes a symbolic `ErrorKind` and the error travels in a `Result`.
 */
module Results {

  datatype Option<+T> = None | Some(value: T) {

    predicate IsFailure() {
      None?
    }

    function PropagateFailure<U>(): Option<U>
      requires None?
    {
      None
    }

    function Extract(): T
      requires Some?
    {
      value
    }
  }

  /** One constructor per distinct `TomlError` message of the parser. */
  datatype ErrorKind =
    | CommentControlChar      // control characters are not allowed in comments
    | UnterminatedStructure   // cannot find end of structure
    | NewlineInString         // newlines are not allowed in strings
    | StringControlChar       // control characters are not allowed in strings
    | InvalidUnicodeEscape    // invalid unicode escape
    | InvalidEscape           // only line-ending whitespace may be escaped
    | UnknownEscape           // unrecognized escape sequence
    | LeadingZero             // leading zeroes are not allowed
    | InvalidNumber           // invalid number
    | LossyInteger            // integer value cannot be represented losslessly
    | InvalidValue            // invalid value
    | NewlineInInlineTable    // newlines are not allowed in inline tables
    | TooDeep                 // document contains excessively nested structures
    | UnexpectedCharacter     // unexpected character encountered
    | MissingValue            // incomplete key-value declaration: no value specified
    | MissingKeyEnd           // incomplete key-value: cannot find end of key
    | MultilineKey            // multiline strings are not allowed in keys
    | UnfinishedString        // unfinished string encountered
    | NewlineInKey            // newlines are not allowed in keys
    | ExtraTokensInKey        // found extra tokens after the string part
    | IllegalKeyChar          // only letter, numbers, dashes and underscores are allowed in keys
    | ValueRedefinition       // trying to redefine an already defined value
    | CommentInInlineTable    // inline tables cannot contain comments
    | CommaInInlineTable      // expected key-value, found comma
    | CommaInArray            // expected value, found comma
    | TrailingComma           // trailing commas are not allowed in inline tables
    | UnfinishedTable         // unfinished table encountered
    | UnfinishedArray         // unfinished array encountered
    | ExpectedTableEnd        // expected end of table declaration
    | TableRedefinition       // trying to redefine an already defined table or value
    | ExpectedNewline         // each key-value declaration must be followed by an end-of-line

  /** A `TomlError`: what went wrong and the offset it was reported at. */
  datatype TomlError = TomlError(kind: ErrorKind, ptr: int)

  datatype Result<+T> = Ok(value: T) | Err(error: TomlError) {

    predicate IsFailure() {
      Err?
    }

    function PropagateFailure<U>(): Result<U>
      requires Err?
    {
      Err(error)
    }

    function Extract(): T
      requires Ok?
    {
      value
    }
  }

  /**
   * Which reading of the parser a function follows where the JavaScript
   * code evidently does not do what it means: the code as written, or the
   * corrected behaviour the rest of the model uses.
   */
  datatype Reading = AsWritten | Corrected

  function Fail<T>(kind: ErrorKind, ptr: int): Result<T> {
    Err(TomlError(kind, ptr))
  }
}
