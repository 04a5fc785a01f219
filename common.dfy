/// Types shared by the token layer and the renderers: the token kinds, the
/// failures the C# code raises as exceptions, and the wrappers that carry
/// them back to the caller.
module Common {
  import opened Utf16

  datatype Option<+T> = None | Some(value: T)

  /// `TokenType` of the tokenizer.
  datatype TokenType = Atom | ExpressionOpen | ExpressionClose | LineBreak | EndOfFile

  /// The exceptions of the core. The format errors (`KiCadFileFormatException`)
  /// carry the offending text; the token position they also carry is left out.
  datatype Error =
    /// "Invalid escape sequence: \" followed by `sequence`.
    | InvalidEscape(sequence: Text)
    /// `ToBoolean` on text outside "Y", "1", "N", "0"; `text` is the escaped token.
    | NotABoolean(text: Text)
    /// `ToChar` on decoded text whose length is not one; `text` is the escaped token.
    | NotASingleCharacter(text: Text)
    /// `ToInt` on decoded text `int.TryParse` rejects; `text` is the escaped token.
    | NotAnInteger(text: Text)
    /// A token read with an expected `TokenType` was of another type.
    | UnexpectedToken(expected: TokenType, found: TokenType)
    /// The indexer read outside the decoded text (`IndexOutOfRangeException`).
    | IndexOutOfRange(index: int)
    /// `Substring(1, Length - 2)` on a one-character quoted atom
    /// (`ArgumentOutOfRangeException`).
    | SubstringOutOfRange
    /// `GetTextFromTokenType` on a token type it has no text for
    /// (`NotSupportedException`).
    | UnsupportedTokenType(kind: TokenType)

  /// The value of a computation that either returns or throws.
  datatype Result<+T> = Success(value: T) | Failure(error: Error) {
    predicate IsFailure() {
      Failure?
    }

    function PropagateFailure<U>(): Result<U>
      requires Failure?
    {
      Failure(error)
    }

    function Extract(): T
      requires Success?
    {
      value
    }
  }
}
