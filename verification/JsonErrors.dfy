/** The complaints the JSON reader records. Positions are offsets into the document. */
module JsonErrors {

  datatype Message =
    | EmptyEscape
    | BadEscape
    | FourDigitsExpected
    | HexDigitExpected
    | SixMoreExpected
    | SecondHalfExpected
    | NotANumber
    | ValueExpected
    | MissingColon
    | MissingCommaOrBrace
    | MissingBraceOrName
    | MissingCommaOrBracket
    | DuplicateKey
    | ExtraAfterValue
    | RootMustBeContainer

  datatype ErrorInfo = ErrorInfo(start: nat, limit: nat, message: Message)
}
