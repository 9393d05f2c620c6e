/** The kinds of `ParserException` (and the one PHP engine error) a decode can end in. */
module Errors {

  datatype ParseError =
    | WrongContentType(contentType: string)   // the media type is not multipart/form-data
    | MissingBoundary                         // no `boundary=` as the second `;`-piece
    | HeaderLineError(line: string)           // a part header line without `:`
    | HeaderLineNameError(line: string)       // a header name with surrounding whitespace
    | TypeError                               // an int passed where a string parameter is declared
}
