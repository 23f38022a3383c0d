/** The errors of the parity tool: its own messages, a bad declaration on a line, or a failure of the JSON parser. */
module ParityErrors {
  import JsonParser

  datatype ParityError =
    | Message(text: string)
    | InvalidDeclaration(keyword: string, line: nat)
    | Json(error: JsonParser.ParseError)
}
