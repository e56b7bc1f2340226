/** The three closed enumerations of the parser (chap8/code/fsm/fsm.cpp, lines 20, 25, 35). */
module Http {
  /** CHECK_STATE: which interpreter the next complete line goes to. */
  datatype CheckState = CheckRequestLine | CheckHeader

  /** LINE_STATUS: what the line scanner found. */
  datatype LineStatus = LineOk | LineBad | LineOpen

  /**
   * HTTP_CODE: the classification.  FORBIDDEN_REQUEST and CLOSED_CONNECTION are
   * declared by the program but never produced by the parser.
   */
  datatype HttpCode =
    | NoRequest
    | GetRequest
    | BadRequest
    | ForbiddenRequest
    | InternalError
    | ClosedConnection
}
