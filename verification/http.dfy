/** What the HTTP handlers send back: a status code and a JSON body. */
module Http {
  import opened Store

  datatype Body =
    | Row(reading: Reading)                      // one row as an object
    | EmptyObject                                // `{}`
    | Rows(readings: seq<Reading>)               // an array of rows
    | Error(error: string, details: string)      // `{error, details}`
    | Message(error: string)                     // `{error}`
    | Ack(status: string, command: string)       // `{status, command}`

  datatype Response = Response(status: nat, body: Body)

  /** The reply every database handler gives when the query fails. */
  function DbError(details: string): Response {
    Response(500, Error("DB error", details))
  }
}
