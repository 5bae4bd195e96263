/** The responses the route handlers send: a status code and a body,
    either a success body or an error body carrying a message. */
module Responses {
  import opened DataStore

  datatype Payload =
    | FragmentBody(fragment: FragmentRecord)   // `{ status: 'ok', fragment }`
    | ListBody(fragments: Listing)             // `{ status: 'ok', fragments }`
    | Done                                     // `{ status: 'ok' }`
    | ErrorBody(message: string)               // `{ status: 'error', error: { code, message } }`

  datatype Response = Response(status: int, payload: Payload)

  const UnsupportedContentType := "Unsupported Content-Type"
  const InternalServerError := "Internal Server Error"
  const NotFound := "The requested fragment doesn't exist."

  function Error(status: int, message: string): Response {
    Response(status, ErrorBody(message))
  }

  /** The `Location` header a successful create or update sets:
      `<protocol>://<host>/v1/fragments/<id>`. */
  function LocationOf(protocol: string, host: string, id: string): string {
    protocol + "://" + host + "/v1/fragments/" + id
  }
}
