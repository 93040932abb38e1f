/** What one `fetch` call can end in, as seen by the front end: the network
    call rejects, or a response arrives with a status and a body that either
    parses as JSON or does not. The network itself is not modelled: a
    transport is a function from the requested URL to its outcome. */
module Http {
  import opened Wrappers
  import opened Json

  /** The body is the result of parsing the response text as JSON; a body
      that is not JSON carries the parser's error message. */
  datatype HttpOutcome =
    | NetworkError(message: string)
    | Response(status: nat, body: Result<JsonValue>)

  /** `response.ok`: the status is in the range 200-299. */
  predicate IsOk(status: nat) { 200 <= status <= 299 }
}
