/** The responses the endpoint builds: the JSON helper `json(status, body)`
    and the CORS preflight answer `onRequestOptions`. JSON bodies are kept
    abstract: the three shapes the handler ever serialises. */
module Http {
  import opened Wrappers

  /** `null` (no body), `{ ok: true }`, or `{ error: text }`. */
  datatype Body = NoBody | OkTrue | ErrorMessage(text: string)

  datatype Response = Response(status: int, headers: seq<(string, string)>, body: Body)

  /** The value of the first header called `name`, if any. */
  function HeaderValue(headers: seq<(string, string)>, name: string): Option<string> {
    if headers == [] then None
    else if headers[0].0 == name then Some(headers[0].1)
    else HeaderValue(headers[1..], name)
  }

  function HeaderNames(headers: seq<(string, string)>): set<string> {
    set h | h in headers :: h.0
  }

  /** A response every browser page may read, with a JSON body. */
  predicate IsJsonCors(r: Response) {
    && HeaderValue(r.headers, "Content-Type") == Some("application/json")
    && HeaderValue(r.headers, "Access-Control-Allow-Origin") == Some("*")
  }

  /** `json(status, body)`: the given status and body, declared as JSON and
      open to every origin, with no other header. */
  function JsonResponse(status: int, body: Body): (r: Response)
    ensures r.status == status && r.body == body
    ensures IsJsonCors(r)
    ensures HeaderNames(r.headers) == {"Content-Type", "Access-Control-Allow-Origin"}
  {
    Response(status, [("Content-Type", "application/json"), ("Access-Control-Allow-Origin", "*")], body)
  }

  /** `onRequestOptions`: whatever the request, 204 with a null body, any
      origin, the methods `POST, OPTIONS` and the request header
      `Content-Type`. */
  function OnRequestOptions(): (r: Response)
    ensures r.status == 204 && r.body == NoBody
    ensures HeaderValue(r.headers, "Access-Control-Allow-Origin") == Some("*")
    ensures HeaderValue(r.headers, "Access-Control-Allow-Methods") == Some("POST, OPTIONS")
    ensures HeaderValue(r.headers, "Access-Control-Allow-Headers") == Some("Content-Type")
    ensures HeaderValue(r.headers, "Content-Type") == None
  {
    Response(204, [
      ("Access-Control-Allow-Origin", "*"),
      ("Access-Control-Allow-Methods", "POST, OPTIONS"),
      ("Access-Control-Allow-Headers", "Content-Type")
    ], NoBody)
  }
}
