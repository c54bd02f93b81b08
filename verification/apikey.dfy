/** The API-key gate that runs before every endpoint. The request headers
    are a map from header name to its values (a `StringValues`); the
    configured key may be absent (a null configuration entry). The gate
    either hands the request to the rest of the pipeline or answers it
    itself with 401 and a fixed body. */
module ApiKeyGate {
  import opened Wrappers

  const ApiKeyHeader: string := "X-Api-Key"
  const Unauthorized: int := 401
  const InvalidApiKey: string := "Invalid API key"

  type Headers = map<string, seq<string>>

  /** A response as the pipeline sees it. */
  datatype Response = Response(status: int, body: string)

  /** `new StringValues(key)`: a null key gives no values at all. */
  function KeyValues(key: Option<string>): seq<string> {
    if key.None? then [] else [key.value]
  }

  datatype Decision = Pass | Reject(response: Response)

  /** The test in `InvokeAsync`: reject when the header is missing or its
      values differ from the configured key, compared as `StringValues`
      (same count, each string ordinally equal). */
  function Decide(headers: Headers, key: Option<string>): (d: Decision)
    ensures d.Reject? ==> d.response == Response(Unauthorized, InvalidApiKey)
    ensures d.Pass? <==> ApiKeyHeader in headers && headers[ApiKeyHeader] == KeyValues(key)
  {
    if ApiKeyHeader !in headers || headers[ApiKeyHeader] != KeyValues(key) then
      Reject(Response(Unauthorized, InvalidApiKey))
    else
      Pass
  }

  /** The whole middleware step: `next` is the rest of the pipeline, a
      transition of some downstream state `S` that produces a response. The
      result carries the downstream state afterwards, the response, and how
      many times `next` ran. */
  function Invoke<S>(headers: Headers, key: Option<string>, state: S, next: S -> (S, Response)): (r: (S, Response, nat))
    ensures r.2 <= 1
    ensures r.2 == 1 <==> Decide(headers, key).Pass?
    ensures r.2 == 0 ==> r.0 == state && r.1 == Response(Unauthorized, InvalidApiKey)
    ensures r.2 == 1 ==> (r.0, r.1) == next(state)
  {
    match Decide(headers, key)
    case Reject(response) => (state, response, 0)
    case Pass => var (state', response) := next(state); (state', response, 1)
  }

  // ---- properties of the gate ----

  /** A request without the header never gets past the gate. */
  lemma MissingHeaderIsRejected(headers: Headers, key: Option<string>)
    requires ApiKeyHeader !in headers
    ensures Decide(headers, key) == Reject(Response(Unauthorized, InvalidApiKey))
  {
  }

  /** With a configured key, the gate passes exactly the requests whose
      header holds that key as its only value. */
  lemma ConfiguredKeyGate(headers: Headers, key: string)
    ensures Decide(headers, Some(key)).Pass?
            <==> ApiKeyHeader in headers && headers[ApiKeyHeader] == [key]
  {
  }

  /** Sending the header twice is rejected, even when both copies hold the
      key. */
  lemma RepeatedHeaderIsRejected(headers: Headers, key: string)
    requires ApiKeyHeader in headers && headers[ApiKeyHeader] == [key, key]
    ensures Decide(headers, Some(key)).Reject?
  {
  }

  /** With no key configured, every request that carries the header with
      at least one value is rejected, and so is every request without it. */
  lemma UnconfiguredKeyRejects(headers: Headers)
    requires ApiKeyHeader in headers ==> |headers[ApiKeyHeader]| > 0
    ensures Decide(headers, None).Reject?
  {
  }

  /** Only the `X-Api-Key` header matters to the decision. Header names are
      compared exactly here; the host's header dictionary ignores case, so
      for the host this holds only of names that differ from `X-Api-Key`
      in more than letter case. */
  lemma OtherHeadersDoNotMatter(headers: Headers, key: Option<string>, name: string, values: seq<string>)
    requires name != ApiKeyHeader
    ensures Decide(headers[name := values], key) == Decide(headers, key)
  {
  }

  /** A rejected request has no downstream effect, whatever `next` would do. */
  lemma RejectionHasNoEffect<S>(headers: Headers, key: Option<string>, state: S,
                                next1: S -> (S, Response), next2: S -> (S, Response))
    requires Decide(headers, key).Reject?
    ensures Invoke(headers, key, state, next1) == Invoke(headers, key, state, next2)
    ensures Invoke(headers, key, state, next1).0 == state
  {
  }
}
