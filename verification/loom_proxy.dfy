/** The `POST` handler of the loom proxy route: it checks the incoming `loom_url`, forwards
    only that field upstream, and maps what comes back (or what was thrown) to a response.
    The upstream request, `JSON.parse` and the platform's error text are oracles: the
    request's outcome is an input, parsing is a function from text to an optional document,
    and the message `Response.json` throws for a status it rejects is a function of that
    status. */
module LoomProxy {
  import opened Wrappers
  import opened Text

  /** What `body.loom_url` holds: a string, or a value of any other type (absent included). */
  datatype UrlField = UrlString(url: string) | NotString

  /** The incoming request: a body that could not be read (the error `req.json()` or the field
      access threw), or a parsed body with its `loom_url` and its `recording_type`. */
  datatype Incoming = Unreadable(error: Thrown) | Received(loomUrl: UrlField, recordingType: string)

  /** How the upstream request ended: the fetch threw (the 30 second abort included), or a
      response came back with its status and its text, `None` when reading the text threw. */
  datatype Upstream = FetchFailed(error: Thrown) | Answered(status: int, text: Option<string>)

  /** The JSON body the proxy answers with: an `{error}` object, or the upstream document. */
  datatype Body<D> = ErrorBody(error: string) | Document(doc: D)

  datatype Response<D> = Response(status: int, body: Body<D>)

  /** The only body sent upstream: `{loom_url}`. */
  datatype Forward = Forward(loomUrl: string)

  /** The first phase of the handler: an answer given without any upstream request, or the
      body to send upstream. */
  datatype Step<D> = Answer(response: Response<D>) | Send(forward: Forward)

  /** `response.ok` */
  predicate Ok(status: int) {
    200 <= status <= 299
  }

  /** Whether `Response.json` (behind `NextResponse.json`) accepts the status with a JSON
      body. The response constructor of the Fetch standard throws a RangeError for a status
      outside 200..599, and a TypeError for a null-body status (204, 205, 304) when there is a
      body; 101 and 103, the other null-body statuses, are already out of range. */
  predicate Constructible(status: int) {
    200 <= status <= 599 && status !in {204, 205, 304}
  }

  /** `e instanceof Error ? e.message : fallback` */
  function MessageOf(e: Thrown, fallback: string): string {
    match e
    case ErrorObject(m) => m
    case OtherThrown => fallback
  }

  /** Reads the body and validates `loom_url`: a falsy or non-string value is answered 400, a
      body that cannot be read 500, and a non-empty string is forwarded on its own. */
  function Validate<D>(incoming: Incoming): (r: Step<D>)
    ensures r.Send? <==> incoming.Received? && incoming.loomUrl.UrlString? && incoming.loomUrl.url != ""
    ensures r.Send? ==> r.forward.loomUrl == incoming.loomUrl.url
    ensures r.Answer? ==> r.response.body.ErrorBody? && r.response.status in {400, 500}
  {
    match incoming
    case Unreadable(e) =>
      Answer(Response(500, ErrorBody("Failed to proxy request: " + MessageOf(e, "Unknown error"))))
    case Received(field, _) =>
      if field.UrlString? && field.url != "" then Send(Forward(field.url))
      else Answer(Response(400, ErrorBody("Invalid or missing loom_url in request")))
  }

  /** Maps the upstream outcome to the proxy's response. Relaying a non-2xx status that
      `Response.json` rejects throws inside the inner `try`, so the fetch handler answers 502
      with the thrown message (an `Error`, so its message is used). */
  function Relay<D>(upstream: Upstream, parse: string -> Option<D>, statusError: int -> string): (r: Response<D>)
  {
    match upstream
    case FetchFailed(e) =>
      Response(502, ErrorBody("Fetch operation failed: " + MessageOf(e, "Unknown fetch error")))
    case Answered(status, text) =>
      if !Ok(status) then
        if !Constructible(status) then
          Response(502, ErrorBody("Fetch operation failed: " + statusError(status)))
        else
          var detail := if text.Some? then text.value else "Could not extract error details";
          Response(status, ErrorBody("Error: " + IntToString(status) + " - " + detail))
      else if text.Some? && parse(text.value).Some? then
        Response(200, Document(parse(text.value).value))
      else
        Response(500, ErrorBody("Failed to parse response from API"))
  }

  /** The whole handler. */
  function Post<D>(incoming: Incoming, upstream: Upstream, parse: string -> Option<D>, statusError: int -> string): Response<D>
  {
    match Validate(incoming)
    case Answer(r) => r
    case Send(_) => Relay(upstream, parse, statusError)
  }

  /** The upstream request is made only for a non-empty string URL, and what it sends
      does not depend on the recording type the client chose. */
  lemma ForwardOnlyUrl<D>(url: string, type1: string, type2: string)
    requires url != ""
    ensures Validate<D>(Received(UrlString(url), type1)) == Send(Forward(url))
    ensures Validate<D>(Received(UrlString(url), type1)) == Validate<D>(Received(UrlString(url), type2))
  {
  }

  /** The fixed answers: a falsy or non-string `loom_url` is a 400 with a fixed message, a body
      that cannot be read is a 500 naming the thrown message (or "Unknown error"), and a fetch
      that throws, the abort included, is a 502 naming its message (or "Unknown fetch error"). */
  lemma ErrorAnswers<D>(m: string, field: UrlField, recordingType: string, u: Upstream, parse: string -> Option<D>, statusError: int -> string)
    ensures (field.NotString? || field.url == "") ==>
      Post(Received(field, recordingType), u, parse, statusError) == Response(400, ErrorBody("Invalid or missing loom_url in request"))
    ensures Post(Unreadable(ErrorObject(m)), u, parse, statusError) == Response(500, ErrorBody("Failed to proxy request: " + m))
    ensures Post(Unreadable(OtherThrown), u, parse, statusError) == Response(500, ErrorBody("Failed to proxy request: Unknown error"))
    ensures field.UrlString? && field.url != "" ==>
      && Post(Received(field, recordingType), FetchFailed(ErrorObject(m)), parse, statusError)
           == Response(502, ErrorBody("Fetch operation failed: " + m))
      && Post(Received(field, recordingType), FetchFailed(OtherThrown), parse, statusError)
           == Response(502, ErrorBody("Fetch operation failed: Unknown fetch error"))
  {
    assert "Fetch operation failed: " + "Unknown fetch error" == "Fetch operation failed: Unknown fetch error";
    assert "Failed to proxy request: " + "Unknown error" == "Failed to proxy request: Unknown error";
  }

  /** A rejected request makes no upstream request: its answer is the same whatever the
      upstream would have done. */
  lemma RejectedIgnoresUpstream<D>(incoming: Incoming, u1: Upstream, u2: Upstream, parse: string -> Option<D>, statusError: int -> string)
    requires Validate<D>(incoming).Answer?
    ensures Post(incoming, u1, parse, statusError) == Post(incoming, u2, parse, statusError)
    ensures Post(incoming, u1, parse, statusError).body.ErrorBody?
  {
  }

  /** The response passes a document through exactly when the URL was valid, the upstream
      answered 2xx, and its text was read and parsed; the document is the parsed text,
      unchanged, under status 200. */
  lemma PassThroughExactly<D>(incoming: Incoming, upstream: Upstream, parse: string -> Option<D>, statusError: int -> string)
    ensures var r := Post(incoming, upstream, parse, statusError);
      r.body.Document? <==>
        && Validate<D>(incoming).Send?
        && upstream.Answered? && Ok(upstream.status)
        && upstream.text.Some? && parse(upstream.text.value).Some?
    ensures var r := Post(incoming, upstream, parse, statusError);
      r.body.Document? ==> r.status == 200 && r.body.doc == parse(upstream.text.value).value
  {
  }

  /** A response has a 2xx status exactly when it passes a document through: every error
      answer, the relayed upstream errors included, has a non-2xx status. */
  lemma SuccessStatusIffDocument<D>(incoming: Incoming, upstream: Upstream, parse: string -> Option<D>, statusError: int -> string)
    ensures Ok(Post(incoming, upstream, parse, statusError).status) <==> Post(incoming, upstream, parse, statusError).body.Document?
  {
  }

  /** A non-2xx upstream status that `Response.json` accepts is answered with the same status;
      the error names the status and carries the upstream text, or a fixed note when it could
      not be read. The statuses it rejects are the subject of `RejectedStatusIs502`. */
  lemma UpstreamErrorRelayed<D>(incoming: Incoming, status: int, text: Option<string>, parse: string -> Option<D>, statusError: int -> string)
    requires Validate<D>(incoming).Send? && !Ok(status) && Constructible(status)
    ensures var r := Post(incoming, Answered(status, text), parse, statusError);
      && r.status == status
      && r.body == ErrorBody("Error: " + IntToString(status) + " - " + text.GetOr("Could not extract error details"))
  {
  }

  /** A non-2xx upstream status that `Response.json` rejects (a 304, or one outside 200..599)
      is not relayed: the throw lands in the fetch handler, which answers 502 with the thrown
      message, whatever the upstream text was. */
  lemma RejectedStatusIs502<D>(incoming: Incoming, status: int, text: Option<string>, parse: string -> Option<D>, statusError: int -> string)
    requires Validate<D>(incoming).Send? && !Ok(status) && !Constructible(status)
    ensures Post(incoming, Answered(status, text), parse, statusError)
      == Response(502, ErrorBody("Fetch operation failed: " + statusError(status)))
  {
  }

  /** Of the statuses an upstream can send without being a success, exactly 304 is refused by
      `Response.json` within 300..599: every other redirect, client and server error status is
      relayed as it is. */
  lemma NotModifiedIsTheOnlyRejectedError(status: int)
    requires 300 <= status <= 599
    ensures !Constructible(status) <==> status == 304
  {
  }

  /** The proxy never answers with a status that `Response.json` would refuse: every answer,
      relayed ones included, can actually be built. */
  lemma AnswerStatusConstructible<D>(incoming: Incoming, upstream: Upstream, parse: string -> Option<D>, statusError: int -> string)
    ensures Constructible(Post(incoming, upstream, parse, statusError).status)
  {
  }

  /** A 2xx upstream answer that is not JSON, or whose text cannot be read, becomes a 500. */
  lemma UnparsableAnswerIs500<D>(incoming: Incoming, status: int, text: Option<string>, parse: string -> Option<D>, statusError: int -> string)
    requires Validate<D>(incoming).Send? && Ok(status)
    requires text.None? || parse(text.value).None?
    ensures Post(incoming, Answered(status, text), parse, statusError) == Response(500, ErrorBody("Failed to parse response from API"))
  {
  }

  /** Every error the proxy answers with carries a non-empty message. */
  lemma ErrorTextNonEmpty<D>(incoming: Incoming, upstream: Upstream, parse: string -> Option<D>, statusError: int -> string)
    ensures Post(incoming, upstream, parse, statusError).body.ErrorBody? ==> Post(incoming, upstream, parse, statusError).body.error != ""
  {
  }
}
