/** The request handlers of the client. Each prints a trace of the request,
    builds the request (no body, form pairs split out of `--data`, or the
    JSON value parsed out of `--json`), hands it to the transport, and then
    either renders the response or reports the transport error. Printing
    and `process::exit` become a returned `Report`; the JSON parser, the
    pretty printer and the transport are parameters. */
module Handlers {
  import opened Text
  import opened JsonModel

  datatype Stream = Stdout | Stderr

  /** One `println!` or `eprintln!`: the text before its newline. */
  datatype Line = Line(stream: Stream, text: string)

  /** How the process ends: `process::exit(code)`, a return from `main`
      (code 0), or a panic raised by `unwrap` or `expect`. */
  datatype Termination = Exit(code: int) | Panic(message: string)

  /** A parsed `url::Url`, as its serialization (what `Display` and `as_str` give). */
  datatype Url = Url(serialization: string)

  datatype Method = Get | Post

  datatype Body = NoBody | Form(pairs: seq<(string, string)>) | Json(value: Value)

  /** What the handler gives the HTTP client to send. */
  datatype Request = Request(verb: Method, url: Url, headers: seq<(string, string)>, body: Body)

  /** `reqwest::StatusCode` holds a three-digit code. */
  type StatusCode = n: int | 100 <= n <= 999 witness 200

  /** A response: its status and the result of reading its body as text. */
  datatype Response = Response(status: StatusCode, text: Option<string>)

  /** What `send().await` gives back: a response, or an error that
      `is_connect()` recognises, or any other error with its `Display` text. */
  datatype Transport = Received(response: Response) | ConnectError | OtherError(detail: string)

  /** The lines printed and the way the process ends. */
  datatype Finish = Finish(lines: seq<Line>, end: Termination)

  /** All that can be observed of one run: the lines printed, the request
      handed to the transport if one was, and the way the process ends. */
  datatype Report = Report(lines: seq<Line>, sent: Option<Request>, end: Termination)

  /** The code the model does not look into: `serde_json::from_str`,
      `serde_json::to_string_pretty` of the sorted map, and the transport. */
  datatype Services = Services(
    parseJson: string -> Option<Value>,
    pretty: seq<Entry> -> string,
    send: Request -> Transport)

  const SortedHeading := "Response body (JSON with sorted keys):"
  const RawHeading := "Response body:"
  const UnwrapNone := "called `Option::unwrap()` on a `None` value"
  const InvalidJson := "Invalid JSON"
  const ConnectMessage :=
    "Error: Unable to connect to the server. Perhaps the network is offline or the server hostname cannot be resolved."
  const JsonHeader := ("Content-Type", "application/json")

  // ---------------------------------------------------------------------
  // Form data
  // ---------------------------------------------------------------------

  /** One `&`-separated piece of `--data` as a key and a value: the text
      before the first `=`, and the text between the first and the second
      `=`. A piece without `=` gets an empty value; whatever follows a second
      `=` is dropped. */
  function FormPair(piece: string): (kv: (string, string))
    ensures '=' !in kv.0 && '=' !in kv.1
    ensures '=' !in piece ==> kv == (piece, "")
    ensures '=' in piece ==>
      var n := |kv.0| + 1 + |kv.1|;
      && StartsWith(piece, kv.0 + "=" + kv.1)
      && (n == |piece| || piece[n] == '=')
  {
    var parts := Split(piece, '=');
    SplitJoin(piece, '=');
    if |parts| > 1 then
      assert piece == parts[0] + "=" + Join(parts[1..], '=');
      JoinHead(parts[1..], '=');
      (parts[0], parts[1])
    else
      (parts[0], "")
  }

  /** A join starts with its first piece, followed by the separator when
      more pieces come. */
  lemma JoinHead(pieces: seq<string>, sep: char)
    requires |pieces| >= 1
    ensures StartsWith(Join(pieces, sep), pieces[0])
    ensures |pieces| > 1 ==> |Join(pieces, sep)| > |pieces[0]| && Join(pieces, sep)[|pieces[0]|] == sep
  {
    var s := Join(pieces, sep);
    if |pieces| > 1 {
      assert s == pieces[0] + [sep] + Join(pieces[1..], sep);
      assert s[..|pieces[0]|] == pieces[0];
    }
  }

  /** The pairs `handle_post_data` sends: one per `&`-separated piece, in order. */
  function FormPairs(data: string): (pairs: seq<(string, string)>)
    ensures |pairs| == Count(data, '&') + 1 == |Split(data, '&')|
    ensures forall k :: 0 <= k < |pairs| ==> pairs[k] == FormPair(Split(data, '&')[k])
  {
    var pieces := Split(data, '&');
    SplitCount(data, '&');
    seq(|pieces|, k requires 0 <= k < |pieces| => FormPair(pieces[k]))
  }

  /** The `--data` text that the pairs were split from, when each piece
      held exactly one `=`. */
  function JoinForm(pairs: seq<(string, string)>): string {
    Join(seq(|pairs|, k requires 0 <= k < |pairs| => pairs[k].0 + "=" + pairs[k].1), '&')
  }

  /** Splitting undoes joining for pairs whose keys and values hold neither
      `&` nor `=`. */
  lemma FormRoundTrip(pairs: seq<(string, string)>)
    requires |pairs| >= 1
    requires forall k :: 0 <= k < |pairs| ==>
      '&' !in pairs[k].0 && '&' !in pairs[k].1 && '=' !in pairs[k].0 && '=' !in pairs[k].1
    ensures FormPairs(JoinForm(pairs)) == pairs
  {
    var pieces := seq(|pairs|, k requires 0 <= k < |pairs| => pairs[k].0 + "=" + pairs[k].1);
    forall k | 0 <= k < |pieces| ensures '&' !in pieces[k] {
      assert pieces[k] == pairs[k].0 + "=" + pairs[k].1;
    }
    JoinSplit(pieces, '&');
    forall k | 0 <= k < |pairs| ensures FormPair(pieces[k]) == pairs[k] {
      FormPairOfJoined(pairs[k].0, pairs[k].1);
    }
  }

  lemma FormPairOfJoined(key: string, value: string)
    requires '=' !in key && '=' !in value
    ensures FormPair(key + "=" + value) == (key, value)
  {
    assert Join([key, value], '=') == key + "=" + value;
    JoinSplit([key, value], '=');
  }

  /** Joining undoes splitting when each piece of the data holds exactly one `=`. */
  lemma FormRoundTripData(data: string)
    requires forall k :: 0 <= k < |Split(data, '&')| ==> Count(Split(data, '&')[k], '=') == 1
    ensures JoinForm(FormPairs(data)) == data
  {
    var pieces := Split(data, '&');
    var pairs := FormPairs(data);
    var rejoined := seq(|pairs|, k requires 0 <= k < |pairs| => pairs[k].0 + "=" + pairs[k].1);
    forall k | 0 <= k < |pieces| ensures rejoined[k] == pieces[k] {
      OneEquals(pieces[k]);
    }
    assert rejoined == pieces;
    SplitJoin(data, '&');
  }

  /** A piece with exactly one `=` is its key, the `=`, and its value. */
  lemma OneEquals(piece: string)
    requires Count(piece, '=') == 1
    ensures FormPair(piece).0 + "=" + FormPair(piece).1 == piece
  {
    var parts := Split(piece, '=');
    SplitCount(piece, '=');
    SplitJoin(piece, '=');
    assert |parts| == 2;
    assert Join(parts[1..], '=') == parts[1];
  }

  // ---------------------------------------------------------------------
  // print_response and handle_request_error
  // ---------------------------------------------------------------------

  /** `StatusCode::is_success`: the 2xx class. */
  function IsSuccess(status: StatusCode): (ok: bool)
    ensures ok <==> status / 100 == 2
  {
    200 <= status <= 299
  }

  /** `print_response`. A status outside 2xx prints only the status line
      and exits with 1. Otherwise the body text (empty when it cannot be
      read) is parsed: a JSON object is printed with its top-level keys in
      strictly ascending order and its key-to-value map kept; any other
      JSON value reaches `unwrap` on `as_object()` and panics; text that is
      not JSON is printed as it is. */
  function PrintResponse(response: Response, services: Services): (f: Finish)
    ensures f.end == Exit(1) <==> !IsSuccess(response.status)
    ensures !IsSuccess(response.status) ==>
      f.lines == [Line(Stderr, "Error: Request failed with status code: " + Decimal(response.status as nat) + ".")]
    ensures IsSuccess(response.status) ==>
      var body := if response.text.Some? then response.text.value else "";
      match services.parseJson(body)
      case Some(Object(es)) =>
        && f.end == Exit(0)
        && |f.lines| == 2
        && f.lines[0] == Line(Stdout, SortedHeading)
        && exists sorted ::
            && f.lines[1] == Line(Stdout, services.pretty(sorted))
            && StrictlySorted(sorted)
            && ToMap(sorted) == ToMap(es)
      case Some(_) => f == Finish([], Panic(UnwrapNone))
      case None => f == Finish([Line(Stdout, RawHeading), Line(Stdout, body)], Exit(0))
  {
    if !IsSuccess(response.status) then
      Finish([Line(Stderr, "Error: Request failed with status code: " + Decimal(response.status as nat) + ".")], Exit(1))
    else
      var body := if response.text.Some? then response.text.value else "";
      match services.parseJson(body)
      case Some(json) =>
        if json.Object? then
          var sorted := SortedEntries(json.entries);
          SortedEntriesSpec(json.entries);
          Finish([Line(Stdout, SortedHeading), Line(Stdout, services.pretty(sorted))], Exit(0))
        else
          Finish([], Panic(UnwrapNone))
      case None =>
        Finish([Line(Stdout, RawHeading), Line(Stdout, body)], Exit(0))
  }

  /** `handle_request_error`: a connect error gets the fixed message, any
      other error its own text; both exit with 1. */
  function RequestError(t: Transport): (f: Finish)
    requires !t.Received?
    ensures f.end == Exit(1)
    ensures |f.lines| == 1 && f.lines[0].stream == Stderr
    ensures t.ConnectError? ==> f.lines[0].text == ConnectMessage
    ensures t.OtherError? ==> f.lines[0].text == "Error: Request failed. " + t.detail
  {
    if t.ConnectError? then Finish([Line(Stderr, ConnectMessage)], Exit(1))
    else Finish([Line(Stderr, "Error: Request failed. " + t.detail)], Exit(1))
  }

  /** Send the request and handle what comes back. */
  function Exchange(request: Request, services: Services): (f: Finish)
    ensures services.send(request).Received? ==> f == PrintResponse(services.send(request).response, services)
    ensures !services.send(request).Received? ==> f == RequestError(services.send(request))
    ensures f.end == Exit(0) ==> services.send(request).Received? && IsSuccess(services.send(request).response.status)
  {
    match services.send(request)
    case Received(response) => PrintResponse(response, services)
    case ConnectError => RequestError(ConnectError)
    case OtherError(detail) => RequestError(OtherError(detail))
  }

  /** The first two lines every handler prints: the parsed URL as it
      serializes, not the text given on the command line, and the verb. */
  function TraceLines(url: Url, verb: string): (lines: seq<Line>)
    ensures |lines| == 2 && lines[0].stream == lines[1].stream == Stdout
    ensures StartsWith(lines[0].text, "Requesting URL: ") && lines[0].text[16..] == url.serialization
    ensures StartsWith(lines[1].text, "Method: ") && lines[1].text[8..] == verb
  {
    [Line(Stdout, "Requesting URL: " + url.serialization), Line(Stdout, "Method: " + verb)]
  }

  // ---------------------------------------------------------------------
  // The three handlers
  // ---------------------------------------------------------------------

  /** The run ended normally only after the request went out and a 2xx
      response came back. */
  predicate ZeroMeansSuccess(r: Report, services: Services) {
    r.end == Exit(0) ==>
      && r.sent.Some?
      && services.send(r.sent.value).Received?
      && IsSuccess(services.send(r.sent.value).response.status)
  }

  /** `handle_get`: a body-less GET. */
  function HandleGet(url: Url, services: Services): (r: Report)
    ensures r.sent == Some(Request(Get, url, [], NoBody))
    ensures |r.lines| >= 2 && r.lines[..2] == TraceLines(url, "GET")
    ensures r.lines == TraceLines(url, "GET") + Exchange(r.sent.value, services).lines
    ensures r.end == Exchange(r.sent.value, services).end
    ensures ZeroMeansSuccess(r, services)
  {
    var request := Request(Get, url, [], NoBody);
    var f := Exchange(request, services);
    Report(TraceLines(url, "GET") + f.lines, Some(request), f.end)
  }

  /** `handle_post_data`: a POST whose form is the pairs split out of `data`. */
  function HandlePostData(url: Url, data: string, services: Services): (r: Report)
    ensures r.sent == Some(Request(Post, url, [], Form(FormPairs(data))))
    ensures |r.lines| >= 3 && r.lines[..3] == TraceLines(url, "POST") + [Line(Stdout, "Data: " + data)]
    ensures r.lines == TraceLines(url, "POST") + [Line(Stdout, "Data: " + data)] + Exchange(r.sent.value, services).lines
    ensures r.end == Exchange(r.sent.value, services).end
    ensures ZeroMeansSuccess(r, services)
  {
    var request := Request(Post, url, [], Form(FormPairs(data)));
    var f := Exchange(request, services);
    Report(TraceLines(url, "POST") + [Line(Stdout, "Data: " + data)] + f.lines, Some(request), f.end)
  }

  /** `handle_post_json`: the payload is parsed before any request is built;
      an unparsable payload panics in `expect` and nothing is sent. */
  function HandlePostJson(url: Url, json: string, services: Services): (r: Report)
    ensures r.sent.Some? <==> services.parseJson(json).Some?
    ensures r.sent.None? ==> r.end == Panic(InvalidJson)
    ensures r.sent.Some? ==>
      r.sent.value == Request(Post, url, [JsonHeader], Json(services.parseJson(json).value))
    ensures |r.lines| >= 3 && r.lines[..3] == TraceLines(url, "POST") + [Line(Stdout, "JSON: " + json)]
    ensures r.sent.None? ==> r.lines == TraceLines(url, "POST") + [Line(Stdout, "JSON: " + json)]
    ensures r.sent.Some? ==>
      && r.lines == TraceLines(url, "POST") + [Line(Stdout, "JSON: " + json)] + Exchange(r.sent.value, services).lines
      && r.end == Exchange(r.sent.value, services).end
    ensures ZeroMeansSuccess(r, services)
  {
    var trace := TraceLines(url, "POST") + [Line(Stdout, "JSON: " + json)];
    match services.parseJson(json)
    case None => Report(trace, None, Panic(InvalidJson))
    case Some(value) =>
      var request := Request(Post, url, [JsonHeader], Json(value));
      var f := Exchange(request, services);
      Report(trace + f.lines, Some(request), f.end)
  }
}
