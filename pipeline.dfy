/** `main`: three validation stages in a fixed order (the base protocol, the
    host and port, the URL parse), each printing the input URL, `Method: GET`
    and the error to standard output and exiting with 1 on failure; then
    the choice between a JSON POST, a form POST and a GET. */
module Pipeline {
  import opened Text
  import opened Validators
  import opened JsonModel
  import opened Handlers

  /** The command line, as the argument parser hands it over. */
  datatype Cli = Cli(url: string, methodName: Option<string>, data: Option<string>, json: Option<string>)

  /** What the argument parser lets through: `--json` conflicts with both
      `--data` and `--method`. */
  function ArgsAccepted(args: Cli): (ok: bool)
    ensures ok ==> !(args.json.Some? && args.data.Some?)
    ensures ok ==> !(args.json.Some? && args.methodName.Some?)
    ensures args.json.None? ==> ok
    ensures args.json.Some? && args.data.None? && args.methodName.None? ==> ok
  {
    args.json.Some? ==> args.data.None? && args.methodName.None?
  }

  /** The literal, case-sensitive prefix test of the first stage. It accepts
      exactly the URLs at whose start the validator's pattern finds its
      scheme. */
  function HasBaseProtocol(url: string): (ok: bool)
    ensures ok <==> SchemeLength(url, 0) > 0
  {
    assert url[0..] == url;
    StartsWith(url, "http://") || StartsWith(url, "https://")
  }

  const ProtocolMessage := "The URL does not have a valid base protocol."
  const UnparsableMessage := "The URL could not be parsed."
  const MissingDataMessage := "Error: POST method requires data."

  /** Where `main` goes. */
  datatype Decision =
    | Rejected(message: string)
    | MissingData
    | SendJson(url: Url, json: string)
    | SendForm(url: Url, data: string)
    | SendGet(url: Url)

  /** All three validation stages pass, so a handler (or the missing-data
      error) is reached. */
  predicate StagesPass(args: Cli, ipv6Parses: string -> bool, parseUrl: string -> Option<Url>) {
    HasBaseProtocol(args.url) && Validate(args.url, ipv6Parses) == Valid && parseUrl(args.url).Some?
  }

  /** The stages and the dispatch of `main`, with `Ipv6Addr::from_str` and
      `Url::parse` given as parameters. The first stage that fails decides
      the message; `--json` wins the dispatch, then `-X POST` with `--data`;
      any method other than exactly `POST` is a GET, and `--data` is then
      ignored. */
  function Decide(args: Cli, ipv6Parses: string -> bool, parseUrl: string -> Option<Url>): (d: Decision)
    requires ArgsAccepted(args)
    ensures !HasBaseProtocol(args.url) ==> d == Rejected(ProtocolMessage)
    ensures HasBaseProtocol(args.url) && Validate(args.url, ipv6Parses).Invalid? ==>
      d == Rejected(Message(Validate(args.url, ipv6Parses).error))
    ensures HasBaseProtocol(args.url) && Validate(args.url, ipv6Parses) == Valid && parseUrl(args.url).None? ==>
      d == Rejected(UnparsableMessage)
    ensures !d.Rejected? <==> StagesPass(args, ipv6Parses, parseUrl)
    ensures d.SendJson? <==> StagesPass(args, ipv6Parses, parseUrl) && args.json.Some?
    ensures d.SendForm? <==>
      StagesPass(args, ipv6Parses, parseUrl) && args.json.None? && args.methodName == Some("POST") && args.data.Some?
    ensures d.MissingData? <==>
      StagesPass(args, ipv6Parses, parseUrl) && args.json.None? && args.methodName == Some("POST") && args.data.None?
    ensures d.SendGet? <==>
      StagesPass(args, ipv6Parses, parseUrl) && args.json.None? && args.methodName != Some("POST")
    ensures d.SendJson? ==> d.json == args.json.value
    ensures d.SendForm? ==> d.data == args.data.value
    ensures (d.SendJson? || d.SendForm? || d.SendGet?) ==> d.url == parseUrl(args.url).value
  {
    if !HasBaseProtocol(args.url) then Rejected(ProtocolMessage)
    else
      match Validate(args.url, ipv6Parses)
      case Invalid(e) => Rejected(Message(e))
      case Valid =>
        match parseUrl(args.url)
        case None => Rejected(UnparsableMessage)
        case Some(url) =>
          if args.json.Some? then SendJson(url, args.json.value)
          else if args.methodName == Some("POST") then
            if args.data.Some? then SendForm(url, args.data.value) else MissingData
          else SendGet(url)
  }

  /** `print_error`: the raw input URL, `Method: GET` whatever the method,
      and the message, all on standard output. */
  function PrintError(url: string, message: string): (lines: seq<Line>)
    ensures |lines| == 3 && forall i :: 0 <= i < 3 ==> lines[i].stream == Stdout
    ensures lines[0].text == "Requesting URL: " + url
    ensures lines[1].text == "Method: GET"
    ensures lines[2].text == "Error: " + message
  {
    [ Line(Stdout, "Requesting URL: " + url),
      Line(Stdout, "Method: GET"),
      Line(Stdout, "Error: " + message) ]
  }

  /** One run of the program. No request is sent unless all three stages
      passed; the request sent carries the parsed URL and the body the
      dispatch chose; and the run exits with 0 only after a 2xx response. */
  function Run(args: Cli, ipv6Parses: string -> bool, parseUrl: string -> Option<Url>, services: Services): (r: Report)
    requires ArgsAccepted(args)
    ensures r.sent.Some? ==> StagesPass(args, ipv6Parses, parseUrl)
    ensures r.sent.Some? ==> r.sent.value.url == parseUrl(args.url).value
    ensures !StagesPass(args, ipv6Parses, parseUrl) ==>
      r.sent.None? && r.end == Exit(1) && r.lines == PrintError(args.url, Decide(args, ipv6Parses, parseUrl).message)
    ensures r.sent.Some? && args.json.Some? ==>
      && services.parseJson(args.json.value).Some?
      && r.sent.value.verb == Post
      && r.sent.value.headers == [JsonHeader]
      && r.sent.value.body == Json(services.parseJson(args.json.value).value)
    ensures r.sent.Some? && args.json.None? && args.methodName == Some("POST") ==>
      && args.data.Some?
      && r.sent.value.verb == Post
      && r.sent.value.headers == []
      && r.sent.value.body == Form(FormPairs(args.data.value))
    ensures r.sent.Some? && args.methodName != Some("POST") && args.json.None? ==>
      r.sent.value == Request(Get, r.sent.value.url, [], NoBody)
    ensures StagesPass(args, ipv6Parses, parseUrl) && args.json.Some? ==>
      (r.sent.None? <==> services.parseJson(args.json.value).None?)
    ensures StagesPass(args, ipv6Parses, parseUrl) && args.json.None? && args.methodName == Some("POST") && args.data.None? ==>
      r == Report([Line(Stderr, MissingDataMessage)], None, Exit(1))
    ensures ZeroMeansSuccess(r, services)
    ensures StagesPass(args, ipv6Parses, parseUrl) && args.json.None? && !(args.methodName == Some("POST") && args.data.None?) ==>
      r.sent.Some?
    ensures r.sent.Some? ==> r.end == Exchange(r.sent.value, services).end
    ensures StagesPass(args, ipv6Parses, parseUrl) && args.json.None? && args.methodName != Some("POST") ==>
      var request := Request(Get, parseUrl(args.url).value, [], NoBody);
      r == Report(TraceLines(request.url, "GET") + Exchange(request, services).lines, Some(request), Exchange(request, services).end)
    ensures StagesPass(args, ipv6Parses, parseUrl) && args.json.None? && args.methodName == Some("POST") && args.data.Some? ==>
      var request := Request(Post, parseUrl(args.url).value, [], Form(FormPairs(args.data.value)));
      r == Report(
        TraceLines(request.url, "POST") + [Line(Stdout, "Data: " + args.data.value)] + Exchange(request, services).lines,
        Some(request), Exchange(request, services).end)
    ensures StagesPass(args, ipv6Parses, parseUrl) && args.json.Some? ==>
      var trace := TraceLines(parseUrl(args.url).value, "POST") + [Line(Stdout, "JSON: " + args.json.value)];
      if r.sent.Some? then r.lines == trace + Exchange(r.sent.value, services).lines
      else r == Report(trace, None, Panic(InvalidJson))
  {
    match Decide(args, ipv6Parses, parseUrl)
    case Rejected(message) => Report(PrintError(args.url, message), None, Exit(1))
    case MissingData => Report([Line(Stderr, MissingDataMessage)], None, Exit(1))
    case SendJson(url, json) => HandlePostJson(url, json, services)
    case SendForm(url, data) => HandlePostData(url, data, services)
    case SendGet(url) => HandleGet(url, services)
  }

  /** A failing stage settles the run: later stages are not consulted, so
      their outcome cannot change it. */
  lemma FailedStageStopsRun(
    args: Cli,
    ipv6Parses: string -> bool, ipv6Parses': string -> bool,
    parseUrl: string -> Option<Url>, parseUrl': string -> Option<Url>,
    services: Services, services': Services)
    requires ArgsAccepted(args)
    ensures !HasBaseProtocol(args.url) ==>
      Run(args, ipv6Parses, parseUrl, services) == Run(args, ipv6Parses', parseUrl', services')
    ensures HasBaseProtocol(args.url) && Validate(args.url, ipv6Parses).Invalid? ==>
      Run(args, ipv6Parses, parseUrl, services) == Run(args, ipv6Parses, parseUrl', services')
  {
  }
}

/** Concrete runs of `main`. */
module PipelineExamples {
  import opened Text
  import opened Validators
  import opened ValidatorExamples
  import opened Handlers
  import opened Pipeline

  /** A port past 65535 is reported before the URL is parsed, and nothing is
      sent, whatever the URL parser and the transport would have done. */
  lemma PortOverflowRun(args: Cli, ipv6Parses: string -> bool, parseUrl: string -> Option<Url>, services: Services)
    requires args.url == "http://example.com:65536" && args.json.None?
    ensures Run(args, ipv6Parses, parseUrl, services) ==
      Report(PrintError(args.url, "The URL contains an invalid port number."), None, Exit(1))
  {
    PortOverflowFails(args.url, ipv6Parses);
    ProtocolOf(args.url);
  }

  lemma ProtocolOf(url: string)
    requires url == "http://example.com:65536"
    ensures HasBaseProtocol(url)
  {
    assert url[..7] == "http://";
  }

  /** The method test is exact: `-X post` takes the GET path, and `--data`
      is then ignored. */
  lemma LowercasePostIsGet(args: Cli, ipv6Parses: string -> bool, parseUrl: string -> Option<Url>, services: Services)
    requires StagesPass(args, ipv6Parses, parseUrl)
    requires args.methodName == Some("post") && args.data.Some? && args.json.None?
    ensures Run(args, ipv6Parses, parseUrl, services).sent == Some(Request(Get, parseUrl(args.url).value, [], NoBody))
  {
    assert "post" != "POST" by {
      assert "post"[0] != "POST"[0];
    }
  }
}
