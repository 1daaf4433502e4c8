# curl-plus, modelled in Dafny

curl-plus is a small command-line HTTP client. It takes a URL, an optional
`-X` method, optional `--data` form pairs or an optional `--json` payload.
It sends one request and prints the response. This project models the part
of the program that decides things:

- **The URL validator** (`validate_ip_and_port`). It finds the host and the
  port with the pattern `https?://(\[.*?\]|[^:/]+)(?::(\d+))?`. It checks a
  bracketed host whose interior holds only hex digits, `:`, `.` and `%`
  against the IPv6 parser, and a dotted quad of four groups of one to three
  digits against the IPv4 parser. Any other host (a name, `[zzz]`, `1.2.3`)
  is not checked. It checks a captured port against the `u16` range. The pattern
  search is written out by hand: leftmost match, lazy `.*?`, greedy
  `[^:/]+`. The IPv4 parser and the `u16` parser are written out too.
- **The pipeline of `main`.** Three stages run in a fixed order: the base
  protocol, the validator, and the URL parse. Each stage reports its error
  with `print_error` and exits with 1. After that, `main` dispatches: `--json`
  first, then `-X POST` with `--data`, and a GET otherwise.
- **The handlers.** `--data` is split into form pairs. A JSON payload is
  parsed before any request is built. A response is rendered only when its
  status is 2xx, and a JSON object is re-ordered by key. Transport errors
  are classified.

Printing and `process::exit` become a returned value: the lines printed with
their stream, the request handed to the transport (if one was), and the way
the process ends (`Exit(code)` or `Panic(message)`). The code the model does
not look into is passed in as function parameters:

- `Ipv6Addr::from_str`;
- `Url::parse`;
- `serde_json::from_str`;
- `serde_json::to_string_pretty`;
- the HTTP transport.

The files:

- `text.dfy` (module `Text`): splitting on one character, decimal numerals,
  and the string order that `BTreeMap<String, _>` uses.
- `validators.dfy` (modules `Validators` and `ValidatorExamples`): the
  validator.
- `json.dfy` (module `JsonModel`): JSON values, and collecting an object's
  entries into a `BTreeMap`.
- `handlers.dfy` (module `Handlers`): the handlers.
- `examples.dfy` (module `HandlerExamples`): concrete handler runs.
- `pipeline.dfy` (modules `Pipeline` and `PipelineExamples`): `main`.

Where the documented behaviour and the code differ, the model follows the
code:

- **Stage errors go to standard output.** The protocol, host, port and
  URL-parse errors are written by `print_error` with `println!`, so they go
  to standard output, not standard error.
- **Non-object JSON bodies panic.** A 2xx body that parses as JSON but is
  not an object (an array, a number, ...) does not fall back to raw text. It
  reaches `as_object().unwrap()` and panics.
- **An invalid `--json` payload panics.** It ends in the panic of `expect`
  ("Invalid JSON"), not in `exit(1)`. Nothing is sent in either case.
- **Every 2xx status is a success,** as `is_success` defines it.
- **Only a four-group dotted quad is checked as IPv4.** A host such as
  `1.2.3` does not match the IPv4 pattern, so it passes unchecked like a
  host name. `ValidatorExamples.ThreeGroupsPass` shows this.

## Model

| member | source | states |
|---|---|---|
| Text.Split | src/handlers.rs:24 | `str::split` on one character: at least one piece, and no piece contains the separator |
| Text.SplitJoin | src/handlers.rs:24 | splitting loses nothing: joining the pieces with the separator gives back the input |
| Text.SplitCount | src/handlers.rs:24 | there is one more piece than there are separators |
| Text.JoinSplit | src/handlers.rs:26 | splitting undoes joining when no piece contains the separator |
| Text.IndexOf | src/handlers.rs:26 | the first occurrence: the separator is at the index found and nowhere before it |
| Text.Decimal | src/handlers.rs:65 | the status code as `{}` prints a `u16`: digits only, with a leading zero only for zero |
| Text.DecimalRoundTrip | src/handlers.rs:65 | reading back the printed status code gives the code |
| Text.Less | src/handlers.rs:72 | the order `Ord for String` gives the `BTreeMap`'s keys: a proper prefix comes before the longer key; `Text.LessIrreflexive`, `Text.LessTransitive` and `Text.LessTotal` make it a strict total order |
| Text.LessIrreflexive | src/handlers.rs:72 | the key order of the `BTreeMap` is irreflexive |
| Text.LessTransitive | src/handlers.rs:72 | the key order is transitive |
| Text.LessTotal | src/handlers.rs:72 | the key order is total: two distinct keys are ordered one way or the other |
| JsonModel.Insert | src/handlers.rs:72 | inserting one entry into the sorted entries adds at most one entry and puts the inserted entry or the old greatest entry last |
| JsonModel.InsertKeepsSorted | src/handlers.rs:72 | insertion keeps the keys strictly ascending |
| JsonModel.InsertUpdatesMap | src/handlers.rs:72 | insertion updates the key-to-value map at the inserted key, so a repeated key takes the new value |
| JsonModel.SortedEntries | src/handlers.rs:72 | `collect` into a `BTreeMap`, one insertion per entry in order: no more entries than given, and at least one for a non-empty object; `JsonModel.SortedEntriesSpec` states its order and its map |
| JsonModel.SortedEntriesSpec | src/handlers.rs:72 | collecting an object's entries yields strictly ascending keys and the same key-to-value map, later entries winning |
| JsonModel.ToMapKeys | src/handlers.rs:72 | the collected map has exactly the keys that occur among the entries |
| JsonModel.SortedPairwise | src/handlers.rs:72-74 | in the sorted entries every key is below every later key, so the pretty printer sees each key once and in order |
| JsonModel.SortedEntriesAreTheMap | src/handlers.rs:72-74 | each sorted entry is the map's value for its key |
| Handlers.FormPair | src/handlers.rs:25-28 | a piece's key and value hold no `=`; a piece without `=` is the key with an empty value; otherwise the piece starts with key `=` value, followed by its end or a second `=` |
| Handlers.FormPairs | src/handlers.rs:23-29 | `--data` gives one pair per `&`-separated piece, in order, one more pair than there are `&`; pair k is `FormPair` of the k-th piece |
| Handlers.FormRoundTrip | src/handlers.rs:23-29 | pairs whose keys and values hold no `&` or `=`, written as `k=v&...`, split back into the same pairs |
| Handlers.FormPairOfJoined | src/handlers.rs:26-27 | a piece `k=v` with no other `=` gives back `(k, v)` |
| Handlers.FormRoundTripData | src/handlers.rs:23-29 | when every piece holds exactly one `=`, writing the split pairs back out gives the `--data` text |
| Handlers.OneEquals | src/handlers.rs:26-27 | a piece with exactly one `=` is its key, `=`, and its value |
| Handlers.IsSuccess | src/handlers.rs:64 | `is_success`: the status's hundreds digit is 2 |
| Handlers.PrintResponse | src/handlers.rs:62-80 | exit 1 exactly for a status outside 2xx, with the status line on standard error; a JSON object body prints the sorted heading and its entries in strictly ascending key order with the same map; any other JSON value panics in `unwrap`; a non-JSON body (empty when unreadable) prints as it is |
| Handlers.RequestError | src/handlers.rs:83-90 | a connect error prints the fixed message and any other error its own text, one line on standard error, then exit 1 |
| Handlers.Exchange | src/handlers.rs:11-14 | a response goes to `PrintResponse` and a transport error to `RequestError`; the run ends with exit 0 only when the transport returned a response with a 2xx status |
| Handlers.TraceLines | src/handlers.rs:8-9 | two lines on standard output: `Requesting URL: ` and the parsed URL's serialization, then `Method: ` and the verb |
| Handlers.HandleGet | src/handlers.rs:7-15 | prints the URL and `Method: GET`, sends a body-less GET to the parsed URL, then prints and ends as `Exchange` of that request does; exit 0 only after a 2xx response |
| Handlers.HandlePostData | src/handlers.rs:18-35 | prints the URL, `Method: POST` and the data, sends a POST to the parsed URL with no extra headers and the form `FormPairs(data)`, then prints and ends as `Exchange` of that request does; exit 0 only after a 2xx response |
| Handlers.HandlePostJson | src/handlers.rs:38-59 | prints the trace and the payload; a request is sent exactly when the payload parses; otherwise the run panics with "Invalid JSON" after the trace and nothing is sent; the request carries the JSON content type and the parsed value, and the run then prints and ends as `Exchange` of it does |
| Validators.Message | src/validators.rs:26-39 | each error's text begins `The URL contains an invalid ` |
| Validators.MessageNamesError | src/validators.rs:26-39 | the three error texts are distinct, so the printed message names the error |
| Validators.SchemeLength | src/validators.rs:14 | `https?://` matches with length 8, 7, or not at all |
| Validators.CloseBracket | src/validators.rs:14 | the lazy `\[.*?\]` stops at the first `]`, and fails when a line feed comes first |
| Validators.RunEnd | src/validators.rs:14 | the greedy `[^:/]+` runs up to the first `:` or `/` or the end |
| Validators.DigitsEnd | src/validators.rs:14 | the greedy `\d+` of the port runs up to the first non-digit |
| Validators.HostEnd | src/validators.rs:14 | group 1 at a position is the bracketed host when one matches there, and otherwise the maximal run without `:` or `/`; it is empty exactly when the text there is empty or starts with `:` or `/` |
| Validators.PlainHostUnique | src/validators.rs:14 | the greedy host run has a single possible end |
| Validators.PortAt | src/validators.rs:14 | group 2 participates exactly when `:` and a digit follow the host; it is then all the digits that follow |
| Validators.MatchAt | src/validators.rs:14 | a match found at one position has a non-empty host, and a port that is non-empty and all digits |
| Validators.MatchAtCaptures | src/validators.rs:14 | the pattern matches at a position exactly when `https?://` does and a non-empty host follows; group 1 is then the host up to `HostEnd`, and group 2 is the port `PortAt` finds after it |
| Validators.Search | src/validators.rs:15 | the search from a given position; a port it captures is non-empty and all digits; `Validators.SearchNone` and `Validators.SearchLeftmost` state which match it returns |
| Validators.FirstHitNone | src/validators.rs:15 | a leftmost search over positions finds nothing exactly when nothing is found at any position |
| Validators.FirstHitLeftmost | src/validators.rs:15 | a leftmost search returns the result at a position before which nothing was found |
| Validators.SearchIsFirstHit | src/validators.rs:15 | the pattern search is the leftmost search over the positions of the URL |
| Validators.SearchNone | src/validators.rs:15 | `captures` finds nothing exactly when the pattern matches at no position |
| Validators.SearchLeftmost | src/validators.rs:15 | a match `captures` returns is the match at the leftmost position where the pattern matches |
| Validators.FindCaptures | src/validators.rs:15-16 | the captures of the whole URL (the search from position 0, whose result `Validators.SearchNone` and `Validators.SearchLeftmost` state); a captured port is all digits |
| Validators.BracketedHostCaptured | src/validators.rs:14-16 | in a URL that starts with the scheme, a bracketed host is group 1 and the following digits are group 2 |
| Validators.PlainHostCaptured | src/validators.rs:14-16 | in a URL that starts with the scheme, the host run is group 1 when no bracketed host matches |
| Validators.NoHostAfterScheme | src/validators.rs:14-15 | when no host follows the leading scheme, the search moves on to later positions |
| Validators.PlainHostUrl | src/validators.rs:14-16 | `scheme + host + rest`, where the host has no `:`, `/` or leading `[`, captures exactly that host |
| Validators.BracketHostUrl | src/validators.rs:14-16 | `scheme + [inner] + rest`, with no `]` or line feed inside, captures the bracketed host, brackets included |
| Validators.PortToEnd | src/validators.rs:14 | a `:` followed by digits up to the end captures all of those digits |
| Validators.Interior | src/validators.rs:24 | the text between the brackets: the host is its first character, the result, and its last character |
| Validators.Ipv6Shape | src/validators.rs:18 | the IPv6 pattern; a host it matches never matches the IPv4 pattern, so at most one address check runs |
| Validators.Ipv4Shape | src/validators.rs:19 | the IPv4 pattern; a host it matches is 7 to 15 characters long |
| Validators.Ipv4ShapeStartsWithDigit | src/validators.rs:18-19 | a host the IPv4 pattern matches starts with a digit, so it never matches the IPv6 pattern |
| Validators.NonDigitStartNotIpv4 | src/validators.rs:19 | a host that does not start with a digit does not match the IPv4 pattern |
| Validators.NotThreeDotsNotIpv4 | src/validators.rs:19 | a host without exactly three dots does not match the IPv4 pattern |
| Validators.DottedQuad | src/validators.rs:19 | four groups of one to three digits, joined by dots, match the IPv4 pattern and split back into themselves |
| Validators.Ipv4ShapeIsDottedQuad | src/validators.rs:19 | a host the IPv4 pattern matches is four groups of one to three digits joined by dots; with `Validators.DottedQuad` the pattern matches exactly such hosts |
| Validators.OctetParses | src/validators.rs:30 | one octet as `Ipv4Addr::from_str` reads it; an accepted group is exactly the numeral `Display` prints for its value |
| Validators.Ipv4Parses | src/validators.rs:30 | `Ipv4Addr::from_str` accepts a host exactly when it matches the IPv4 pattern and no group is above 255 or zero-padded |
| Validators.ParseU16 | src/validators.rs:38 | `u16::from_str`: a parsed value is at most 65535; `Validators.ParseU16Value` gives the value on digits |
| Validators.ParseU16From | src/validators.rs:38 | checked accumulation only grows the running value and, started within range, ends within 65535 |
| Validators.PrefixValueBelow | src/validators.rs:38 | a leading part of a numeral has a value no larger than the whole numeral |
| Validators.ParseU16FromValue | src/validators.rs:38 | checked accumulation from a prefix within range yields the numeral's value exactly when it is at most 65535 |
| Validators.ParseU16Value | src/validators.rs:38 | `u16::from_str` on digits succeeds exactly when the value is at most 65535, leading zeros included |
| Validators.CheckPort | src/validators.rs:35-41 | an absent port passes; a captured port fails exactly when its value exceeds 65535 |
| Validators.Validate | src/validators.rs:7-44 | no match passes; the IPv6 error exactly for a bracketed hex host the IPv6 parser rejects; the IPv4 error exactly for a dotted quad the IPv4 parser rejects; the port error exactly when the host checks passed and the port exceeds 65535 |
| Validators.Ipv4Verdict | src/validators.rs:28-41 | on a dotted quad, a group above 255 or zero-padded gives the IPv4 error ahead of any port error; otherwise the port decides |
| Validators.Ipv6Verdict | src/validators.rs:22-41 | on a bracketed hex host, a rejected interior gives the IPv6 error ahead of any port error; otherwise the port decides |
| Validators.UncheckedHostVerdict | src/validators.rs:21-41 | any other host is not checked, and only the port decides |
| ValidatorExamples.QuadCaptured | src/validators.rs:14-16 | `http://999.999.999.999` captures the whole quad and no port |
| ValidatorExamples.QuadShape | src/validators.rs:19 | `999.999.999.999` matches the IPv4 pattern, and its first group is 999 |
| ValidatorExamples.OutOfRangeQuad | src/validators.rs:28-32 | `http://999.999.999.999` is rejected as an invalid IPv4 address |
| ValidatorExamples.MaxPortPasses | src/validators.rs:36-41 | port 65535 passes |
| ValidatorExamples.PortOverflowFails | src/validators.rs:36-41 | port 65536 fails as an invalid port number |
| ValidatorExamples.PaddedPortPasses | src/validators.rs:36-41 | port `0080` passes |
| ValidatorExamples.NamedHostCaptured | src/validators.rs:14-16 | `http://example.com:` followed by digits captures the name and the digits |
| ValidatorExamples.NamedHostWithPort | src/validators.rs:36-41 | for a named host, only the port's value against 65535 decides |
| ValidatorExamples.HostErrorWins | src/validators.rs:28-41 | `http://999.999.999.999:99999` reports the IPv4 error, not the port error |
| ValidatorExamples.ThreeGroupsPass | src/validators.rs:19-33 | `http://1.2.3` passes: three groups are not checked as IPv4 |
| ValidatorExamples.FiveGroupsCaptured | src/validators.rs:14-16 | `http://1.2.3.4.5` captures all five groups as the host |
| ValidatorExamples.FiveGroupsNotIpv4 | src/validators.rs:19 | five groups do not match the IPv4 pattern |
| ValidatorExamples.FiveGroupsPass | src/validators.rs:19-33 | `http://1.2.3.4.5` passes unchecked |
| ValidatorExamples.BracketCaptured | src/validators.rs:14-16 | `http://[inner]` captures the bracketed host |
| ValidatorExamples.ZoneIdSkipsIpv6Check | src/validators.rs:18-27 | `[fe80::1%eth0]` is not all hex, so it skips the IPv6 check and passes |
| ValidatorExamples.ZoneIdNeitherShape | src/validators.rs:18-19 | `[fe80::1%eth0]` can be captured whole (no `]` or line feed inside) and matches neither the IPv6 nor the IPv4 pattern |
| ValidatorExamples.NonHexBracketPasses | src/validators.rs:18-27 | `[zzz]` skips the IPv6 check and passes |
| ValidatorExamples.NonHexNeitherShape | src/validators.rs:18-19 | `[zzz]` can be captured whole and matches neither the IPv6 nor the IPv4 pattern |
| ValidatorExamples.NonDigitPortIgnored | src/validators.rs:14 | `:abc` is not captured as a port, so `http://example.com:abc` passes |
| HandlerExamples.TwoPairs | src/handlers.rs:23-29 | `a=1&b=2` is the form `[(a, 1), (b, 2)]` |
| HandlerExamples.BareKey | src/handlers.rs:27 | `flag` is the key `flag` with an empty value |
| HandlerExamples.EmptyData | src/handlers.rs:23-29 | empty `--data` is the single pair `("", "")` |
| HandlerExamples.SecondEqualsDropsRest | src/handlers.rs:26-27 | `a=b=c` gives `(a, b)`: the rest after the second `=` is dropped |
| HandlerExamples.ReorderAndOverwrite | src/handlers.rs:72 | entries `b, a, b` come out as `a`, then `b` with its later value |
| HandlerExamples.NotFoundLine | src/handlers.rs:64-66 | a 404 prints `Error: Request failed with status code: 404.` on standard error and exits with 1 |
| Pipeline.ArgsAccepted | src/cli.rs:11 | `--json` is never accepted together with `--data` or `--method`; `--json` alone is accepted, and without `--json` every combination is accepted |
| Pipeline.HasBaseProtocol | src/main.rs:23 | the literal prefix test accepts a URL exactly when the validator's `https?://` matches at its start |
| Pipeline.Decide | src/main.rs:22-59 | the first failing stage decides the message (protocol, then the validator's message, then the URL parse); a handler is reached exactly when all three stages pass; `--json` wins; a form POST needs the exact method `POST` and `--data`; `POST` without data is the missing-data error; any other method is a GET |
| Pipeline.PrintError | src/main.rs:11-15 | three lines on standard output: `Requesting URL: ` and the raw input URL, `Method: GET` whatever the method, and `Error: ` and the message |
| Pipeline.Run | src/main.rs:18-60 | nothing is sent unless all stages pass; a failed stage prints the input URL, `Method: GET` and the error, then exits with 1; once the stages pass, a GET or a form POST is always sent, and a JSON POST exactly when the payload parses; the request goes to the parsed URL with the body the dispatch chose, the JSON content type on a JSON POST and no extra header on a form POST; any method other than `POST` sends a body-less GET; after a send the output and the ending are the trace followed by `Exchange` of the request; exit 0 only after a 2xx response |
| Pipeline.FailedStageStopsRun | src/main.rs:23-32 | a failed protocol or validator stage decides the run, whatever the later stages would have done |
| PipelineExamples.PortOverflowRun | src/main.rs:28-32 | `http://example.com:65536` prints the port error through `print_error`, exits with 1 and sends nothing |
| PipelineExamples.LowercasePostIsGet | src/main.rs:48-58 | `-X post` with `--data` sends a body-less GET: the method test is exact |
| PipelineExamples.ProtocolOf | src/main.rs:23 | `http://example.com:65536` passes the protocol stage |

## Left out

- The HTTP transport (`reqwest`, `tokio`, TLS, redirects, timeouts) is a parameter `send` from request to response or error. Only the request handed to it is modelled, not its encoding on the wire.
- `.form()` URL-encodes the pairs, and `.json()` re-serializes the value. The model keeps the pairs and the parsed value as they are.
- `serde_json::from_str`, `serde_json::to_string_pretty`, `Url::parse` and `Ipv6Addr::from_str` are parameters, so their own grammars are not modelled.
- The pretty printer's output, and the key order of nested objects, are whatever the `pretty` parameter gives. Only the top-level reordering is modelled.
- Panics are modelled as a `Panic(message)` end. The exit code 101 and the panic's text on standard error are left out, as is the failure path of `to_string_pretty(...).unwrap()`, which cannot fail for a map of JSON values.
- Validators.Ipv4Shape: `\d` in `^\d{1,3}(\.\d{1,3}){3}$` is read as ASCII digits. The regex crate's `\d` is Unicode, so a dotted quad of other decimal digits matches in the program and then fails `Ipv4Addr::from_str` with the IPv4 error, where the model lets the URL pass.
- Validators.ParseU16: the sign `+` that `u16::from_str` accepts in front of the digits is not modelled, because the port group only ever captures digits.
- Validators.FindCaptures: `\d` is read as ASCII digits. The regex crate's Unicode `\d` also matches other decimal digits, which `u16::from_str` would then reject.
- Argument parsing (`StructOpt`, `--help`, unknown flags) is left out. Only the conflict of `--json` with `--data` and `--method` is kept, as the requirement of `Pipeline.Decide` and `Pipeline.Run`.
- The handler bodies are sequences of prints, an awaited send and an exit. They are modelled as functions that return the lines, the request and the ending, and the `kv` iterator's two `next()` calls as the first two pieces of the split.
- Interleaving of standard output and standard error: each line carries its stream, and the lines are kept in program order.
