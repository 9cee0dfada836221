# httpmock recorder, modelled in Dafny

This project models the recording engine of httpmock (`recorder.go`). A recorder sends
a GET to a live URL and follows the redirect chain it starts, one request at a time,
without the HTTP client following redirects itself. Each hop is recorded as a `Step`,
and the steps together form one `Sequence`. The final response's body goes to a file
whose name is built from:

- the scenario's base name,
- the number of the sequence being recorded,
- the hop number,
- an extension inferred from `Content-Type`.

The sequence is appended to the scenario, which is then saved as a JSON file and as a
URL list.

The model has five modules:

- `Wrappers`: `Option` and `Result`.
- `Urls`: `formatRedirectUrl`, the resolution of a redirect `Location` against the
  URL that was requested. URL parsing and printing are parameters (`Parser`, `Printer`)
  over a `Url(scheme, host, rest)` value.
- `Mime`: `extension`. It is the nested loop `Mime.Extension`, proved against the
  recursive specification `ExtensionOf`. That specification is built on `Longest`, the
  inner loop's strict-`>` scan. The media-type table is a parameter
  `string -> Option<seq<string>>`.
- `Scenarios`: the data model (`Response`, `Step`, `Sequence`), and the in-memory
  scenario as a class whose `sequences` field `AddSequence` extends in place.
- `Recorder`: the redirect loop and `Record`. The network is a function from the hop
  number and the URL to an outcome: a transport error with its message, or a reply
  with status and header. `Walk` is the specification of the loop. It is a recursive
  function giving the steps recorded from a hop on. `IsRecording` describes the same
  steps declaratively, hop by hop, and `RecordingIsWalk` proves the two agree.
  `RecordSequence` is the loop itself, proved against `Walk`. `RecordHop` is one pass of
  its body. `Record` wraps the loop with scenario loading, adding, saving and the URL
  list. The outcomes of these file operations are parameters (`Files`).

The loop in the code runs `redirect` from 0 to 10 inclusive (recorder.go:32): at most
eleven requests, and exactly eleven steps when every reply is a redirect whose location
resolves. `MaxRequests` is 11, and `RedirectLimit` proves that bound.

## Model

| member | source | states |
|---|---|---|
| Urls.FormatRedirectUrlCases | recorder.go:130-146 | A location that does not parse gives that error, whatever the original URL. A location with a host or a scheme is printed unchanged, and the original URL plays no part. A relative location is printed with the original URL's scheme and host and its own path part. Resolution fails exactly when the location does not parse, or when it is relative and the original does not parse. |
| Urls.Inherit | recorder.go:142-143 | The completed location keeps its own path part and takes the original's scheme and host. |
| Urls.ResolvedUrlParts | recorder.go:136-145 | Suppose the parser reads back the URL value that resolution prints. Then resolution succeeds, and the resolved URL keeps the location's path part. It takes scheme and host from the original URL when the location is relative. Otherwise it is the location itself. |
| Urls.ResolveIdempotent | recorder.go:130-146 | Suppose the parser reads back the URL value that resolution prints. Then resolving the resolved URL again against the same original gives it back. |
| Urls.RedirectExamples | recorder.go:130-146 | `/y` from `https://a.example/x` resolves to `https://a.example/y`. `https://b.example/z` is followed unchanged. |
| Mime.Extension | recorder.go:149-166 | The nested loops compute `ExtensionOf` of the header's `Content-Type` values. Scanning stops at the first value whose longest extension is non-empty. |
| Mime.LongestIsLongest | recorder.go:154-159 | No extension of the list is longer than the one the inner loop keeps. |
| Mime.LongestIsFirst | recorder.go:154-159 | When `exts[k]` is a longest extension and every earlier one is strictly shorter, the loop keeps `exts[k]`. Ties go to the earliest. |
| Mime.LongestInList | recorder.go:154-159 | The kept extension is "" or an element of the list. |
| Mime.LongestIsFirstLongest | recorder.go:154-160 | The loop keeps the first of the longest extensions. It keeps "" exactly when every extension is empty, so the list is skipped exactly then. |
| Mime.ExtensionOfDefault | recorder.go:149-166 | With no `Content-Type` value, or none whose mapping gives a non-empty extension, the result is `.data`. |
| Mime.ExtensionOfFirstUsable | recorder.go:151-163 | If value `i` is the first whose mapping has a non-empty longest extension, the result is that longest extension. |
| Mime.ExtensionOfIsKnown | recorder.go:149-166 | The result is `.data` or one of the extensions the table gives for some `Content-Type` value. |
| Mime.ExtensionExamples | recorder.go:149-166 | A type mapped to `.htm` and `.html` gives `.html`. A type mapped to no extension gives `.data`. |
| Scenarios.Scenario.constructor | recorder.go:22 | The scenario starts out holding the sequences read from its file. |
| Scenarios.Scenario.AddSequence | recorder.go:86-88 | A successful add appends exactly the given sequence, so the count grows by one. A failed add reports its error and, by assumption, leaves the scenario unchanged (see Left out). |
| Recorder.Decimal | recorder.go:71 | `%d` of a natural number is a non-empty string of decimal digits. |
| Recorder.DecimalRoundTrip | recorder.go:71 | Reading back the digits `Decimal` writes gives the number. |
| Recorder.DecimalNoLeadingZero | recorder.go:71 | The first digit is `0` exactly when the number is zero, so no leading zero is written, as `%d` writes none. |
| Recorder.StepForUrl | recorder.go:36-83 | The step a hop records carries the URL the hop requested. |
| Recorder.RecordHop | recorder.go:33-83 | One pass of the loop body returns the step `StepFor` calls for and the next URL `NextUrl` calls for. A transport error gives an error step. A 3xx gives a GET step with no body file, and moves on when its `Location` resolves. Any other status gives a GET step whose body-file name is built from the base name, sequence number, hop number and extension. |
| Recorder.RecordSequence | recorder.go:31-84 | The loop returns exactly `Walk` from hop 0 at the first URL. |
| Recorder.WalkIsChain | recorder.go:31-84 | What the loop records from any hop is a chain in the sense of `IsChain`. |
| Recorder.ChainIsWalk | recorder.go:31-84 | Any chain from a hop is exactly what the loop records from that hop. |
| Recorder.RecordingIsWalk | recorder.go:31-84 | A list of steps is a recording from a URL exactly when it is what the loop produces. |
| Recorder.RecordingShape | recorder.go:31-84 | A recording has between 1 and 11 steps, and the first was sent to the given URL. Step `i` is the step the outcome of request `i` calls for. Every step but the last moved on to the next step's URL. A recording shorter than 11 ends on a hop that does not move on. |
| Recorder.EarlierStepsAreRedirects | recorder.go:51-67 | Every step before the last met a 3xx. It is a GET carrying that response, no body file and no error. The next step requested the URL that its `Location` resolves to. |
| Recorder.LastStepEndsRecording | recorder.go:36-83 | The last step takes one of three forms. After a transport error it is an error step: empty method, the request URL, the message and no response. After a non-3xx status it is the final GET with its body file. After a 3xx it is a redirect step, and either the request limit was reached or its `Location` did not resolve. |
| Recorder.BodyFileOnlyOnFinal | recorder.go:68-80 | A step names a body file exactly when it is the last step and its status is outside 3xx. The name is the base name, `-`, the sequence count plus one, `-`, the hop index plus one, and the extension. |
| Recorder.AlwaysRedirectedLength | recorder.go:32 | When every request up to the limit is redirected to a resolvable location, a chain from hop `h` has exactly `11 - h` steps. |
| Recorder.AlwaysRedirectedStep | recorder.go:51-60 | Against such a server, every step of a recording is a 3xx step without a body file. |
| Recorder.RedirectLimit | recorder.go:32-67 | Against such a server, a recording has exactly 11 steps, all redirects, none with a body file. |
| Recorder.TransportFailureFirst | recorder.go:36-44 | A first request that fails outright gives a one-step recording holding the error and no response. |
| Recorder.Record | recorder.go:18-101 | If the scenario file cannot be opened, the result is that error and no scenario. If adding fails, the result is that error and the scenario as the failed add leaves it, assumed unchanged. Otherwise the scenario gains exactly one sequence, the loop's recording numbered by the old count. The recording has 1 to 11 steps. The error is the save error, else the URL-list error, else none, with the source's messages. |

## Left out

- `newHTTPClient` (recorder.go:111-126): timeouts, dialer and transport configuration are left out. Its redirect policy appears only in that the network function returns 3xx replies as they are.
- `client.Get` and `resp.Body.Close()`: the network is a parameter from hop number and URL to an outcome, with no timing and no body content.
- `Step.SaveBody`: not modelled, because the code only logs its failure and the result does not depend on it. The body's bytes are not modelled at all.
- `InitScenario`, `Scenario.SaveTo` and `Scenario.SaveAsURLList`: these are file operations defined outside recorder.go. Their outcomes are parameters of `Record` (`Files`), and nothing about the files they write is modelled.
- `Scenarios.Scenario.AddSequence`: its body is defined outside recorder.go, and the code returns as soon as it fails. Whether it fails is a parameter of `Record`. A failed add is assumed to leave `sequences` as they were; recorder.go never looks at the scenario after a failure.
- `NewResponse`: defined outside recorder.go. A response is modelled with status, header and body-file name only. The response built from the missing response of a failed request is modelled as no response.
- `filepath.Base`, `filepath.Dir` and `filepath.Join`: `Base` is a parameter. The body file's directory is not modelled, because only its name is recorded.
- `logf` and the logger: output only.
- `Recorder.Location`: looks the `Location` header up under that exact key. `Header.Get`'s canonicalisation of header names is not modelled; net/http's response headers already use the canonical spelling.
- `Recorder.Decimal`: works on unbounded naturals, so Go's `int` width is not modelled; the counts involved stay far below it.
- `Mime.Extension`: strings are sequences of characters, so `len` counting bytes of multi-byte UTF-8 extensions is not modelled. Media-type tables map to ASCII extensions.
- `Recorder.Record`: returns the in-memory scenario alongside the error, to make its effect visible. The "updating existing scenario" log line, which depends on `created`, is left out.
- example_test.go: an integration test of the replaying mock against on-disk fixtures. The mock is not part of this model.
