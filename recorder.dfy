/** Recording of one live request, with the redirect chain it starts, into a scenario. */
module Recorder {
  import opened Wrappers
  import opened Urls
  import opened Mime
  import opened Scenarios

  /** The loop counter `redirect` runs from 0 to MaxRedirect inclusive, one request each. */
  const MaxRedirect: nat := 10
  const MaxRequests: nat := MaxRedirect + 1

  /** What a GET gives back: a transport-level failure with its message, or a response
      with its status and header. */
  datatype HttpOutcome = TransportError(message: string) | Reply(statusCode: int, header: Header)

  /** The network, scripted: the outcome of the request with the given hop number sent to
      the given URL. */
  type Client = (nat, string) -> HttpOutcome

  /** What the redirect loop consults: the network, URL parsing and printing, and the
      media-type table. */
  datatype Env = Env(client: Client, parse: Parser, show: Printer, byType: TypeTable)

  /** The outcomes of the file operations around the loop: opening the scenario file
      (its sequences, or an error), the base name of a path, and the failures, if any, of
      adding the sequence, saving the scenario file and saving the URL list. */
  datatype Files = Files(init: Result<seq<Sequence>, string>, base: string -> string,
                         addErr: Option<string>, saveErr: Option<string>, urlListErr: Option<string>)

  predicate IsRedirect(statusCode: int)
  {
    300 <= statusCode < 400
  }

  /** The first `Location` value of a header, or "" when there is none. */
  function Location(header: Header): string
  {
    if "Location" in header && |header["Location"]| > 0 then header["Location"][0] else ""
  }

  predicate IsDigits(s: string)
  {
    forall i :: 0 <= i < |s| ==> '0' <= s[i] <= '9'
  }

  /** The decimal digits of a natural number, as `%d` writes it. */
  function Decimal(n: nat): (s: string)
    ensures |s| >= 1 && IsDigits(s)
  {
    if n < 10 then [(48 + n) as char]
    else Decimal(n / 10) + [(48 + n % 10) as char]
  }

  /** The number a string of decimal digits denotes. */
  function DecimalValue(s: string): nat
    requires IsDigits(s)
  {
    if s == [] then 0
    else DecimalValue(s[..|s| - 1]) * 10 + (s[|s| - 1] as int - 48)
  }

  /** Reading back the digits gives the number. */
  lemma {:induction false} DecimalRoundTrip(n: nat)
    ensures DecimalValue(Decimal(n)) == n
  {
    if n >= 10 {
      var s := Decimal(n);
      assert s[..|s| - 1] == Decimal(n / 10);
      DecimalRoundTrip(n / 10);
    }
  }

  /** `%d` writes no leading zero: the first digit is `0` only for the number zero
      itself, so together with `DecimalRoundTrip` the digits of a number are unique. */
  lemma {:induction false} DecimalNoLeadingZero(n: nat)
    ensures Decimal(n)[0] == '0' <==> n == 0
  {
    if n >= 10 {
      assert Decimal(n)[0] == Decimal(n / 10)[0];
      DecimalNoLeadingZero(n / 10);
    }
  }

  /** The body file of the final hop: the scenario's base name, the one-based number of
      the sequence being recorded, the one-based hop number and the extension. */
  function BodyFilename(prefix: string, count: nat, hop: nat, ext: string): string
  {
    prefix + "-" + Decimal(count + 1) + "-" + Decimal(hop + 1) + ext
  }

  /** The step recorded for hop `hop` to `uri`, while the scenario holds `count` sequences. */
  function StepFor(env: Env, prefix: string, count: nat, hop: nat, uri: string): Step
  {
    match env.client(hop, uri)
    case TransportError(msg) => Step("", uri, None, msg)
    case Reply(status, header) =>
      if IsRedirect(status) then Step("GET", uri, Some(Response(status, header, "")), "")
      else
        var ext := ExtensionOf(ContentTypes(header), env.byType);
        Step("GET", uri, Some(Response(status, header, BodyFilename(prefix, count, hop, ext))), "")
  }

  /** The URL the loop moves on to after hop `hop` to `uri`: present only after a redirect
      whose location resolves. */
  function NextUrl(env: Env, hop: nat, uri: string): Option<string>
  {
    var o := env.client(hop, uri);
    if o.Reply? && IsRedirect(o.statusCode) then
      match FormatRedirectUrl(env.parse, env.show, uri, Location(o.header))
      case Ok(next) => Some(next)
      case Err(_) => None
    else None
  }

  /** The steps the loop records from hop `hop` on, starting at `uri`. */
  function Walk(env: Env, prefix: string, count: nat, uri: string, hop: nat): seq<Step>
    decreases MaxRequests - hop
  {
    if hop >= MaxRequests then []
    else
      [StepFor(env, prefix, count, hop, uri)] +
      match NextUrl(env, hop, uri)
      case None => []
      case Some(next) => Walk(env, prefix, count, next, hop + 1)
  }

  ghost predicate StepsFit(env: Env, prefix: string, count: nat, hop: nat, steps: seq<Step>)
    decreases |steps|
  {
    steps != [] ==>
      steps[0] == StepFor(env, prefix, count, hop, steps[0].requestUrl) && StepsFit(env, prefix, count, hop + 1, steps[1..])
  }

  ghost predicate Linked(env: Env, hop: nat, steps: seq<Step>)
    decreases |steps|
  {
    |steps| > 1 ==>
      NextUrl(env, hop, steps[0].requestUrl) == Some(steps[1].requestUrl) && Linked(env, hop + 1, steps[1..])
  }

  /** `steps` is a redirect chain recorded from hop `hop` on, starting at `uri`: at least
      one step and no more than the loop allows, each step the one its outcome calls for,
      each step but the last linked to its successor, and a chain cut short of the limit
      ending on a hop that does not move on. */
  ghost predicate IsChain(env: Env, prefix: string, count: nat, uri: string, hop: nat, steps: seq<Step>)
  {
    && 1 <= |steps| && hop + |steps| <= MaxRequests
    && steps[0].requestUrl == uri
    && StepsFit(env, prefix, count, hop, steps)
    && Linked(env, hop, steps)
    && (hop + |steps| < MaxRequests ==>
          NextUrl(env, hop + |steps| - 1, steps[|steps| - 1].requestUrl).None?)
  }

  /** A whole recording: a chain from the first hop. */
  ghost predicate IsRecording(env: Env, prefix: string, count: nat, uri: string, steps: seq<Step>)
  {
    IsChain(env, prefix, count, uri, 0, steps)
  }

  lemma StepForUrl(env: Env, prefix: string, count: nat, hop: nat, uri: string)
    ensures StepFor(env, prefix, count, hop, uri).requestUrl == uri
  {
  }

  /** `StepsFit` of a list with a first step: that step fits its hop and the rest fits from the next hop. */
  lemma StepsFitCons(env: Env, prefix: string, count: nat, hop: nat, s: Step, tail: seq<Step>)
    ensures StepsFit(env, prefix, count, hop, [s] + tail) <==>
            s == StepFor(env, prefix, count, hop, s.requestUrl) && StepsFit(env, prefix, count, hop + 1, tail)
  {
    assert ([s] + tail)[1..] == tail;
  }

  /** `Linked` of a list with a first step: it moves on to the URL of the next step and the rest is linked from the next hop. */
  lemma LinkedCons(env: Env, hop: nat, s: Step, tail: seq<Step>)
    requires tail != []
    ensures Linked(env, hop, [s] + tail) <==>
            NextUrl(env, hop, s.requestUrl) == Some(tail[0].requestUrl) && Linked(env, hop + 1, tail)
  {
    assert ([s] + tail)[1..] == tail;
  }

  /** One hop of the loop that does not move on, or is the last one allowed. */
  lemma WalkStops(env: Env, prefix: string, count: nat, uri: string, hop: nat)
    requires hop < MaxRequests
    requires NextUrl(env, hop, uri).None? || hop + 1 == MaxRequests
    ensures Walk(env, prefix, count, uri, hop) == [StepFor(env, prefix, count, hop, uri)]
  {
  }

  /** One hop of the loop that moves on to `next`. */
  lemma WalkMoves(env: Env, prefix: string, count: nat, uri: string, hop: nat, next: string)
    requires hop < MaxRequests
    requires NextUrl(env, hop, uri) == Some(next)
    ensures Walk(env, prefix, count, uri, hop) ==
            [StepFor(env, prefix, count, hop, uri)] + Walk(env, prefix, count, next, hop + 1)
  {
  }

  /** One hop of the loop: its step, then the steps from the URL it moves on to, if any. */
  lemma WalkHop(env: Env, prefix: string, count: nat, uri: string, hop: nat)
    requires hop < MaxRequests
    ensures Walk(env, prefix, count, uri, hop) ==
            [StepFor(env, prefix, count, hop, uri)] +
            match NextUrl(env, hop, uri)
            case None => []
            case Some(next) => Walk(env, prefix, count, next, hop + 1)
  {
  }

  /** A single hop that does not move on, or is the last allowed, is a chain by itself. */
  lemma ChainSingle(env: Env, prefix: string, count: nat, uri: string, hop: nat)
    requires hop < MaxRequests
    requires NextUrl(env, hop, uri).None? || hop + 1 == MaxRequests
    ensures IsChain(env, prefix, count, uri, hop, [StepFor(env, prefix, count, hop, uri)])
  {
    StepForUrl(env, prefix, count, hop, uri);
    StepsFitCons(env, prefix, count, hop, StepFor(env, prefix, count, hop, uri), []);
  }

  /** A hop that moves on to the start of a chain from the next hop, followed by that chain, is a chain. */
  lemma ChainCons(env: Env, prefix: string, count: nat, uri: string, hop: nat, tail: seq<Step>)
    requires hop + 1 < MaxRequests
    requires tail != [] && NextUrl(env, hop, uri) == Some(tail[0].requestUrl)
    requires IsChain(env, prefix, count, tail[0].requestUrl, hop + 1, tail)
    ensures IsChain(env, prefix, count, uri, hop, [StepFor(env, prefix, count, hop, uri)] + tail)
  {
    var first := StepFor(env, prefix, count, hop, uri);
    var w := [first] + tail;
    StepForUrl(env, prefix, count, hop, uri);
    StepsFitCons(env, prefix, count, hop, first, tail);
    LinkedCons(env, hop, first, tail);
    assert w[0] == first;
    assert w[|w| - 1] == tail[|tail| - 1];
  }

  /** A chain is its first hop's step, followed, when longer than one step, by a chain from the URL that hop moves on to. */
  lemma ChainUncons(env: Env, prefix: string, count: nat, uri: string, hop: nat, steps: seq<Step>)
    requires IsChain(env, prefix, count, uri, hop, steps)
    ensures steps[0] == StepFor(env, prefix, count, hop, uri)
    ensures |steps| == 1 ==> NextUrl(env, hop, uri).None? || hop + 1 == MaxRequests
    ensures |steps| > 1 ==>
              && hop + 1 < MaxRequests
              && NextUrl(env, hop, uri) == Some(steps[1].requestUrl)
              && IsChain(env, prefix, count, steps[1].requestUrl, hop + 1, steps[1..])
  {
    var tail := steps[1..];
    assert steps == [steps[0]] + tail;
    StepsFitCons(env, prefix, count, hop, steps[0], tail);
    if |steps| > 1 {
      LinkedCons(env, hop, steps[0], tail);
      assert tail[|tail| - 1] == steps[|steps| - 1];
    }
  }

  lemma {:induction false} WalkIsChain(env: Env, prefix: string, count: nat, uri: string, hop: nat)
    requires hop < MaxRequests
    ensures IsChain(env, prefix, count, uri, hop, Walk(env, prefix, count, uri, hop))
    decreases MaxRequests - hop
  {
    if NextUrl(env, hop, uri).Some? && hop + 1 < MaxRequests {
      var next := NextUrl(env, hop, uri).value;
      WalkMoves(env, prefix, count, uri, hop, next);
      WalkIsChain(env, prefix, count, next, hop + 1);
      ChainCons(env, prefix, count, uri, hop, Walk(env, prefix, count, next, hop + 1));
    } else {
      WalkStops(env, prefix, count, uri, hop);
      ChainSingle(env, prefix, count, uri, hop);
    }
  }

  lemma {:induction false} ChainIsWalk(env: Env, prefix: string, count: nat, uri: string, hop: nat, steps: seq<Step>)
    requires IsChain(env, prefix, count, uri, hop, steps)
    ensures steps == Walk(env, prefix, count, uri, hop)
    decreases |steps|
  {
    ChainUncons(env, prefix, count, uri, hop, steps);
    if |steps| == 1 {
      WalkStops(env, prefix, count, uri, hop);
    } else {
      var next := steps[1].requestUrl;
      ChainIsWalk(env, prefix, count, next, hop + 1, steps[1..]);
      WalkMoves(env, prefix, count, uri, hop, next);
      assert steps == [steps[0]] + steps[1..];
    }
  }

  /** The loop's steps are a recording, and the only one: a list of steps is a recording
      from `uri` exactly when it is what the loop produces. */
  lemma RecordingIsWalk(env: Env, prefix: string, count: nat, uri: string, steps: seq<Step>)
    ensures IsRecording(env, prefix, count, uri, steps) <==> steps == Walk(env, prefix, count, uri, 0)
  {
    WalkIsChain(env, prefix, count, uri, 0);
    if IsRecording(env, prefix, count, uri, steps) {
      ChainIsWalk(env, prefix, count, uri, 0, steps);
    }
  }

  /** Step `i` of a list that fits from hop `hop` is the step of hop `hop + i`. */
  lemma {:induction false} StepsFitAt(env: Env, prefix: string, count: nat, hop: nat, steps: seq<Step>, i: nat)
    requires StepsFit(env, prefix, count, hop, steps)
    requires i < |steps|
    ensures steps[i] == StepFor(env, prefix, count, hop + i, steps[i].requestUrl)
    decreases i
  {
    if i > 0 {
      StepsFitAt(env, prefix, count, hop + 1, steps[1..], i - 1);
    }
  }

  /** Step `i` of a list linked from hop `hop` moves on to the URL of step `i + 1`. */
  lemma {:induction false} LinkedAt(env: Env, hop: nat, steps: seq<Step>, i: nat)
    requires Linked(env, hop, steps)
    requires i + 1 < |steps|
    ensures NextUrl(env, hop + i, steps[i].requestUrl) == Some(steps[i + 1].requestUrl)
    decreases i
  {
    if i > 0 {
      LinkedAt(env, hop + 1, steps[1..], i - 1);
    }
  }

  /** What a recording is, hop by hop: between one and MaxRequests steps, the first sent to
      `uri`; step `i` is the one the outcome of request `i` calls for; every step but the
      last moved on to the URL of the next; and a recording shorter than the limit ends on
      a step that does not move on. */
  lemma RecordingShape(env: Env, prefix: string, count: nat, uri: string, steps: seq<Step>)
    requires IsRecording(env, prefix, count, uri, steps)
    ensures 1 <= |steps| <= MaxRequests && steps[0].requestUrl == uri
    ensures forall i :: 0 <= i < |steps| ==> steps[i] == StepFor(env, prefix, count, i, steps[i].requestUrl)
    ensures forall i :: 0 <= i < |steps| - 1 ==>
              NextUrl(env, i, steps[i].requestUrl) == Some(steps[i + 1].requestUrl)
    ensures |steps| < MaxRequests ==> NextUrl(env, |steps| - 1, steps[|steps| - 1].requestUrl).None?
  {
    forall i | 0 <= i < |steps|
      ensures steps[i] == StepFor(env, prefix, count, i, steps[i].requestUrl)
    {
      StepsFitAt(env, prefix, count, 0, steps, i);
    }
    forall i | 0 <= i < |steps| - 1
      ensures NextUrl(env, i, steps[i].requestUrl) == Some(steps[i + 1].requestUrl)
    {
      LinkedAt(env, 0, steps, i);
    }
  }

  /** Every step before the last is a GET that met a redirect, carries its response
      without a body file and no error, and the next step requested the URL its
      `Location` resolves to. */
  lemma EarlierStepsAreRedirects(env: Env, prefix: string, count: nat, uri: string, steps: seq<Step>, i: nat)
    requires IsRecording(env, prefix, count, uri, steps)
    requires i < |steps| - 1
    ensures var o := env.client(i, steps[i].requestUrl);
            && o.Reply? && IsRedirect(o.statusCode)
            && steps[i] == Step("GET", steps[i].requestUrl, Some(Response(o.statusCode, o.header, "")), "")
            && FormatRedirectUrl(env.parse, env.show, steps[i].requestUrl, Location(o.header))
                 == Ok(steps[i + 1].requestUrl)
  {
    LinkedAt(env, 0, steps, i);
    StepsFitAt(env, prefix, count, 0, steps, i);
  }

  /** The last step is an error step (no method, the request URL and the error message,
      no response) after a transport failure, the final response with its body file after
      a status outside 3xx, or a redirect that ended the loop because its location did not
      resolve or the request limit was reached. */
  lemma LastStepEndsRecording(env: Env, prefix: string, count: nat, uri: string, steps: seq<Step>)
    requires IsRecording(env, prefix, count, uri, steps)
    ensures var k := |steps| - 1;
            var url := steps[k].requestUrl;
            match env.client(k, url)
            case TransportError(msg) => steps[k] == Step("", url, None, msg)
            case Reply(status, header) =>
              if IsRedirect(status) then
                && steps[k] == Step("GET", url, Some(Response(status, header, "")), "")
                && (|steps| == MaxRequests || FormatRedirectUrl(env.parse, env.show, url, Location(header)).Err?)
              else
                steps[k] == Step("GET", url, Some(Response(status, header,
                                 BodyFilename(prefix, count, k, ExtensionOf(ContentTypes(header), env.byType)))), "")
  {
    StepsFitAt(env, prefix, count, 0, steps, |steps| - 1);
  }

  /** A body file is named on exactly one kind of step: the last one, after a response
      outside 3xx; its name is built from the sequence number and the hop number. */
  lemma BodyFileOnlyOnFinal(env: Env, prefix: string, count: nat, uri: string, steps: seq<Step>, i: nat)
    requires IsRecording(env, prefix, count, uri, steps)
    requires i < |steps|
    ensures var o := env.client(i, steps[i].requestUrl);
            (steps[i].response.Some? && steps[i].response.value.bodyFilename != "") <==>
            (i == |steps| - 1 && o.Reply? && !IsRedirect(o.statusCode))
    ensures var o := env.client(i, steps[i].requestUrl);
            o.Reply? && !IsRedirect(o.statusCode) ==>
              steps[i].response.Some? &&
              steps[i].response.value.bodyFilename ==
                BodyFilename(prefix, count, i, ExtensionOf(ContentTypes(o.header), env.byType))
  {
    StepsFitAt(env, prefix, count, 0, steps, i);
    if i < |steps| - 1 {
      EarlierStepsAreRedirects(env, prefix, count, uri, steps, i);
    }
  }

  /** Against a server that always redirects to a resolvable location, a chain never
      ends early: from hop `hop` it runs up to the request limit. */
  lemma AlwaysRedirectedLength(env: Env, prefix: string, count: nat, uri: string, hop: nat, steps: seq<Step>)
    requires forall n: nat, u: string :: n < MaxRequests ==> NextUrl(env, n, u).Some?
    requires IsChain(env, prefix, count, uri, hop, steps)
    ensures |steps| == MaxRequests - hop
  {
  }

  /** Hop `i` of a recording against a server that always redirects to a resolvable
      location is a redirect step with no body file. */
  lemma AlwaysRedirectedStep(env: Env, prefix: string, count: nat, uri: string, steps: seq<Step>, i: nat)
    requires forall n: nat, u: string :: n < MaxRequests ==> NextUrl(env, n, u).Some?
    requires IsRecording(env, prefix, count, uri, steps)
    requires i < |steps|
    ensures steps[i].response.Some? && IsRedirect(steps[i].response.value.statusCode)
    ensures steps[i].response.value.bodyFilename == ""
  {
    StepsFitAt(env, prefix, count, 0, steps, i);
    assert NextUrl(env, i, steps[i].requestUrl).Some?;
  }

  /** A server that redirects every request to a resolvable location gets exactly
      MaxRequests requests, all recorded as redirect steps, with no body file. */
  lemma RedirectLimit(env: Env, prefix: string, count: nat, uri: string, steps: seq<Step>)
    requires forall n: nat, u: string :: n < MaxRequests ==> NextUrl(env, n, u).Some?
    requires IsRecording(env, prefix, count, uri, steps)
    ensures |steps| == MaxRequests
    ensures forall i :: 0 <= i < |steps| ==>
              steps[i].response.Some? && IsRedirect(steps[i].response.value.statusCode)
              && steps[i].response.value.bodyFilename == ""
  {
    AlwaysRedirectedLength(env, prefix, count, uri, 0, steps);
    forall i | 0 <= i < |steps|
      ensures steps[i].response.Some? && IsRedirect(steps[i].response.value.statusCode)
              && steps[i].response.value.bodyFilename == ""
    {
      AlwaysRedirectedStep(env, prefix, count, uri, steps, i);
    }
  }

  /** A first request that fails outright gives a one-step recording holding the error
      and no response. */
  lemma TransportFailureFirst(env: Env, prefix: string, count: nat, uri: string)
    requires env.client(0, uri).TransportError?
    ensures Walk(env, prefix, count, uri, 0) == [Step("", uri, None, env.client(0, uri).message)]
  {
  }

  /** Appending one step and then a list is appending the step-and-list. */
  lemma AppendAssoc(before: seq<Step>, s: Step, after: seq<Step>)
    ensures (before + [s]) + after == before + ([s] + after)
  {
  }

  /** `Walk` again, with the steps recorded so far carried along in `acc`. This is a
      proof device for the invariant of `RecordSequence`, not a second model of the
      loop: `WalkAccIsWalk` ties it to `Walk`. */
  function WalkAcc(env: Env, prefix: string, count: nat, uri: string, hop: nat, acc: seq<Step>): seq<Step>
    decreases MaxRequests - hop
  {
    if hop >= MaxRequests then acc
    else
      var recorded := acc + [StepFor(env, prefix, count, hop, uri)];
      match NextUrl(env, hop, uri)
      case None => recorded
      case Some(next) => WalkAcc(env, prefix, count, next, hop + 1, recorded)
  }

  lemma {:induction false} WalkAccIsWalk(env: Env, prefix: string, count: nat, uri: string, hop: nat, acc: seq<Step>)
    ensures WalkAcc(env, prefix, count, uri, hop, acc) == acc + Walk(env, prefix, count, uri, hop)
    decreases MaxRequests - hop
  {
    if hop < MaxRequests {
      var s := StepFor(env, prefix, count, hop, uri);
      WalkHop(env, prefix, count, uri, hop);
      match NextUrl(env, hop, uri)
      case None =>
      case Some(next) =>
        WalkAccIsWalk(env, prefix, count, next, hop + 1, acc + [s]);
        AppendAssoc(acc, s, Walk(env, prefix, count, next, hop + 1));
    } else {
      assert acc + [] == acc;
    }
  }

  /** One pass of the redirect loop: sends request `hop` to `uri` and returns the step it
      records and the URL to move on to, if any. */
  method RecordHop(uri: string, prefix: string, count: nat, hop: nat, env: Env)
    returns (step: Step, next: Option<string>)
    ensures step == StepFor(env, prefix, count, hop, uri)
    ensures next == NextUrl(env, hop, uri)
  {
    var outcome := env.client(hop, uri);
    if outcome.TransportError? {
      return Step("", uri, None, outcome.message), None;
    }
    var r := Response(outcome.statusCode, outcome.header, "");
    if IsRedirect(outcome.statusCode) {
      step := Step("GET", uri, Some(r), "");
      var location := Location(outcome.header);
      var resolved := FormatRedirectUrl(env.parse, env.show, uri, location);
      if resolved.Err? {
        return step, None;
      }
      return step, Some(resolved.value);
    }
    var ext := Extension(outcome.header, env.byType);
    r := r.(bodyFilename := BodyFilename(prefix, count, hop, ext));
    return Step("GET", uri, Some(r), ""), None;
  }

  /** The redirect loop: requests `uri`, follows redirects for at most MaxRequests
      requests and returns the steps recorded, while the scenario holds `count` sequences
      and its base name is `prefix`. */
  method RecordSequence(uri: string, prefix: string, count: nat, env: Env) returns (steps: seq<Step>)
    ensures steps == Walk(env, prefix, count, uri, 0)
  {
    steps := [];
    var current := uri;
    var redirect: nat := 0;
    while redirect <= MaxRedirect
      invariant redirect <= MaxRequests
      invariant WalkAcc(env, prefix, count, current, redirect, steps) == WalkAcc(env, prefix, count, uri, 0, [])
    {
      var step, next := RecordHop(current, prefix, count, redirect, env);
      steps := steps + [step];
      if next.None? {
        WalkAccIsWalk(env, prefix, count, uri, 0, []);
        return;
      }
      current := next.value;
      redirect := redirect + 1;
    }
    WalkAccIsWalk(env, prefix, count, uri, 0, []);
  }

  /** Records one request to `uri` and the redirects it leads to into the scenario
      `scnName`, and returns the error, if any, and the scenario's sequences as they are
      in memory at the end (nothing when the scenario file could not be opened). */
  method Record(uri: string, scnName: string, env: Env, files: Files)
    returns (err: Option<string>, scenario: Option<seq<Sequence>>)
    ensures files.init.Err? ==>
              err == Some("cannot open scenario file: " + files.init.error) && scenario == None
    ensures files.init.Ok? && files.addErr.Some? ==>
              && scenario == Some(files.init.value)
              && err == Some("cannot add sequence to scenario: " + files.addErr.value)
    ensures files.init.Ok? && files.addErr.None? ==>
              var loaded := files.init.value;
              var steps := Walk(env, files.base(scnName), |loaded|, uri, 0);
              && scenario == Some(loaded + [Sequence(steps)])
              && IsRecording(env, files.base(scnName), |loaded|, uri, steps)
              && 1 <= |steps| <= MaxRequests
              && err == (if files.saveErr.Some? then
                           Some("cannot save sequence to file " + scnName + ".json: " + files.saveErr.value)
                         else if files.urlListErr.Some? then
                           Some("cannot save url list to file " + scnName + ".url: " + files.urlListErr.value)
                         else None)
  {
    if files.init.Err? {
      return Some("cannot open scenario file: " + files.init.error), None;
    }
    var scn := new Scenario(files.init.value);
    var steps := RecordSequence(uri, files.base(scnName), scn.Count(), env);
    RecordingIsWalk(env, files.base(scnName), scn.Count(), uri, steps);
    err := scn.AddSequence(Sequence(steps), files.addErr);
    scenario := Some(scn.sequences);
    if err.Some? {
      return Some("cannot add sequence to scenario: " + err.value), scenario;
    }
    if files.saveErr.Some? {
      return Some("cannot save sequence to file " + scnName + ".json: " + files.saveErr.value), scenario;
    }
    if files.urlListErr.Some? {
      return Some("cannot save url list to file " + scnName + ".url: " + files.urlListErr.value), scenario;
    }
    return None, scenario;
  }
}
