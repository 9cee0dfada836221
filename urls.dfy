/** Resolution of a redirect `Location` header against the URL that was requested. */
module Urls {
  import opened Wrappers

  /** A parsed URL, reduced to what redirect resolution looks at: the scheme,
      the host, and everything else (user info, path, query, fragment) kept whole. */
  datatype Url = Url(scheme: string, host: string, rest: string)

  /** URL parsing and serialisation are library behaviour; the caller supplies them. */
  type Parser = string -> Result<Url, string>
  type Printer = Url -> string

  /** A location with neither a host nor a scheme is relative to the original URL. */
  predicate IsRelative(u: Url)
  {
    u.host == "" && u.scheme == ""
  }

  /** Serialising `u` and parsing the text again gives `u` back. */
  predicate ReadsBack(parse: Parser, show: Printer, u: Url)
  {
    parse(show(u)) == Ok(u)
  }

  /** A relative location completed with the scheme and host of the original URL. */
  function Inherit(newUrl: Url, oldUrl: Url): (u: Url)
    ensures u.rest == newUrl.rest && u.scheme == oldUrl.scheme && u.host == oldUrl.host
  {
    newUrl.(host := oldUrl.host, scheme := oldUrl.scheme)
  }

  /** The next URL to request after a redirect to `locationHeader` from `originalUrl`. */
  function FormatRedirectUrl(parse: Parser, show: Printer, originalUrl: string, locationHeader: string): Result<string, string>
  {
    match parse(locationHeader)
    case Err(e) => Err(e)
    case Ok(newUrl) =>
      if IsRelative(newUrl) then
        match parse(originalUrl)
        case Err(e) => Err(e)
        case Ok(oldUrl) => Ok(show(Inherit(newUrl, oldUrl)))
      else
        Ok(show(newUrl))
  }

  /** The outcomes of resolution. A location that does not parse is an error whatever
      the original URL is; a location with a host or a scheme is used as it is, the
      original URL playing no part; a relative location is printed with the scheme and
      host of the original; and resolution fails exactly when the location does not
      parse, or it is relative and the original does not parse. */
  lemma FormatRedirectUrlCases(parse: Parser, show: Printer, originalUrl: string, locationHeader: string)
    ensures var r := FormatRedirectUrl(parse, show, originalUrl, locationHeader);
            && (parse(locationHeader).Err? ==> r == Err(parse(locationHeader).error))
            && (parse(locationHeader).Ok? && !IsRelative(parse(locationHeader).value) ==>
                  r == Ok(show(parse(locationHeader).value)))
            && (parse(locationHeader).Ok? && IsRelative(parse(locationHeader).value) && parse(originalUrl).Ok? ==>
                  r == Ok(show(Url(parse(originalUrl).value.scheme, parse(originalUrl).value.host,
                                   parse(locationHeader).value.rest))))
            && (r.Err? <==> (parse(locationHeader).Err? ||
                             (IsRelative(parse(locationHeader).value) && parse(originalUrl).Err?)))
  {
  }

  /** When the printed result parses back to what was printed, the resolved URL keeps
      the location's path part, and takes scheme and host from the original URL exactly
      when the location is relative. */
  lemma ResolvedUrlParts(parse: Parser, show: Printer, originalUrl: string, locationHeader: string)
    requires parse(locationHeader).Ok?
    requires IsRelative(parse(locationHeader).value) ==>
               parse(originalUrl).Ok? &&
               ReadsBack(parse, show, Inherit(parse(locationHeader).value, parse(originalUrl).value))
    requires !IsRelative(parse(locationHeader).value) ==> ReadsBack(parse, show, parse(locationHeader).value)
    ensures FormatRedirectUrl(parse, show, originalUrl, locationHeader).Ok?
    ensures var loc := parse(locationHeader).value;
            var res := parse(FormatRedirectUrl(parse, show, originalUrl, locationHeader).value);
            && res.Ok?
            && res.value.rest == loc.rest
            && (IsRelative(loc) ==>
                  res.value.scheme == parse(originalUrl).value.scheme && res.value.host == parse(originalUrl).value.host)
            && (!IsRelative(loc) ==> res.value == loc)
  {
  }

  /** Under the same condition, resolving the resolved URL again against the same
      original changes nothing. */
  lemma ResolveIdempotent(parse: Parser, show: Printer, originalUrl: string, locationHeader: string)
    requires parse(locationHeader).Ok?
    requires IsRelative(parse(locationHeader).value) ==>
               parse(originalUrl).Ok? &&
               ReadsBack(parse, show, Inherit(parse(locationHeader).value, parse(originalUrl).value))
    requires !IsRelative(parse(locationHeader).value) ==> ReadsBack(parse, show, parse(locationHeader).value)
    ensures var once := FormatRedirectUrl(parse, show, originalUrl, locationHeader);
            once.Ok? && FormatRedirectUrl(parse, show, originalUrl, once.value) == once
  {
    var loc := parse(locationHeader).value;
    var u := if IsRelative(loc) then Inherit(loc, parse(originalUrl).value) else loc;
    if IsRelative(u) {
      assert Inherit(u, parse(originalUrl).value) == u;
    }
  }

  /** Two redirects: `/y` from `https://a.example/x` goes to
      `https://a.example/y`; `https://b.example/z` is followed unchanged. */
  lemma RedirectExamples(parse: Parser, show: Printer)
    requires parse("https://a.example/x") == Ok(Url("https", "a.example", "/x"))
    requires parse("/y") == Ok(Url("", "", "/y"))
    requires parse("https://b.example/z") == Ok(Url("https", "b.example", "/z"))
    requires show(Url("https", "a.example", "/y")) == "https://a.example/y"
    requires show(Url("https", "b.example", "/z")) == "https://b.example/z"
    ensures FormatRedirectUrl(parse, show, "https://a.example/x", "/y") == Ok("https://a.example/y")
    ensures FormatRedirectUrl(parse, show, "https://a.example/x", "https://b.example/z") == Ok("https://b.example/z")
  {
  }
}
