/**
 Data handled by the reverse-proxy middleware for one request: the per-domain
 policy record, the facts about the incoming request, the outside
 collaborators it consults, and the single terminal action it takes.
 */
module ProxyModels {
  import opened Wrappers

  /** A canned response configured for a domain. */
  datatype StaticResponse = StaticResponse(
    statusCode: int,
    contentType: string,
    contentValue: Option<string>)

  /**
   The part of a domain configuration the middleware reads. `destination`
   is the configured URI (absent means "this same host"), `userAgent` a
   template that may contain the `${origin}` placeholder, and `response`,
   when present, makes the domain answer locally instead of proxying.
   */
  datatype DomainConfig = DomainConfig(
    tlsSni: bool,
    destination: Option<string>,
    userAgent: Option<string>,
    response: Option<StaticResponse>)

  /**
   The request's `Host` header: host name plus an optional port. `host` is
   what `HostString.Host` returns (no port); `Value` is the full header text.
   */
  datatype HostString = HostString(host: string, port: Option<string>) {
    function Value(): string {
      match port
      case None => host
      case Some(p) => host + ":" + p
    }
  }

  /**
   The request facts the middleware reads. `rawUrl` is the original
   path-and-query, `displayUrl` the full URL handed to the configuration
   store, `userAgent` the incoming User-Agent header as one string.
   */
  datatype Request = Request(
    scheme: string,
    host: HostString,
    rawUrl: string,
    displayUrl: string,
    userAgent: string)

  /**
   Outside collaborators, given as functions:
   - `tryGetDomainConfig`: the configuration store's lookup by display URL;
   - `uriHost`: the host component of the display URL parsed as an absolute
     URI, or `None` when the URI parser rejects it (a `UriFormatException`,
     as for `http:///` from a request without a Host header);
   - `isIpLiteral`: whether the IP-address parser accepts a host;
   - `resolveReference`: URI-reference resolution of a destination against
     a base URI (section 5.2 of RFC 3986), as a string.
   */
  datatype Collaborators = Collaborators(
    tryGetDomainConfig: string -> Option<DomainConfig>,
    uriHost: string -> Option<string>,
    isIpLiteral: string -> bool,
    resolveReference: (string, string) -> string)

  /**
   Process-wide switches read for each request: `pollutionFallback` is the
   platform check that enables the DNS-pollution fallback, `httpToHttps` the
   "upgrade plain HTTP to HTTPS" capability.
   */
  datatype Flags = Flags(pollutionFallback: bool, httpToHttps: bool)

  /** The forwarding engine's error code; `Failed` carries the code's name. */
  datatype ForwarderError = NoError | Failed(name: string)

  /** What the forwarding engine reports, with the message of the exception behind a failure. */
  datatype ForwardOutcome = ForwardOutcome(error: ForwarderError, exceptionMessage: Option<string>)

  /** The JSON diagnostic body `{ error, message }` written after a failed forward. */
  datatype ErrorBody = ErrorBody(error: string, message: Option<string>)

  /** The logged mapping from the request's own prefix to the resolved destination. */
  datatype PrefixMapping = PrefixMapping(from: string, to: string)

  /** A destination prefix together with the mapping logged while computing it. */
  datatype DestinationPrefix = DestinationPrefix(value: string, logged: Option<PrefixMapping>)

  /**
   Result of the domain lookup; `warning` names the host of a suspected DNS
   pollution, and `InvalidUri` is the URI parser's exception on a store miss.
   */
  datatype Resolution = NotFound | Found(config: DomainConfig, warning: Option<string>) | InvalidUri

  /**
   The one terminal action taken for a request. `UriFormatFailure` is the
   parser's exception leaving the middleware unhandled. `Forward` records
   everything handed to the forwarding engine and the client factory, plus
   the error body written afterwards, if any.
   */
  datatype Action =
    | UriFormatFailure
    | PassThrough
    | RedirectToHttps(location: string)
    | EmitStaticResponse(statusCode: int, contentType: string, body: Option<string>)
    | Forward(
        prefix: DestinationPrefix,
        clientHost: string,
        clientConfig: DomainConfig,
        userAgent: string,
        errorBody: Option<ErrorBody>)

  /** The action, plus the DNS-pollution warning logged on the way, if any. */
  datatype Decision = Decision(warning: Option<string>, action: Action)
}
