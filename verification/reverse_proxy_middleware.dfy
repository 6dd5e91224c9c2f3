/**
 The per-request routing decision of the reverse-proxy middleware: find the
 domain configuration (with the DNS-pollution fallback), then pass the
 request through, answer it with a configured response, redirect it to
 HTTPS, or forward it to the destination prefix and translate a forwarding
 failure into a JSON diagnostic body.
 */
module ReverseProxyMiddleware {
  import opened Wrappers
  import opened ProxyModels
  import IgnoreCaseReplace

  const UriSchemeHttp: string := "http"
  const UriSchemeHttps: string := "https"

  /** The User-Agent template placeholder for the original header value. */
  const OriginPlaceholder: string := "${origin}"

  /** The fallback configuration: SNI on, nothing else set. */
  const DefaultDomainConfig: DomainConfig := DomainConfig(true, None, None, None)

  /** A host that looks like a domain name: not an IP literal and containing a dot. */
  predicate IsDomain(env: Collaborators, host: string)
    ensures IsDomain(env, host) <==>
      !env.isIpLiteral(host) && exists i :: 0 <= i < |host| && host[i] == '.'
  {
    !env.isIpLiteral(host) && '.' in host
  }

  /**
   `IsDomain` computed the way `Contains('.')` searches: after the IP-address
   test, scan the host for a dot and stop at the first one.
   */
  method IsDomainByScan(env: Collaborators, host: string) returns (b: bool)
    ensures b <==> IsDomain(env, host)
  {
    if env.isIpLiteral(host) {
      return false;
    }
    var i := 0;
    while i < |host|
      invariant i <= |host|
      invariant forall k :: 0 <= k < i ==> host[k] != '.'
    {
      if host[i] == '.' {
        return true;
      }
      i := i + 1;
    }
    return false;
  }

  /**
   The store's configuration when it has one; otherwise, on the platform
   that enables it and for a host that looks like a domain name, the default
   configuration together with a warning naming the host; otherwise nothing.
   On a store miss the display URL is parsed before the platform flag is
   read, so a URL the parser rejects fails whatever the flags are.
   */
  function TryGetDomainConfig(env: Collaborators, flags: Flags, uri: string): (r: Resolution)
    ensures env.tryGetDomainConfig(uri).Some? ==> r == Found(env.tryGetDomainConfig(uri).value, None)
    ensures r.Found? && r.warning.Some? ==> r.config == DefaultDomainConfig
    ensures && env.tryGetDomainConfig(uri).None?
            && env.uriHost(uri).Some?
            && flags.pollutionFallback
            && IsDomain(env, env.uriHost(uri).value)
            ==> r == Found(DefaultDomainConfig, Some(env.uriHost(uri).value))
    ensures r.InvalidUri? <==> env.tryGetDomainConfig(uri).None? && env.uriHost(uri).None?
    ensures r.NotFound? <==>
      && env.tryGetDomainConfig(uri).None?
      && env.uriHost(uri).Some?
      && !(flags.pollutionFallback && IsDomain(env, env.uriHost(uri).value))
  {
    match env.tryGetDomainConfig(uri)
    case Some(config) => Found(config, None)
    case None =>
      match env.uriHost(uri)
      case None => InvalidUri
      case Some(host) =>
        if flags.pollutionFallback && IsDomain(env, host) then
          Found(DefaultDomainConfig, Some(host))
        else
          NotFound
  }

  /** The request's own prefix `{scheme}://{host}/`, with the full host header (port included). */
  function BasePrefix(scheme: string, host: HostString): string {
    scheme + "://" + host.Value() + "/"
  }

  /**
   The prefix the forwarding engine targets: the request's own prefix, or
   the configured destination resolved against it, in which case the
   mapping is logged.
   */
  function GetDestinationPrefix(env: Collaborators, scheme: string, host: HostString, destination: Option<string>)
    : (r: DestinationPrefix)
    ensures destination.None? ==> r.value == BasePrefix(scheme, host)
    ensures destination.Some? ==>
      r.value == env.resolveReference(BasePrefix(scheme, host), destination.value)
    ensures r.logged.Some? <==> destination.Some?
    ensures r.logged.Some? ==> r.logged.value == PrefixMapping(BasePrefix(scheme, host), r.value)
  {
    var defaultValue := BasePrefix(scheme, host);
    match destination
    case None => DestinationPrefix(defaultValue, None)
    case Some(d) =>
      var result := env.resolveReference(defaultValue, d);
      DestinationPrefix(result, Some(PrefixMapping(defaultValue, result)))
  }

  /**
   The outgoing User-Agent: unchanged for an absent or empty template;
   otherwise the template with every case-insensitive `${origin}` replaced
   by the original header value.
   */
  function RewriteUserAgent(template: Option<string>, original: string): (r: string)
    ensures template.None? || template == Some("") ==> r == original
  {
    match template
    case Some(t) =>
      if t != "" then IgnoreCaseReplace.Replace(t, OriginPlaceholder, original) else original
    case None => original
  }

  /**
   The diagnostic body written after forwarding: none when forwarding
   succeeded or the response has already started, otherwise the error's
   name and the exception message.
   */
  function HandleError(outcome: ForwardOutcome, hasStarted: bool): (r: Option<ErrorBody>)
    ensures r.None? <==> outcome.error.NoError? || hasStarted
    ensures r.Some? ==> r.value == ErrorBody(outcome.error.name, outcome.exceptionMessage)
  {
    if outcome.error.NoError? || hasStarted then None
    else Some(ErrorBody(outcome.error.name, outcome.exceptionMessage))
  }

  /**
   The middleware's decision for one request. The forwarding engine's
   outcome and whether the response had started when it returned are
   inputs; they only matter on the forward path.
   */
  function Invoke(env: Collaborators, flags: Flags, req: Request, outcome: ForwardOutcome, hasStarted: bool)
    : (d: Decision)
    ensures d.action.PassThrough? || d.action.UriFormatFailure? ==> d.warning.None?
    ensures d.action.RedirectToHttps? ==> flags.httpToHttps && req.scheme == UriSchemeHttp
    ensures d.action.Forward? ==> d.action.clientHost == req.host.host
  {
    match TryGetDomainConfig(env, flags, req.displayUrl)
    case InvalidUri => Decision(None, UriFormatFailure)
    case NotFound => Decision(None, PassThrough)
    case Found(config, warning) =>
      match config.response
      case None =>
        if flags.httpToHttps && req.scheme == UriSchemeHttp then
          Decision(warning, RedirectToHttps(UriSchemeHttps + req.host.host + req.rawUrl))
        else
          var prefix := GetDestinationPrefix(env, req.scheme, req.host, config.destination);
          var userAgent := RewriteUserAgent(config.userAgent, req.userAgent);
          Decision(warning, Forward(prefix, req.host.host, config, userAgent, HandleError(outcome, hasStarted)))
      case Some(response) =>
        Decision(warning, EmitStaticResponse(response.statusCode, response.contentType, response.contentValue))
  }
}
