# Reverse-proxy routing decision

A Dafny model of the per-request routing decision of the `HttpReverseProxyMiddleware`
of the SteamTools local reverse proxy (itself derived from FastGithub). For every
incoming request the middleware:

1. looks the request's display URL up in the domain-configuration store; when the store
   has nothing, a DNS-pollution fallback (enabled by a platform check) matches any host
   that looks like a domain name (not an IP literal, contains a `.`) with a fixed default
   configuration (`TlsSni = true`, nothing else) and logs a warning naming the host;
   on a store miss the display URL is parsed first, so one the URI parser rejects
   (`http:///…` from a request without a Host header) fails with a `UriFormatException`
   that leaves the middleware, whatever the platform check says;
2. passes an unmatched request to the next handler;
3. answers a matched request whose configuration has a `Response` with that status,
   content type and, when set, body — before anything else is considered;
4. otherwise, when the HTTP-to-HTTPS upgrade is enabled and the scheme is `http`,
   redirects;
5. otherwise forwards it: the destination prefix is `{scheme}://{host}/` (the full
   `Host` header, port included), or the configured destination resolved against that
   prefix (then the mapping is logged); the User-Agent becomes the configured template
   with every case-insensitive `${origin}` replaced by the original header; and a failed
   forward whose response has not started gets a JSON body `{ error, message }`.

The model is pure: `ReverseProxyMiddleware.Invoke` takes the collaborators (store lookup,
URL host extraction, IP-literal test, URI-reference resolution) as function values, the
two process-wide switches as booleans, the request facts as strings, and the forwarding
engine's outcome and `HasStarted` as inputs, and returns a `Decision`: the one terminal
`Action` plus the DNS-pollution warning, if any; the parser's exception is the action
`UriFormatFailure`. Logs and bodies are data in the result.

Two details of the code are kept exactly as written. The redirect location is
`"https" + Host.Host + RawUrl()`: `Uri.UriSchemeHttps` is `"https"` without `"://"`, so
the location is the literal concatenation (for `http://example.com/a?x=1` it is
`httpsexample.com/a?x=1`, not `https://example.com/a?x=1`). And the redirect uses the
host name without the port, while the destination prefix uses the whole `Host` header,
port included (`RedirectIgnoresPort` and `ForwardPrefixKeepsPort`).

Files:
- `wrappers.dfy` — `Option`.
- `proxy_models.dfy` — `DomainConfig`, `StaticResponse`, `HostString`, `Request`,
  `Collaborators`, `Flags`, `ForwardOutcome`, `ErrorBody`, `Action`, `Decision`.
- `ignore_case_replace.dfy` — ordinal, ASCII-case-insensitive, left-to-right,
  non-overlapping replacement: a recursive definition, an index-search algorithm proved
  equal to it, and its properties.
- `reverse_proxy_middleware.dfy` — the middleware's operations.
- `middleware_properties.dfy` — properties relating several calls or inputs.

## Model

| member | source | states |
|---|---|---|
| ReverseProxyMiddleware.IsDomain | src/ST.Client.ReverseProxy.Yarp/Services.Implementation/HttpServer/Middleware/HttpReverseProxyMiddleware.cs:106 | a host looks like a domain name if and only if the IP parser rejects it and some position of it holds a `.` |
| ReverseProxyMiddleware.IsDomainByScan | src/ST.Client.ReverseProxy.Yarp/Services.Implementation/HttpServer/Middleware/HttpReverseProxyMiddleware.cs:106 | the IP test followed by a left-to-right search for a dot that stops at the first one gives exactly `IsDomain` |
| ReverseProxyMiddleware.TryGetDomainConfig | src/ST.Client.ReverseProxy.Yarp/Services.Implementation/HttpServer/Middleware/HttpReverseProxyMiddleware.cs:81-99 | a stored configuration is returned as found with no warning; a store miss with the platform flag and a domain-like parsed host returns the default configuration with a warning naming that host, and a warning only ever accompanies the default configuration; the URI parser's failure happens exactly when the store has nothing and the parser rejects the URL, whatever the platform flag; nothing is found exactly when the store has nothing, the URL parses, and not (platform flag and its host looks like a domain) |
| ReverseProxyMiddleware.GetDestinationPrefix | src/ST.Client.ReverseProxy.Yarp/Services.Implementation/HttpServer/Middleware/HttpReverseProxyMiddleware.cs:115-127 | without a destination the prefix is `{scheme}://{host}/` with the full Host header; with one it is the destination resolved against that base; a mapping is logged if and only if there is a destination, and it maps the base to the result |
| ReverseProxyMiddleware.RewriteUserAgent | src/ST.Client.ReverseProxy.Yarp/Services.Implementation/HttpServer/Middleware/HttpReverseProxyMiddleware.cs:61-64 | an absent or empty template leaves the original User-Agent unchanged |
| ReverseProxyMiddleware.HandleError | src/ST.Client.ReverseProxy.Yarp/Services.Implementation/HttpServer/Middleware/HttpReverseProxyMiddleware.cs:135-147 | no body exactly when forwarding succeeded or the response has started; otherwise one body with the error's name and the exception message |
| ReverseProxyMiddleware.Invoke | src/ST.Client.ReverseProxy.Yarp/Services.Implementation/HttpServer/Middleware/HttpReverseProxyMiddleware.cs:44-79 | a pass-through or a URI parser failure carries no warning; a redirect only happens with the upgrade flag on and scheme `http`; the HTTP client is created for the host name without port |
| IgnoreCaseReplace.Replace | src/ST.Client.ReverseProxy.Yarp/Services.Implementation/HttpServer/Middleware/HttpReverseProxyMiddleware.cs:63 | defines the left-to-right, non-overlapping, ASCII-case-insensitive replacement whose inserted text is not rescanned (the lemmas below prove those properties); its contract: a replacement no shorter than the pattern never shortens the string, and one no longer never lengthens it |
| IgnoreCaseReplace.IndexOf | src/ST.Client.ReverseProxy.Yarp/Services.Implementation/HttpServer/Middleware/HttpReverseProxyMiddleware.cs:63 | returns the first case-insensitive occurrence at or after the start, or -1 exactly when there is none |
| IgnoreCaseReplace.ReplaceAll | src/ST.Client.ReverseProxy.Yarp/Services.Implementation/HttpServer/Middleware/HttpReverseProxyMiddleware.cs:63 | the search-and-copy replacement algorithm computes exactly the left-to-right, non-overlapping replacement |
| IgnoreCaseReplace.ReplaceCopiesFreeText | src/ST.Client.ReverseProxy.Yarp/Services.Implementation/HttpServer/Middleware/HttpReverseProxyMiddleware.cs:63 | text in which no occurrence starts is copied verbatim into the result |
| IgnoreCaseReplace.ReplaceAtOccurrence | src/ST.Client.ReverseProxy.Yarp/Services.Implementation/HttpServer/Middleware/HttpReverseProxyMiddleware.cs:63 | an occurrence becomes the replacement text and scanning resumes right after the occurrence |
| IgnoreCaseReplace.ReplaceUpToOccurrence | src/ST.Client.ReverseProxy.Yarp/Services.Implementation/HttpServer/Middleware/HttpReverseProxyMiddleware.cs:63 | from a position to the next occurrence: the free text, then the replacement, then the replacement of the rest |
| IgnoreCaseReplace.ReplaceWithoutOccurrence | src/ST.Client.ReverseProxy.Yarp/Services.Implementation/HttpServer/Middleware/HttpReverseProxyMiddleware.cs:63 | a string with no occurrence is returned unchanged |
| IgnoreCaseReplace.ReplaceWholeOccurrence | src/ST.Client.ReverseProxy.Yarp/Services.Implementation/HttpServer/Middleware/HttpReverseProxyMiddleware.cs:63 | a string that is one occurrence in any case becomes exactly the replacement |
| IgnoreCaseReplace.ReplaceNotRescanned | src/ST.Client.ReverseProxy.Yarp/Services.Implementation/HttpServer/Middleware/HttpReverseProxyMiddleware.cs:63 | whatever the replacement contains, it is inserted literally and only the text after the occurrence is scanned further |
| IgnoreCaseReplace.ReplaceBySelfIsIdentity | src/ST.Client.ReverseProxy.Yarp/Services.Implementation/HttpServer/Middleware/HttpReverseProxyMiddleware.cs:63 | round trip: when every occurrence is spelled exactly like the pattern, replacing the pattern by itself returns the input |
| MiddlewareProperties.DecisionTable | src/ST.Client.ReverseProxy.Yarp/Services.Implementation/HttpServer/Middleware/HttpReverseProxyMiddleware.cs:46-78 | each of the five actions happens if and only if its condition holds: the parser rejected the URL on a store miss; no match; match with a response; match without response, upgrade on and `http`; match without response otherwise; the lookup's warning is the decision's |
| MiddlewareProperties.PassThroughWhenUnconfigured | src/ST.Client.ReverseProxy.Yarp/Services.Implementation/HttpServer/Middleware/HttpReverseProxyMiddleware.cs:46-49 | pass-through if and only if the store has nothing, the URL parses and the fallback does not fire, and then the decision is exactly a bare pass-through with no warning |
| MiddlewareProperties.InvalidDisplayUrlFails | src/ST.Client.ReverseProxy.Yarp/Services.Implementation/HttpServer/Middleware/HttpReverseProxyMiddleware.cs:83-90 | on a store miss a display URL the parser rejects makes the middleware fail, with no warning, if and only if that happens, and the decision does not depend on the flags, the forwarding outcome or the started flag (the parse at line 88 comes before the platform check at line 90) |
| MiddlewareProperties.RegisteredConfigIsUsed | src/ST.Client.ReverseProxy.Yarp/Services.Implementation/HttpServer/Middleware/HttpReverseProxyMiddleware.cs:83-86 | a stored configuration matches the request without a warning, its response decides static-versus-not, and a forward hands it to the client factory |
| MiddlewareProperties.PollutionFallbackUsesDefault | src/ST.Client.ReverseProxy.Yarp/Services.Implementation/HttpServer/Middleware/HttpReverseProxyMiddleware.cs:19 | with no stored configuration, the platform flag and a URL whose parsed host is domain-like: a warning naming the host, the default configuration (SNI on, no destination, response or template), and a redirect or a forward to the request's own prefix with the User-Agent untouched |
| MiddlewareProperties.IsDomainExactly | src/ST.Client.ReverseProxy.Yarp/Services.Implementation/HttpServer/Middleware/HttpReverseProxyMiddleware.cs:106 | a host without a dot or accepted by the IP parser is not a domain; any other host is |
| MiddlewareProperties.StaticResponseAsConfigured | src/ST.Client.ReverseProxy.Yarp/Services.Implementation/HttpServer/Middleware/HttpReverseProxyMiddleware.cs:70-78 | a configured response is emitted with its status and content type, with a body if and only if a content value is set, and that body is the content value |
| MiddlewareProperties.StaticResponseIgnoresSchemeAndUpgrade | src/ST.Client.ReverseProxy.Yarp/Services.Implementation/HttpServer/Middleware/HttpReverseProxyMiddleware.cs:50 | once the matched configuration has a response, changing scheme, upgrade flag, forwarding outcome or started flag does not change the decision, for the same store lookup (display URL held fixed, although in the program it contains the scheme) |
| MiddlewareProperties.RedirectLocationAsWritten | src/ST.Client.ReverseProxy.Yarp/Services.Implementation/HttpServer/Middleware/HttpReverseProxyMiddleware.cs:53-56 | no response, upgrade on and scheme `http`: the action is a redirect to exactly `"https" + host name + raw URL`, so nothing is forwarded |
| MiddlewareProperties.RedirectIgnoresPort | src/ST.Client.ReverseProxy.Yarp/Services.Implementation/HttpServer/Middleware/HttpReverseProxyMiddleware.cs:55 | a redirect decision is the same whatever the port of the Host header, for the same store lookup (display URL held fixed, although in the program it contains the port) |
| MiddlewareProperties.BasePrefixDeterminesHost | src/ST.Client.ReverseProxy.Yarp/Services.Implementation/HttpServer/Middleware/HttpReverseProxyMiddleware.cs:117 | equal request prefixes for one scheme come from equal full Host header values |
| MiddlewareProperties.PortChangesHostValue | src/ST.Client.ReverseProxy.Yarp/Services.Implementation/HttpServer/Middleware/HttpReverseProxyMiddleware.cs:117 | two different ports, or a port and none, give different Host header values |
| MiddlewareProperties.ForwardPrefixKeepsPort | src/ST.Client.ReverseProxy.Yarp/Services.Implementation/HttpServer/Middleware/HttpReverseProxyMiddleware.cs:59 | forwarding without a destination stays a forward when the port changes, and the prefix changes with it, for the same store lookup (display URL held fixed, although in the program it contains the port) |
| MiddlewareProperties.UpgradeFlagOnlyAddsRedirects | src/ST.Client.ReverseProxy.Yarp/Services.Implementation/HttpServer/Middleware/HttpReverseProxyMiddleware.cs:53 | with the upgrade flag off there is never a redirect; turning it on either changes nothing or turns a forward into a redirect, with the same warning |
| MiddlewareProperties.FallbackFlagOnlyAddsMatches | src/ST.Client.ReverseProxy.Yarp/Services.Implementation/HttpServer/Middleware/HttpReverseProxyMiddleware.cs:90 | with the platform flag off there is never a warning; turning it on either changes nothing or turns a bare pass-through into a warned, matched decision |
| MiddlewareProperties.OutcomeOnlyReachesErrorBody | src/ST.Client.ReverseProxy.Yarp/Services.Implementation/HttpServer/Middleware/HttpReverseProxyMiddleware.cs:66-68 | the forwarding outcome and started flag change nothing but the error body of a forward |
| MiddlewareProperties.ErrorBodyOnlyAfterFailedForward | src/ST.Client.ReverseProxy.Yarp/Services.Implementation/HttpServer/Middleware/HttpReverseProxyMiddleware.cs:137-146 | a forward carries an error body if and only if forwarding failed and the response had not started, and the body names the error and carries the exception message |
| MiddlewareProperties.ForwardUsesConfig | src/ST.Client.ReverseProxy.Yarp/Services.Implementation/HttpServer/Middleware/HttpReverseProxyMiddleware.cs:59-63 | a forward happens only for a configuration without response, passes that configuration to the client factory, targets the request's prefix or the destination resolved against it, and sends the rewritten User-Agent |
| MiddlewareProperties.UserAgentTemplateWithoutPlaceholder | src/ST.Client.ReverseProxy.Yarp/Services.Implementation/HttpServer/Middleware/HttpReverseProxyMiddleware.cs:61-64 | a non-empty template with no `${origin}` in any case is sent as it is, replacing the original header |
| MiddlewareProperties.UserAgentPlaceholderOnly | src/ST.Client.ReverseProxy.Yarp/Services.Implementation/HttpServer/Middleware/HttpReverseProxyMiddleware.cs:63 | a template that is `${origin}` in any case yields the original header verbatim |
| MiddlewareProperties.UserAgentNotRescanned | src/ST.Client.ReverseProxy.Yarp/Services.Implementation/HttpServer/Middleware/HttpReverseProxyMiddleware.cs:63 | a template starting with the placeholder yields the original header followed by the rewrite of the rest, even if the original header contains the placeholder |
| MiddlewareProperties.UserAgentPrefixThenPlaceholder | src/ST.Client.ReverseProxy.Yarp/Services.Implementation/HttpServer/Middleware/HttpReverseProxyMiddleware.cs:63 | text without `$` followed by the placeholder in any case yields that text followed by the original header |
| MiddlewareProperties.UserAgentExample | src/ST.Client.ReverseProxy.Yarp/Services.Implementation/HttpServer/Middleware/HttpReverseProxyMiddleware.cs:63 | `MyBot/${origin}` with `curl/8.0` gives `MyBot/curl/8.0` |
| MiddlewareProperties.UserAgentExampleUpperCase | src/ST.Client.ReverseProxy.Yarp/Services.Implementation/HttpServer/Middleware/HttpReverseProxyMiddleware.cs:63 | `MyBot/${ORIGIN}` with `curl/8.0` also gives `MyBot/curl/8.0` |

## Left out

- The forwarding itself (`IHttpForwarder.SendAsync`), the HTTP client factory, `ForwarderRequestConfig` and `HttpTransformer`: network I/O in outside libraries. The `Forward` action records what they are given (prefix, host name, configuration, User-Agent); the forwarder's result is an input.
- `ForwarderError`: its enumeration belongs to the forwarding library and is not part of this model; a failure carries the name its `ToString()` gives.
- The async `Task` plumbing, `HttpContext`, response-stream writes, JSON serialisation and logging: results are data in the returned `Decision`; the 302 status set by `Response.Redirect` is implied by the `RedirectToHttps` action.
- `IPAddress.TryParse`, `new Uri(url).Host` (whose exception is modelled as `None`) and `new Uri(baseUri, destination)` (reference resolution per section 5.2 of RFC 3986): library parsing, given as the functions `isIpLiteral`, `uriHost` and `resolveReference`; so no particular resolution result (relative or absolute destination) is proved.
- A `UriFormatException` from building the base or resolved URI in `GetDestinationPrefix` (lines 123-124): resolution is total in the model. The exception from parsing the display URL at line 88 is modelled.
- `OperatingSystem.IsWindows()` and `IReverseProxyService.Instance.EnableHttpProxyToHttps`: the booleans `Flags.pollutionFallback` and `Flags.httpToHttps`.
- `GetDisplayUrl()`, `RawUrl()` and the multi-valued `StringValues` User-Agent header: single opaque strings; a missing header is the empty string (replacing by `null` removes the placeholder, as the empty string does).
- The configuration store's internals and URL-to-domain matching: the function `tryGetDomainConfig`. Configuration fields the middleware does not read (consumed only by the client factory) are not modelled.
- The destination prefix uses the Host header text as it is (`HostString.Value`, `host[:port]`); the program's `{host}` interpolation (`ToString()`, which calls `ToUriComponent()`) gives the punycode form of an internationalised host name, which the model does not produce.
- Non-ASCII case folding of `OrdinalIgnoreCase`: `IgnoreCaseReplace` folds ASCII letters only. Since .NET 5, ordinal casing maps U+0130, U+0131 and U+017F to themselves, so no non-ASCII character compares equal to an ASCII letter, and ASCII folding decides every match against the all-ASCII `${origin}` exactly; only patterns with non-ASCII letters, which the middleware never uses, would need the full table.
- The mutation of the incoming request's User-Agent header in place: the rewritten value is the `userAgent` field of the `Forward` action, and the original stays an input.
