/**
 Properties of the middleware's decision that relate several calls or
 several inputs: the decision table, flag monotonicity, what the host's
 port does to each URL, and the User-Agent rewrite on concrete templates.
 */
module MiddlewareProperties {
  import opened Wrappers
  import opened ProxyModels
  import opened ReverseProxyMiddleware
  import IgnoreCaseReplace

  /**
   Exactly one terminal action per request, chosen in the program's order:
   a display URL the parser rejects on a store miss fails, no configuration
   passes through, a configured response wins over everything else, then the
   HTTPS upgrade, and forwarding otherwise.
   */
  lemma DecisionTable(env: Collaborators, flags: Flags, req: Request, outcome: ForwardOutcome, hasStarted: bool)
    ensures var r := TryGetDomainConfig(env, flags, req.displayUrl);
            var d := Invoke(env, flags, req, outcome, hasStarted);
            && (d.action.UriFormatFailure? <==> r.InvalidUri?)
            && (d.action.PassThrough? <==> r.NotFound?)
            && (d.action.EmitStaticResponse? <==> r.Found? && r.config.response.Some?)
            && (d.action.RedirectToHttps? <==>
                  r.Found? && r.config.response.None? && flags.httpToHttps && req.scheme == UriSchemeHttp)
            && (d.action.Forward? <==>
                  r.Found? && r.config.response.None? && !(flags.httpToHttps && req.scheme == UriSchemeHttp))
            && (r.Found? ==> d.warning == r.warning)
  {
  }

  /**
   Pass-through happens exactly when the store has no configuration and the
   DNS-pollution fallback does not fire; then nothing else happens: no
   warning, no redirect, no forward, no body.
   */
  lemma PassThroughWhenUnconfigured(env: Collaborators, flags: Flags, req: Request, outcome: ForwardOutcome, hasStarted: bool)
    ensures var d := Invoke(env, flags, req, outcome, hasStarted);
            d.action.PassThrough? <==>
              && env.tryGetDomainConfig(req.displayUrl).None?
              && env.uriHost(req.displayUrl).Some?
              && !(flags.pollutionFallback && IsDomain(env, env.uriHost(req.displayUrl).value))
    ensures var d := Invoke(env, flags, req, outcome, hasStarted);
            d.action.PassThrough? ==> d == Decision(None, PassThrough)
  {
  }

  /**
   On a store miss the display URL is parsed before the platform flag is
   read: a URL the parser rejects (such as `http:///` from a request without
   a Host header) makes the middleware fail with no warning, whatever the
   flags, the forwarding outcome and the started flag are; a store hit never
   parses the URL.
   */
  lemma InvalidDisplayUrlFails(
    env: Collaborators, flags: Flags, req: Request, outcome: ForwardOutcome, hasStarted: bool,
    flags': Flags, outcome': ForwardOutcome, hasStarted': bool)
    ensures var d := Invoke(env, flags, req, outcome, hasStarted);
            d.action.UriFormatFailure? <==>
              env.tryGetDomainConfig(req.displayUrl).None? && env.uriHost(req.displayUrl).None?
    ensures var d := Invoke(env, flags, req, outcome, hasStarted);
            d.action.UriFormatFailure? ==>
              && d == Decision(None, UriFormatFailure)
              && Invoke(env, flags', req, outcome', hasStarted') == d
  {
  }

  /** A configuration from the store is the one used, and no warning is logged. */
  lemma RegisteredConfigIsUsed(env: Collaborators, flags: Flags, req: Request, outcome: ForwardOutcome, hasStarted: bool, config: DomainConfig)
    requires env.tryGetDomainConfig(req.displayUrl) == Some(config)
    ensures var d := Invoke(env, flags, req, outcome, hasStarted);
            && d.warning.None?
            && !d.action.PassThrough?
            && (config.response.Some? <==> d.action.EmitStaticResponse?)
            && (d.action.Forward? ==> d.action.clientConfig == config)
  {
  }

  /**
   The DNS-pollution fallback: no stored configuration, the platform flag
   set and a host that looks like a domain name give a warning naming the
   host and the default configuration (SNI on, no destination, no response,
   no User-Agent template), so the request is redirected or forwarded to its
   own prefix with its User-Agent untouched.
   */
  lemma PollutionFallbackUsesDefault(env: Collaborators, flags: Flags, req: Request, outcome: ForwardOutcome, hasStarted: bool)
    requires env.tryGetDomainConfig(req.displayUrl).None?
    requires flags.pollutionFallback
    requires env.uriHost(req.displayUrl).Some?
    requires IsDomain(env, env.uriHost(req.displayUrl).value)
    ensures DefaultDomainConfig.tlsSni
    ensures DefaultDomainConfig.destination.None? && DefaultDomainConfig.response.None?
    ensures DefaultDomainConfig.userAgent.None?
    ensures var d := Invoke(env, flags, req, outcome, hasStarted);
            && d.warning == Some(env.uriHost(req.displayUrl).value)
            && (d.action.RedirectToHttps? || d.action.Forward?)
            && (d.action.Forward? ==>
                  && d.action.prefix == DestinationPrefix(BasePrefix(req.scheme, req.host), None)
                  && d.action.clientConfig == DefaultDomainConfig
                  && d.action.userAgent == req.userAgent)
  {
  }

  /**
   A host without a dot, or one the IP-address parser accepts, never looks
   like a domain name; any other host does.
   */
  lemma IsDomainExactly(env: Collaborators, host: string)
    ensures '.' !in host ==> !IsDomain(env, host)
    ensures env.isIpLiteral(host) ==> !IsDomain(env, host)
    ensures !env.isIpLiteral(host) && '.' in host ==> IsDomain(env, host)
  {
  }

  /**
   A configured response is emitted as configured: status and content type
   from the configuration, a body exactly when a content value is set.
   */
  lemma StaticResponseAsConfigured(env: Collaborators, flags: Flags, req: Request, outcome: ForwardOutcome, hasStarted: bool, config: DomainConfig)
    requires env.tryGetDomainConfig(req.displayUrl) == Some(config)
    requires config.response.Some?
    ensures var d := Invoke(env, flags, req, outcome, hasStarted);
            && d.action.EmitStaticResponse?
            && d.action.statusCode == config.response.value.statusCode
            && d.action.contentType == config.response.value.contentType
            && (d.action.body.Some? <==> config.response.value.contentValue.Some?)
            && (d.action.body.Some? ==> d.action.body.value == config.response.value.contentValue.value)
  {
  }

  /**
   Precedence of the configured response: changing the scheme, the upgrade
   flag, the forwarding outcome or whether the response started changes
   nothing. The display URL is held fixed, so both requests get the same
   store lookup (in the program the display URL itself contains the scheme).
   */
  lemma StaticResponseIgnoresSchemeAndUpgrade(
    env: Collaborators, flags: Flags, req: Request, outcome: ForwardOutcome, hasStarted: bool,
    scheme': string, httpToHttps': bool, outcome': ForwardOutcome, hasStarted': bool)
    requires TryGetDomainConfig(env, flags, req.displayUrl).Found?
    requires TryGetDomainConfig(env, flags, req.displayUrl).config.response.Some?
    ensures Invoke(env, flags.(httpToHttps := httpToHttps'), req.(scheme := scheme'), outcome', hasStarted')
         == Invoke(env, flags, req, outcome, hasStarted)
  {
  }

  /**
   The HTTPS upgrade: with no configured response, the flag on and a plain
   HTTP request, the location is literally "https" followed by the host name
   (without port) and the raw URL, and nothing is forwarded.
   */
  lemma RedirectLocationAsWritten(env: Collaborators, flags: Flags, req: Request, outcome: ForwardOutcome, hasStarted: bool)
    requires TryGetDomainConfig(env, flags, req.displayUrl).Found?
    requires TryGetDomainConfig(env, flags, req.displayUrl).config.response.None?
    requires flags.httpToHttps && req.scheme == "http"
    ensures var d := Invoke(env, flags, req, outcome, hasStarted);
            d.action == RedirectToHttps("https" + req.host.host + req.rawUrl)
  {
  }

  /**
   The redirect location ignores the port of the Host header. The display URL
   is held fixed, so both requests get the same store lookup (in the program
   the display URL itself contains the full Host header).
   */
  lemma RedirectIgnoresPort(env: Collaborators, flags: Flags, req: Request, outcome: ForwardOutcome, hasStarted: bool, port': Option<string>)
    requires Invoke(env, flags, req, outcome, hasStarted).action.RedirectToHttps?
    ensures Invoke(env, flags, req.(host := req.host.(port := port')), outcome, hasStarted)
         == Invoke(env, flags, req, outcome, hasStarted)
  {
  }

  /** The request's own prefix determines the full Host header, port included. */
  lemma {:induction false} BasePrefixDeterminesHost(scheme: string, h1: HostString, h2: HostString)
    requires BasePrefix(scheme, h1) == BasePrefix(scheme, h2)
    ensures h1.Value() == h2.Value()
  {
    var a, b := h1.Value(), h2.Value();
    var n := |scheme| + 3;
    assert |a| == |b|;
    assert BasePrefix(scheme, h1)[n..n + |a|] == a;
    assert BasePrefix(scheme, h2)[n..n + |b|] == b;
  }

  /** Two ports, or a port and none, give different Host header values. */
  lemma PortChangesHostValue(host: string, p1: Option<string>, p2: Option<string>)
    requires p1 != p2
    ensures HostString(host, p1).Value() != HostString(host, p2).Value()
  {
    var v1, v2 := HostString(host, p1).Value(), HostString(host, p2).Value();
    if p1.Some? && p2.Some? {
      assert v1[|host| + 1..] == p1.value;
      assert v2[|host| + 1..] == p2.value;
    } else if p1.Some? {
      assert |v1| > |v2|;
    } else {
      assert |v2| > |v1|;
    }
  }

  /**
   Unlike the redirect, forwarding to the request's own prefix keeps the
   port: changing the port of the Host header changes the prefix. The display
   URL is held fixed, so both requests get the same store lookup (in the
   program the display URL itself contains the full Host header).
   */
  lemma ForwardPrefixKeepsPort(env: Collaborators, flags: Flags, req: Request, outcome: ForwardOutcome, hasStarted: bool, port': Option<string>)
    requires Invoke(env, flags, req, outcome, hasStarted).action.Forward?
    requires TryGetDomainConfig(env, flags, req.displayUrl).config.destination.None?
    requires port' != req.host.port
    ensures var d' := Invoke(env, flags, req.(host := req.host.(port := port')), outcome, hasStarted);
            d'.action.Forward? &&
            d'.action.prefix.value != Invoke(env, flags, req, outcome, hasStarted).action.prefix.value
  {
    var h' := req.host.(port := port');
    PortChangesHostValue(req.host.host, req.host.port, port');
    if BasePrefix(req.scheme, h') == BasePrefix(req.scheme, req.host) {
      BasePrefixDeterminesHost(req.scheme, h', req.host);
    }
  }

  /** Turning the upgrade flag on only turns some decisions into redirects. */
  lemma UpgradeFlagOnlyAddsRedirects(env: Collaborators, flags: Flags, req: Request, outcome: ForwardOutcome, hasStarted: bool)
    ensures var off := Invoke(env, flags.(httpToHttps := false), req, outcome, hasStarted);
            var on := Invoke(env, flags.(httpToHttps := true), req, outcome, hasStarted);
            && !off.action.RedirectToHttps?
            && (on == off || (on.action.RedirectToHttps? && off.action.Forward? && on.warning == off.warning))
  {
  }

  /**
   Turning the platform flag on only turns some pass-throughs into matched
   requests, each with a warning.
   */
  lemma FallbackFlagOnlyAddsMatches(env: Collaborators, flags: Flags, req: Request, outcome: ForwardOutcome, hasStarted: bool)
    ensures var off := Invoke(env, flags.(pollutionFallback := false), req, outcome, hasStarted);
            var on := Invoke(env, flags.(pollutionFallback := true), req, outcome, hasStarted);
            && off.warning.None?
            && (on == off || (off == Decision(None, PassThrough) && on.warning.Some?))
  {
  }

  /**
   The forwarding outcome and the started flag only reach the error body of
   a forward; every other part of the decision is the same.
   */
  lemma OutcomeOnlyReachesErrorBody(
    env: Collaborators, flags: Flags, req: Request,
    o1: ForwardOutcome, h1: bool, o2: ForwardOutcome, h2: bool)
    ensures var d1 := Invoke(env, flags, req, o1, h1);
            var d2 := Invoke(env, flags, req, o2, h2);
            && d1.warning == d2.warning
            && (d1.action.Forward? <==> d2.action.Forward?)
            && (!d1.action.Forward? ==> d1 == d2)
            && (d1.action.Forward? ==> d1.action.(errorBody := None) == d2.action.(errorBody := None))
  {
  }

  /**
   A diagnostic body is written only by a failed forward whose response had
   not started, and then it names the error and carries the exception message.
   */
  lemma ErrorBodyOnlyAfterFailedForward(env: Collaborators, flags: Flags, req: Request, outcome: ForwardOutcome, hasStarted: bool)
    ensures var d := Invoke(env, flags, req, outcome, hasStarted);
            d.action.Forward? && d.action.errorBody.Some? <==>
              d.action.Forward? && outcome.error.Failed? && !hasStarted
    ensures var d := Invoke(env, flags, req, outcome, hasStarted);
            d.action.Forward? && d.action.errorBody.Some? ==>
              d.action.errorBody.value == ErrorBody(outcome.error.name, outcome.exceptionMessage)
  {
  }

  /** The forward path uses the configured destination and User-Agent template. */
  lemma ForwardUsesConfig(env: Collaborators, flags: Flags, req: Request, outcome: ForwardOutcome, hasStarted: bool)
    requires Invoke(env, flags, req, outcome, hasStarted).action.Forward?
    ensures var d := Invoke(env, flags, req, outcome, hasStarted);
            var config := TryGetDomainConfig(env, flags, req.displayUrl).config;
            && config.response.None?
            && d.action.clientConfig == config
            && (config.destination.None? ==> d.action.prefix.value == BasePrefix(req.scheme, req.host))
            && (config.destination.Some? ==>
                  d.action.prefix.value == env.resolveReference(BasePrefix(req.scheme, req.host), config.destination.value))
            && d.action.userAgent == RewriteUserAgent(config.userAgent, req.userAgent)
  {
  }

  /** A non-empty template without the placeholder is sent as it is, ignoring the original value. */
  lemma UserAgentTemplateWithoutPlaceholder(template: string, original: string)
    requires template != ""
    requires IgnoreCaseReplace.NoMatchIn(template, OriginPlaceholder, 0, |template|)
    ensures RewriteUserAgent(Some(template), original) == template
  {
    IgnoreCaseReplace.ReplaceWithoutOccurrence(template, OriginPlaceholder, original);
  }

  /** A template that is just the placeholder, in any case, yields the original value verbatim. */
  lemma UserAgentPlaceholderOnly(template: string, original: string)
    requires IgnoreCaseReplace.EqualsIgnoreCase(template, OriginPlaceholder)
    ensures RewriteUserAgent(Some(template), original) == original
  {
    IgnoreCaseReplace.ReplaceWholeOccurrence(template, OriginPlaceholder, original);
  }

  /**
   The inserted original value is not rescanned, even when it contains the
   placeholder itself.
   */
  lemma UserAgentNotRescanned(p: string, rest: string, original: string)
    requires IgnoreCaseReplace.EqualsIgnoreCase(p, OriginPlaceholder)
    ensures RewriteUserAgent(Some(p + rest), original)
         == original + IgnoreCaseReplace.Replace(rest, OriginPlaceholder, original)
  {
    IgnoreCaseReplace.ReplaceNotRescanned(p, rest, OriginPlaceholder, original);
  }

  /**
   A template made of text without `$` followed by the placeholder, in any
   case, yields that text followed by the original value.
   */
  lemma UserAgentPrefixThenPlaceholder(text: string, p: string, original: string)
    requires '$' !in text
    requires IgnoreCaseReplace.EqualsIgnoreCase(p, OriginPlaceholder)
    ensures RewriteUserAgent(Some(text + p), original) == text + original
  {
    var s, pat := text + p, OriginPlaceholder;
    forall k: nat | k < |text|
      ensures !IgnoreCaseReplace.MatchesAt(s, pat, k)
    {
      assert s[k + 0] == text[k];
      assert IgnoreCaseReplace.FoldAscii(s[k + 0]) != IgnoreCaseReplace.FoldAscii(pat[0]);
    }
    assert IgnoreCaseReplace.MatchesAt(s, pat, |text|) by {
      forall j | 0 <= j < |pat|
        ensures IgnoreCaseReplace.FoldAscii(s[|text| + j]) == IgnoreCaseReplace.FoldAscii(pat[j])
      {
        assert s[|text| + j] == p[j];
      }
    }
    IgnoreCaseReplace.ReplaceUpToOccurrence(s, pat, original, 0, |text|);
    assert s[0..] == s && s[0..|text|] == text && s[|text| + |pat|..] == "";
  }

  /** `MyBot/${origin}` with `curl/8.0` gives `MyBot/curl/8.0`. */
  lemma UserAgentExample()
    ensures RewriteUserAgent(Some("MyBot/" + "${origin}"), "curl/8.0") == "MyBot/" + "curl/8.0"
  {
    assert IgnoreCaseReplace.EqualsIgnoreCase(OriginPlaceholder, OriginPlaceholder);
    UserAgentPrefixThenPlaceholder("MyBot/", "${origin}", "curl/8.0");
  }

  /** The placeholder matches in any case: `MyBot/${ORIGIN}` gives the same result. */
  lemma UserAgentExampleUpperCase()
    ensures RewriteUserAgent(Some("MyBot/" + "${ORIGIN}"), "curl/8.0") == "MyBot/" + "curl/8.0"
  {
    UpperCasePlaceholderMatches();
    UserAgentPrefixThenPlaceholder("MyBot/", "${ORIGIN}", "curl/8.0");
  }

  /** `${ORIGIN}` equals the placeholder up to ASCII case. */
  lemma UpperCasePlaceholderMatches()
    ensures IgnoreCaseReplace.EqualsIgnoreCase("${ORIGIN}", OriginPlaceholder)
  {
    forall k | 0 <= k < 9
      ensures IgnoreCaseReplace.FoldAscii("${ORIGIN}"[k]) == IgnoreCaseReplace.FoldAscii(OriginPlaceholder[k])
    {
    }
  }
}
