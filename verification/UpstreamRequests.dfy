/** From a request that was read to the head that goes upstream, and what the printers can object to on the way. */
module UpstreamRequests {
  import opened Bytes
  import opened CanonicalHead
  import CanonicalHeadPath
  import D = Decimals
  import HeadReading
  import HeadRoundTrip
  import HostSpelling
  import opened HeaderSection
  import opened HopByHop
  import opened Http
  import L = RequestLineDirect
  import N = RequestTarget
  import PrintableRequests
  import PrintedBlock
  import opened UpstreamHeaders
  import opened UpstreamTarget

  /** What the selected route says about the upstream request. */
  datatype Route = Route(matched: Bytes, replacement: Option<Bytes>, configured: seq<Configured>, hostOnly: bool)

  predicate ValidRoute(route: Route) {
    && ConfigPath(route.matched) && (route.replacement.Some? ==> ConfigPath(route.replacement.value))
    && ValidConfigured(route.configured)
  }

  function UpstreamAuthority(authority: EffectiveAuthority, hostOnly: bool): EffectiveAuthority {
    if hostOnly then authority.(port := None) else authority
  }

  /** The body goes upstream with its length, whatever its framing was. */
  function UpstreamFraming(body: Bytes): BodyFraming {
    if body == [] then NoBody else ContentLength(|body|)
  }

  /** The steps between removal and printing. */
  function UpstreamModel(request: HeadReading.Request, target: NormalizedTarget, authority: EffectiveAuthority,
                         sanitized: SanitizedHeaders, body: Bytes, forwarding: ForwardingResult, route: Route): Outcome<Model>
  {
    var fields :- Applied(Except(sanitized.fields, {EXPECT}), route.configured, |route.configured|, request.line.verb);
    var upstream :- RewriteTarget(target, route.matched, route.replacement);
    Done(Model(request.line.verb, upstream, UpstreamAuthority(authority, route.hostOnly),
               SanitizedHeaders(fields, sanitized.removedNames), UpstreamFraming(body), forwarding))
  }

  /** What the printers still decide about the headers. */
  predicate HeadersFit(fields: seq<HeaderField>, model: Model, route: Route) {
    && PrintableRequests.ShortNominations(fields) && AppliedFit(route.configured, |route.configured|, model.verb)
    && |model.headers.fields| <= FIELD_COUNT_MAX
  }

  /** What the printers still decide about the authority and the forwarding values. */
  predicate SourceFits(model: Model, ipv6: Ipv6) {
    && model.authority.port != Some(0) && HostOf(model.authority.host, ipv6).Some?
    && FormOk(model.target, HostOf(model.authority.host, ipv6).value, model.authority.port, ipv6)
    && ForwardingOk(model.forwarding)
  }

  lemma ReadVerbIsPrintable(head: Bytes)
    requires L.Parse(head).Ok?
    ensures VerbOk(L.Parse(head).value.verb)
  {
    var line := L.Parse(head).value;
    L.ParserIsGrammar(head, line);
    PrintableRequests.LoweringTokens(head[..|line.verb|]);
  }

  /** The headers can be printed exactly when the nominated names are short, the configured headers fit and there are
      not too many fields. */
  lemma HeadersOfUpstream(section: Bytes, sanitized: SanitizedHeaders, configured: seq<Configured>, verb: Bytes)
    requires ParseSection(section).Ok? && Sanitized(ParseSection(section).value.fields, Ok(sanitized))
    requires ValidConfigured(configured)
    ensures var r := Applied(Except(sanitized.fields, {EXPECT}), configured, |configured|, verb);
      && (r.Done? <==> AllRendered(configured, |configured|, verb))
      && (r.Done? ==> (HeadersOk(SanitizedHeaders(r.value, sanitized.removedNames)) <==>
            && PrintableRequests.ShortNominations(ParseSection(section).value.fields)
            && AppliedFit(configured, |configured|, verb) && |r.value| <= FIELD_COUNT_MAX))
  {
    hide ParseSection;
    hide Sanitized;
    hide PrintableRequests.ShortNominations;
    hide ValidConfigured;
    hide AllRendered;
    hide AppliedFit;
    hide Applied;
    hide Except;
    hide NamesOk;
    hide AllPass;
    PrintableRequests.SanitizedParts(section, Ok(sanitized));
    ExceptPasses(sanitized.fields, {EXPECT});
    AppliedPasses(Except(sanitized.fields, {EXPECT}), configured, verb);
  }

  /** The target can be printed exactly when the replacement, if there is one, fits. */
  lemma PathOfUpstream(target: NormalizedTarget, route: Route)
    requires PathOk(target.pathAndQuery, target.routingPath) && ValidRoute(route) && route.matched <= target.routingPath
    ensures var r := RewriteTarget(target, route.matched, route.replacement);
      && (r.Done? <==> ShortEnough(target, route))
      && (r.Done? ==> (PathOk(r.value.pathAndQuery, r.value.routingPath) <==>
            route.replacement.Some? ==> RewriteOk(target, route.matched, route.replacement.value)))
  {
    hide PathOk;
    hide ConfigPath;
    hide ValidConfigured;
    hide RewriteOk;
    assert route.replacement.Some? ==> route.replacement.value != [] by { ReplacementIsPath(route); }
    if route.replacement.Some? { RewrittenIsPrintable(target, route.matched, route.replacement.value); }
  }

  lemma ReplacementIsPath(route: Route)
    requires ValidRoute(route)
    ensures route.replacement.Some? ==> route.replacement.value != []
  {
    hide ValidConfigured;
  }

  /** Rewriting has a limit of its own for the new path. */
  predicate ShortEnough(target: NormalizedTarget, route: Route)
    requires route.matched <= target.routingPath
  {
    route.replacement.Some? ==> |route.replacement.value| + |Rest(target.routingPath, route.matched)| <= PATH_MAX
  }

  /** A request that was read, normalised and sanitised, and the route selected for it. */
  ghost predicate Selected(head: Bytes, target: NormalizedTarget, sanitized: SanitizedHeaders, body: Bytes, route: Route,
                           ipv6: Ipv6)
  {
    && HeadReading.ReadRequest(head).Ok?
    && var request := HeadReading.ReadRequest(head).value;
       && N.Normalize(request.line.verb, request.line.target, ipv6) == Ok(target)
       && (target.form.Origin? || target.form.Absolute?)
       && Sanitized(request.block.fields, Ok(sanitized))
       && |body| <= BODY_MAX && ValidRoute(route) && route.matched <= target.routingPath
  }

  /** A model is made exactly when the applied headers can be rendered and the new path is short enough. The printers
      then object to nothing but the authority, the forwarding values, over-long nominated names, configured headers
      that do not fit, too many fields, and a replacement that does not fit. */
  lemma UpstreamIsTrusted(head: Bytes, target: NormalizedTarget, authority: EffectiveAuthority, sanitized: SanitizedHeaders,
                          body: Bytes, forwarding: ForwardingResult, route: Route, ipv6: Ipv6)
    requires Selected(head, target, sanitized, body, route, ipv6)
    ensures var request := HeadReading.ReadRequest(head).value;
      var r := UpstreamModel(request, target, authority, sanitized, body, forwarding, route);
      && (r.Done? <==>
            AllRendered(route.configured, |route.configured|, request.line.verb) && ShortEnough(target, route))
      && (r.Done? ==> (Trusted(r.value, ipv6) <==>
            && SourceFits(r.value, ipv6) && HeadersFit(request.block.fields, r.value, route)
            && (route.replacement.Some? ==> RewriteOk(target, route.matched, route.replacement.value))))
  {
    hide L.Parse;
    hide ParseSection;
    hide N.Normalize;
    hide Sanitized;
    hide HeadersOk;
    hide VerbOk;
    hide PathOk;
    hide FormOk;
    hide HostOf;
    hide ForwardingOk;
    hide PrintableRequests.ShortNominations;
    hide ConfigPath;
    hide ValidConfigured;
    hide AllRendered;
    hide AppliedFit;
    hide Applied;
    hide Except;
    hide RewriteOk;
    hide RewriteTarget;
    hide ShortEnough;
    hide Rest;
    var request := HeadReading.ReadRequest(head).value;
    assert route.replacement.Some? ==> route.replacement.value != [] by { ReplacementIsPath(route); }
    ReadVerbIsPrintable(head);
    CanonicalHeadPath.NormalizedPathIsPrintable(request.line.verb, request.line.target, ipv6);
    HeadersOfUpstream(head[request.line.bytesConsumed..], sanitized, route.configured, request.line.verb);
    PathOfUpstream(target, route);
  }

  // ---------- what the upstream is told of the body ----------

  lemma ModelOf(request: HeadReading.Request, target: NormalizedTarget, authority: EffectiveAuthority,
                sanitized: SanitizedHeaders, body: Bytes, forwarding: ForwardingResult, route: Route)
    requires UpstreamModel(request, target, authority, sanitized, body, forwarding, route).Done?
    ensures var m := UpstreamModel(request, target, authority, sanitized, body, forwarding, route).value;
      && m.verb == request.line.verb && m.forwarding == forwarding
      && (body == [] ==> m.framing == NoBody) && (body != [] ==> m.framing == ContentLength(|body|))
  {
    hide Applied;
    hide RewriteTarget;
  }

  /** What a reader finds: this method, the length of this body, and no transfer coding. */
  ghost predicate Announces(read: Result<HeadReading.Request>, verb: Bytes, body: Bytes) {
    && read.Ok? && read.value.line.verb == verb
    && read.value.framing == (if body == [] then NoBody else ContentLength(|body|))
    && PrintedBlock.ValuesOf(read.value.block.fields, "content-length") == (if body == [] then [] else [D.Render(|body|)])
    && PrintedBlock.ValuesOf(read.value.block.fields, "transfer-encoding") == []
  }

  /** The head that goes upstream announces the method of the request and the body that was read, whatever framing the
      request came with. */
  lemma UpstreamHeadAnnouncesBody(request: HeadReading.Request, target: NormalizedTarget, authority: EffectiveAuthority,
                                  sanitized: SanitizedHeaders, body: Bytes, forwarding: ForwardingResult, route: Route,
                                  m: Model, head: Head, host: Host, ipv6: Ipv6)
    requires UpstreamModel(request, target, authority, sanitized, body, forwarding, route) == Done(m)
    requires Typed(m) && Construct(m, ipv6) == Ok(head) && HeadRoundTrip.AddressSyntax(ipv6)
    requires HostOf(m.authority.host, ipv6) == Some(host) && HeadReading.Readable(m, host)
    ensures Announces(HeadReading.ReadRequest(head.bytes), request.line.verb, body)
  {
    hide UpstreamModel;
    hide Typed;
    hide Construct;
    hide HeadReading.Readable;
    hide HeadReading.ReadRequest;
    hide HeadRoundTrip.AddressSyntax;
    hide HostOf;
    hide D.Render;
    hide PrintedBlock.ValuesOf;
    hide PrintedBlock.Others;
    hide PrintedBlock.HostValue;
    ModelOf(request, target, authority, sanitized, body, forwarding, route);
    HeadReading.PrintedHeadReadsBack(m, ipv6);
    PrintedBlock.PrintedHeadShowsModel(m, ipv6);
  }

  // ---------- the authority of an absolute target ----------

  /** Where the effective authority agrees with the target, dropping its port keeps them in agreement exactly when the
      target is rewritten, has no authority of its own, or names no port but the default. */
  lemma DroppingThePort(target: NormalizedTarget, authority: EffectiveAuthority, host: Host, route: Route, ipv6: Ipv6)
    requires FormOk(target, host, authority.port, ipv6)
    requires RewriteTarget(target, route.matched, route.replacement).Done?
    ensures var upstream := RewriteTarget(target, route.matched, route.replacement).value;
      FormOk(upstream, host, UpstreamAuthority(authority, route.hostOnly).port, ipv6) <==>
        route.replacement.Some? || target.form.Origin? || !route.hostOnly || authority.port.None?
  {
    hide TargetAuthority;
  }

  /** The inputs where it fails: an absolute target that names any other port, kept on a route that drops the port. */
  lemma DroppedPortUnprintable(name: Bytes, port: nat, path: Bytes, ipv6: Ipv6)
    requires LowerDnsName(name) && 0 < port < 65_536 && port != 80
    ensures var target := NormalizedTarget(Absolute, Some("http"), Some(name + ([':'] + D.Render(port))), path, path);
      FormOk(target, Name(name), Some(port), ipv6) && !FormOk(target, Name(name), None, ipv6)
  {
    HostSpelling.PortIsRead(name, port, ipv6);
    hide TargetAuthority;
    hide LowerDnsName;
  }
}
