/** The canonical upstream request head: what may be printed, and the printed text. */
module CanonicalHead {
  import opened Bytes
  import D = Decimals
  import opened Http
  import opened HeaderPrinting
  import opened NameLists
  import PercentEncoding
  import R = RequestTarget

  const METHOD_MAX := 32
  const TARGET_MAX := 8_192
  const FIELD_COUNT_MAX := 128
  const FORWARDING_MAX := 1_024
  const BODY_MAX := 16_777_216
  const HEAD_MAX := 49_152

  // ---------- the parts a head is made from ----------

  datatype Host = Name(text: Bytes) | V6(text: Bytes)

  predicate VerbOk(verb: Bytes) {
    1 <= |verb| <= METHOD_MAX && AllToken(verb) && NoUpper(verb)
  }

  predicate PlainIpv6(text: Bytes, ipv6: Ipv6) {
    text != [] && '%' !in text && NoUpper(text) && ipv6(text)
  }

  predicate Bracketed(text: Bytes) { |text| >= 2 && text[0] == '[' && text[|text| - 1] == ']' }

  /** The host of the effective authority; an address may come with or without brackets. */
  function HostOf(text: Bytes, ipv6: Ipv6): Option<Host> {
    if Bracketed(text) then
      if PlainIpv6(text[1..|text| - 1], ipv6) then Some(V6(text[1..|text| - 1])) else None
    else if ':' in text then if PlainIpv6(text, ipv6) then Some(V6(text)) else None
    else if LowerDnsName(text) then Some(Name(text)) else None
  }

  /** The authority of an absolute target; here an address must be bracketed. */
  function TargetAuthority(raw: Bytes, ipv6: Ipv6): Option<(Host, Option<nat>)> {
    if raw != [] && raw[0] == '[' then
      var rest := raw[1..];
      var close := IndexOf(rest, ']');
      if close == |rest| || !PlainIpv6(rest[..close], ipv6) then None
      else
        var port := R.PortSuffix(rest[close + 1..], false);
        if port.Err? then None else Some((V6(rest[..close]), port.value))
    else
      var colon := IndexOf(raw, ':');
      var port := R.PortSuffix(raw[colon..], false);
      if (colon < |raw| && ':' in raw[colon + 1..]) || port.Err? || !LowerDnsName(raw[..colon]) then None
      else Some((Name(raw[..colon]), port.value))
  }

  /** Every escape from `i` on is canonical: upper-case digits, an octet that needs escaping and, before the query
      begins at `cut`, no separator. */
  predicate EscapesOk(text: Bytes, i: nat, cut: nat)
    requires i <= |text|
    decreases |text| - i
  {
    if i == |text| then true
    else if text[i] != '%' then EscapesOk(text, i + 1, cut)
    else
      && i + 2 < |text| && IsUpperHexDigit(text[i + 1]) && IsUpperHexDigit(text[i + 2])
      && (var octet := PercentEncoding.Octet(text[i + 1], text[i + 2]);
          !IsControl(octet) && !IsUnreserved(octet) && (i < cut ==> octet != '/' && octet != '\\'))
      && EscapesOk(text, i + 3, cut)
  }

  /** The path and query a printer accepts. */
  predicate PathOk(pathAndQuery: Bytes, routingPath: Bytes) {
    && 1 <= |pathAndQuery| <= TARGET_MAX && pathAndQuery[0] == '/'
    && (forall i :: 0 <= i < |pathAndQuery| ==> !R.BadTargetByte(pathAndQuery[i]))
    && var query := IndexOf(pathAndQuery, '?');
       && routingPath == pathAndQuery[..query]
       && (query > 0 ==> forall part :: part in Split(pathAndQuery[1..query], '/') ==> part != "." && part != "..")
       && EscapesOk(pathAndQuery, 0, query)
  }

  /** What a target's form says must fit the effective authority. */
  predicate FormOk(target: NormalizedTarget, host: Host, port: Option<nat>, ipv6: Ipv6) {
    match (target.form, target.scheme, target.authority)
    case (Origin, None, None) => true
    case (Absolute, Some(scheme), Some(raw)) =>
      var defaultPort := if scheme == "http" then 80 else 443;
      var source := TargetAuthority(raw, ipv6);
      && (scheme == "http" || scheme == "https") && source.Some?
      && port != Some(defaultPort) && source.value.0 == host
      && (if source.value.1.Some? then source.value.1.value else defaultPort) ==
         (if port.Some? then port.value else defaultPort)
    case _ => false
  }

  predicate TargetOk(target: NormalizedTarget, host: Host, port: Option<nat>, ipv6: Ipv6) {
    FormOk(target, host, port, ipv6) && PathOk(target.pathAndQuery, target.routingPath)
  }

  datatype Survivor = Retain | Replace | Reject

  function SurvivorOf(name: Bytes): Survivor {
    if "x-forwarded-" <= name then Replace
    else if name == "host" || name == "content-length" || name == "transfer-encoding" || name == "connection"
            || name == "forwarded" then Replace
    else if name == "proxy-connection" || name == "keep-alive" || name == "te" || name == "trailer" || name == "upgrade"
            || name == "proxy-authenticate" || name == "proxy-authorization" then Reject
    else Retain
  }

  predicate CanonicalName(name: Bytes) { 1 <= |name| <= 128 && AllToken(name) && NoUpper(name) }

  /** A field that every printer lets pass. */
  predicate Passes(field: HeaderField) { CanonicalField(field) && SurvivorOf(field.name) != Reject }

  predicate AllPass(fields: seq<HeaderField>) { forall i :: 0 <= i < |fields| ==> Passes(fields[i]) }

  ghost predicate NamesOk(names: seq<Bytes>) {
    (forall i :: 0 <= i < |names| ==> CanonicalName(names[i])) && StrictlyIncreasing(names)
  }

  ghost predicate HeadersOk(headers: SanitizedHeaders) {
    |headers.fields| <= FIELD_COUNT_MAX && AllPass(headers.fields) && NamesOk(headers.removedNames)
  }

  predicate ForwardingValueOk(value: Bytes) {
    && 1 <= |value| <= FORWARDING_MAX && (forall i :: 0 <= i < |value| ==> ' ' <= value[i] <= '~')
    && value[0] != ' ' && value[|value| - 1] != ' '
    && forall part :: part in Split(value, ',') ==> exists i :: 0 <= i < |part| && part[i] != ' '
  }

  predicate ForwardingOk(forwarding: ForwardingResult) {
    && ForwardingValueOk(forwarding.forwarded) && ForwardingValueOk(forwarding.xForwardedFor)
    && ForwardingValueOk(forwarding.xForwardedProto) && ForwardingValueOk(forwarding.xForwardedHost)
  }

  predicate FramingOk(framing: BodyFraming) { framing.ContentLength? ==> framing.length <= BODY_MAX }

  /** All that a head is printed from. */
  datatype Model = Model(
    verb: Bytes,
    target: NormalizedTarget,
    authority: EffectiveAuthority,
    headers: SanitizedHeaders,
    framing: BodyFraming,
    forwarding: ForwardingResult)

  /** The widths of the numbers a model carries: a 16-bit port and a 64-bit length. */
  predicate Typed(m: Model) {
    && (m.authority.port.Some? ==> m.authority.port.value < 65_536)
    && (m.framing.ContentLength? ==> m.framing.length < D.U64)
  }

  ghost predicate Trusted(m: Model, ipv6: Ipv6) {
    && VerbOk(m.verb) && m.authority.port != Some(0)
    && HostOf(m.authority.host, ipv6).Some?
    && TargetOk(m.target, HostOf(m.authority.host, ipv6).value, m.authority.port, ipv6)
    && HeadersOk(m.headers) && ForwardingOk(m.forwarding) && FramingOk(m.framing)
  }

  // ---------- the text ----------

  function HostText(host: Host): Bytes {
    if host.V6? then ['['] + host.text + [']'] else host.text
  }

  function AuthorityText(host: Host, port: Option<nat>): Bytes {
    HostText(host) + (if port.Some? then [':'] + D.Render(port.value) else [])
  }

  function RequestText(verb: Bytes, target: Bytes): Bytes {
    UpperAll(verb) + [' '] + target + " HTTP/1.1" + CRLF
  }

  function Retained(fields: seq<HeaderField>): seq<HeaderField> {
    if fields == [] then []
    else (if SurvivorOf(fields[0].name) == Retain then [fields[0]] else []) + Retained(fields[1..])
  }

  function ForwardingFields(f: ForwardingResult): seq<HeaderField> {
    [HeaderField("Forwarded", f.forwarded), HeaderField("X-Forwarded-For", f.xForwardedFor),
     HeaderField("X-Forwarded-Proto", f.xForwardedProto), HeaderField("X-Forwarded-Host", f.xForwardedHost)]
  }

  function FramingFields(framing: BodyFraming): seq<HeaderField> {
    match framing
    case NoBody => []
    case ContentLength(length) => [HeaderField("Content-Length", D.Render(length))]
    case Chunked => [HeaderField("Transfer-Encoding", "chunked")]
  }

  const CLOSE: HeaderField := HeaderField("Connection", "close")

  /** The fields after `Host` and the retained ones. */
  function ClosingFields(m: Model): seq<HeaderField> {
    ForwardingFields(m.forwarding) + FramingFields(m.framing) + [CLOSE]
  }

  function HeadFields(m: Model, host: Host): seq<HeaderField> {
    [HeaderField("Host", AuthorityText(host, m.authority.port))] + Retained(m.headers.fields) + ClosingFields(m)
  }

  function HeadText(m: Model, host: Host): Bytes {
    RequestText(m.verb, m.target.pathAndQuery) + RenderFields(HeadFields(m, host)) + CRLF
  }

  datatype Head = Head(bytes: Bytes, framing: BodyFraming)

  /** What every printer produces. */
  ghost function Construct(m: Model, ipv6: Ipv6): Result<Head> {
    if !Trusted(m, ipv6) then Err(SerializationInvariant)
    else
      var text := HeadText(m, HostOf(m.authority.host, ipv6).value);
      if |text| > HEAD_MAX then Err(LimitExceeded(CanonicalHeadBytes, HEAD_MAX, |text|)) else Ok(Head(text, m.framing))
  }

  // ---------- concatenation and length ----------

  lemma {:induction false} RenderConcat(a: seq<HeaderField>, b: seq<HeaderField>)
    ensures RenderFields(a + b) == RenderFields(a) + RenderFields(b)
  {
    if a == [] {
      assert a + b == b;
    } else {
      assert (a + b)[1..] == a[1..] + b;
      RenderConcat(a[1..], b);
      ConcatAssociates(FieldLine(a[0]), RenderFields(a[1..]), RenderFields(b));
    }
  }

  lemma RenderOne(field: HeaderField)
    ensures RenderFields([field]) == FieldLine(field) && |FieldLine(field)| == |field.name| + 2 + |field.value| + 2
  {
    assert FieldLine(field) + [] == FieldLine(field);
  }

  lemma {:induction false} RetainedConcat(a: seq<HeaderField>, b: seq<HeaderField>)
    ensures Retained(a + b) == Retained(a) + Retained(b)
  {
    hide SurvivorOf;
    if a == [] {
      assert a + b == b;
    } else {
      assert (a + b)[1..] == a[1..] + b;
      RetainedConcat(a[1..], b);
    }
  }

  lemma RenderStep(fields: seq<HeaderField>, i: nat)
    requires i < |fields|
    ensures RenderFields(fields[..i + 1]) == RenderFields(fields[..i]) + FieldLine(fields[i])
  {
    assert fields[..i + 1] == fields[..i] + [fields[i]];
    RenderOne(fields[i]);
    RenderConcat(fields[..i], [fields[i]]);
  }

  lemma RetainedStep(fields: seq<HeaderField>, i: nat)
    requires i < |fields|
    ensures RenderFields(Retained(fields[..i + 1])) ==
            RenderFields(Retained(fields[..i])) + (if SurvivorOf(fields[i].name) == Retain then FieldLine(fields[i]) else [])
  {
    hide SurvivorOf;
    assert fields[..i + 1] == fields[..i] + [fields[i]];
    RetainedConcat(fields[..i], [fields[i]]);
    RenderOne(fields[i]);
    RenderConcat(Retained(fields[..i]), Retained([fields[i]]));
  }

  /** The head is the request line, the host line, the retained fields and the closing fields. */
  lemma HeadParts(m: Model, host: Host)
    ensures HeadText(m, host) ==
      RequestText(m.verb, m.target.pathAndQuery) + FieldLine(HeaderField("Host", AuthorityText(host, m.authority.port)))
      + RenderFields(Retained(m.headers.fields)) + RenderFields(ClosingFields(m)) + CRLF
  {
    var hostField := HeaderField("Host", AuthorityText(host, m.authority.port));
    var retained, closing := Retained(m.headers.fields), ClosingFields(m);
    hide Retained;
    hide ClosingFields;
    hide AuthorityText;
    hide RequestText;
    RenderOne(hostField);
    RenderConcat([hostField], retained);
    RenderConcat([hostField] + retained, closing);
    hide RenderFields;
    ConcatFive(RequestText(m.verb, m.target.pathAndQuery), FieldLine(hostField), RenderFields(retained), RenderFields(closing), CRLF);
  }

  lemma ConcatFive(a: Bytes, b: Bytes, c: Bytes, d: Bytes, e: Bytes)
    ensures a + (b + c + d) + e == a + b + c + d + e
  {
  }
}
