/** Reading a printed head: from the wire, through the request parsers, to the model it was printed from. */
module HeadReading {
  import B = BodyFraming
  import opened Bytes
  import opened CanonicalHead
  import CanonicalHeadPath
  import opened HeaderPrinting
  import opened HeaderSection
  import opened HeadRoundTrip
  import opened Http
  import L = RequestLineDirect
  import N = RequestTarget

  datatype Request = Request(line: RequestLine, block: HeaderBlock, framing: BodyFraming)

  /** The steps of a request: line, header section up to the last byte, framing. */
  function ReadRequest(head: Bytes): Result<Request> {
    var line :- L.Parse(head);
    var block :- ParseSection(head[line.bytesConsumed..]);
    if line.bytesConsumed + block.bytesConsumed != |head| then Err(InvalidHeader(0, TrailingBytes))
    else
      var framing :- B.Determine(block.fields);
      Ok(Request(line, block, framing))
  }

  /** The limits that the readers keep and the printers do not. */
  predicate Readable(m: Model, host: Host) {
    && LineContent(m) <= L.LINE_MAX
    && |HeadFields(m, host)| <= FIELD_MAX && |RenderFields(HeadFields(m, host))| + 2 <= SECTION_MAX
  }

  function Reading(m: Model, host: Host): Request {
    Request(
      RequestLine(m.verb, m.target.pathAndQuery, LineContent(m) + 2),
      HeaderBlock(BlockFields(m, host), |RenderFields(HeadFields(m, host))| + 2),
      ReadBack(m.framing))
  }

  lemma RequestThenSection(m: Model, host: Host)
    ensures HeadText(m, host) == RequestText(m.verb, m.target.pathAndQuery) + (RenderFields(HeadFields(m, host)) + CRLF)
    ensures |RequestText(m.verb, m.target.pathAndQuery)| == LineContent(m) + 2
  {
    RequestWords(m.verb, m.target.pathAndQuery);
    ConcatAssociates(RequestText(m.verb, m.target.pathAndQuery), RenderFields(HeadFields(m, host)), CRLF);
  }

  lemma TrustedParts(m: Model, ipv6: Ipv6)
    requires Trusted(m, ipv6)
    ensures VerbOk(m.verb) && PathOk(m.target.pathAndQuery, m.target.routingPath)
    ensures HeadersOk(m.headers) && FramingOk(m.framing)
  {
    hide VerbOk;
    hide FormOk;
    hide PathOk;
    hide HostOf;
    hide HeadersOk;
    hide ForwardingOk;
  }

  lemma StepsSucceed(request: Bytes, section: Bytes, line: RequestLine, block: HeaderBlock, framing: BodyFraming)
    requires L.Parse(request + section) == Ok(line) && line.bytesConsumed == |request|
    requires ParseSection(section) == Ok(block) && block.bytesConsumed == |section|
    requires B.Determine(block.fields) == Ok(framing)
    ensures ReadRequest(request + section) == Ok(Request(line, block, framing))
  {
    hide L.Parse;
    hide ParseSection;
    hide B.Determine;
    assert (request + section)[|request|..] == section;
  }

  lemma SectionFails(request: Bytes, section: Bytes, line: RequestLine)
    requires L.Parse(request + section) == Ok(line) && line.bytesConsumed == |request|
    requires ParseSection(section).Err?
    ensures ReadRequest(request + section).Err?
  {
    hide L.Parse;
    hide ParseSection;
    hide B.Determine;
    assert (request + section)[|request|..] == section;
  }

  lemma SectionReadsBack(fields: seq<HeaderField>, block: HeaderBlock)
    requires AllPrintable(fields) && |fields| <= FIELD_MAX && |RenderFields(fields)| + 2 <= SECTION_MAX
    requires block.fields == Lowered(fields) && block.bytesConsumed == |RenderFields(fields)| + 2
    ensures ParseSection(RenderFields(fields) + CRLF) == Ok(block)
  {
    var section := RenderFields(fields) + CRLF;
    PrintedFieldsParse(fields, []);
    hide *;
    assert section + [] == section;
  }

  lemma SectionRefused(fields: seq<HeaderField>)
    requires AllPrintable(fields) && (|fields| > FIELD_MAX || |RenderFields(fields)| + 2 > SECTION_MAX)
    ensures ParseSection(RenderFields(fields) + CRLF).Err?
  {
    var section := RenderFields(fields) + CRLF;
    OversizeRefused(fields, []);
    hide *;
    assert section + [] == section;
  }

  lemma ReadableIsRead(m: Model, ipv6: Ipv6)
    requires Typed(m) && Trusted(m, ipv6) && AddressSyntax(ipv6)
    requires Readable(m, HostOf(m.authority.host, ipv6).value)
    ensures var host := HostOf(m.authority.host, ipv6).value;
      ReadRequest(HeadText(m, host)) == Ok(Reading(m, host))
  {
    TrustedParts(m, ipv6);
    HeadIsPrintable(m, ipv6);
    hide Trusted;
    hide HostOf;
    hide VerbOk;
    hide PathOk;
    hide HeadersOk;
    hide FramingOk;
    hide AllPrintable;
    hide HeadFields;
    PrintableIsRead(m, HostOf(m.authority.host, ipv6).value);
  }

  lemma PrintableIsRead(m: Model, host: Host)
    requires VerbOk(m.verb) && PathOk(m.target.pathAndQuery, m.target.routingPath) && HeadersOk(m.headers) && FramingOk(m.framing)
    requires AllPrintable(HeadFields(m, host)) && Readable(m, host)
    ensures ReadRequest(HeadText(m, host)) == Ok(Reading(m, host))
  {
    hide VerbOk;
    hide PathOk;
    hide HeadersOk;
    hide FramingOk;
    hide AllPrintable;
    hide HeadFields;
    hide HeadText;
    hide RequestText;
    hide BlockFields;
    hide RenderFields;
    hide Lowered;
    hide L.Parse;
    hide ParseSection;
    hide B.Determine;
    hide ReadRequest;
    var fields, request, reading := HeadFields(m, host), RequestText(m.verb, m.target.pathAndQuery), Reading(m, host);
    var section := RenderFields(fields) + CRLF;
    assert HeadText(m, host) == request + section && |request| == LineContent(m) + 2 by { RequestThenSection(m, host); }
    assert L.Parse(request + section) == Ok(reading.line) by { RequestReadsBack(m, section); }
    assert ParseSection(section) == Ok(reading.block) by {
      HeadFieldsLowered(m, host);
      SectionReadsBack(fields, reading.block);
    }
    assert B.Determine(reading.block.fields) == Ok(reading.framing) by { FramingReadsBack(m, host); }
    StepsSucceed(request, section, reading.line, reading.block, reading.framing);
  }

  lemma UnreadableIsRefused(m: Model, ipv6: Ipv6)
    requires Typed(m) && Trusted(m, ipv6) && AddressSyntax(ipv6)
    requires !Readable(m, HostOf(m.authority.host, ipv6).value)
    ensures ReadRequest(HeadText(m, HostOf(m.authority.host, ipv6).value)).Err?
  {
    var host := HostOf(m.authority.host, ipv6).value;
    var fields, request := HeadFields(m, host), RequestText(m.verb, m.target.pathAndQuery);
    var section := RenderFields(fields) + CRLF;
    TrustedParts(m, ipv6);
    HeadIsPrintable(m, ipv6);
    RequestThenSection(m, host);
    hide Trusted;
    hide HeadFields;
    hide HeadText;
    hide RequestText;
    if LineContent(m) > L.LINE_MAX {
      LongRequestRefused(m, section);
      hide L.Parse;
    } else {
      RequestReadsBack(m, section);
      SectionRefused(fields);
      hide L.Parse;
      hide ParseSection;
      SectionFails(request, section, RequestLine(m.verb, m.target.pathAndQuery, LineContent(m) + 2));
    }
  }

  /** Printing then parsing is the identity: every byte is consumed, method and target come back, the block is the host
      line, the retained fields in order, the forwarding, framing and connection lines, and the framing decided is the
      one printed, a length of zero reading as no body. Heads beyond the readers' limits, and only those, are refused. */
  lemma PrintedHeadReadsBack(m: Model, ipv6: Ipv6)
    requires Typed(m) && Construct(m, ipv6).Ok? && AddressSyntax(ipv6)
    ensures var host := HostOf(m.authority.host, ipv6).value;
      var head := Construct(m, ipv6).value;
      && (ReadRequest(head.bytes).Ok? <==> Readable(m, host))
      && (Readable(m, host) ==> ReadRequest(head.bytes) == Ok(Reading(m, host)))
  {
    var host := HostOf(m.authority.host, ipv6).value;
    if Readable(m, host) { ReadableIsRead(m, ipv6); } else { UnreadableIsRefused(m, ipv6); }
  }

  lemma PathNormalizes(verb: Bytes, pathAndQuery: Bytes, routingPath: Bytes, ipv6: Ipv6)
    requires PathOk(pathAndQuery, routingPath)
    ensures N.Normalize(verb, pathAndQuery, ipv6) ==
      if verb == "connect" then Err(InvalidTarget(ConnectRequiresAuthority))
      else Ok(NormalizedTarget(Origin, None, None, pathAndQuery, routingPath))
  {
    assert N.ClassifySyntax(pathAndQuery) == N.OriginSyntax;
    CanonicalHeadPath.PathOkIsFixedPoint(pathAndQuery, routingPath);
    hide PathOk;
    hide N.EnvelopeFault;
    hide N.CanonicalPath;
  }

  /** The target that is read back normalises to an origin target with the same path, query and routing path, except
      that the printers let `connect` pass with such a target and the normaliser does not. */
  lemma PrintedTargetNormalizes(m: Model, ipv6: Ipv6)
    requires Construct(m, ipv6).Ok?
    ensures var again := N.Normalize(m.verb, m.target.pathAndQuery, ipv6);
      && (again.Ok? <==> m.verb != "connect")
      && (again.Ok? ==> again.value == NormalizedTarget(Origin, None, None, m.target.pathAndQuery, m.target.routingPath))
  {
    TrustedParts(m, ipv6);
    hide Trusted;
    hide PathOk;
    hide N.Normalize;
    PathNormalizes(m.verb, m.target.pathAndQuery, m.target.routingPath, ipv6);
  }
}
