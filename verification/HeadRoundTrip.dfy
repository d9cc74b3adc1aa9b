/** A printed head reads back as the model it was printed from. */
module HeadRoundTrip {
  import B = BodyFraming
  import opened Bytes
  import opened CanonicalHead
  import D = Decimals
  import opened HeaderPrinting
  import opened HeaderSection
  import opened Http
  import opened NameLists
  import L = RequestLineDirect
  import R = RequestTarget

  /** What is known of the texts that are IPv6 addresses. */
  ghost predicate AddressSyntax(ipv6: Ipv6) {
    forall text :: ipv6(text) ==> |text| <= 45 && forall i :: 0 <= i < |text| ==> AddressByte(text[i])
  }

  predicate AddressByte(c: Byte) { IsHexDigit(c) || c == ':' || c == '.' }

  // ---------- every printed field is printable ----------

  /** A byte that no reader trims or refuses. */
  predicate Solid(c: Byte) { '!' <= c <= '~' }

  predicate AllSolid(s: Bytes) { forall i :: 0 <= i < |s| ==> Solid(s[i]) }

  lemma SolidValue(s: Bytes)
    requires AllSolid(s)
    ensures AllFieldValue(s) && NoEdgeOws(s)
  {
    if s != [] { assert Solid(s[0]) && Solid(s[|s| - 1]); }
  }

  lemma SolidConcat(a: Bytes, b: Bytes)
    requires AllSolid(a) && AllSolid(b)
    ensures AllSolid(a + b)
  {
  }

  lemma DnsNameIsSolid(text: Bytes)
    requires LowerDnsName(text)
    ensures AllSolid(text) && |text| <= 253
  {
    forall i | 0 <= i < |text| ensures Solid(text[i]) {
      if text[i] != '.' {
        var part, k := InSomePart(text, '.', i);
        assert LowerDnsLabel(part);
      }
    }
  }

  lemma AddressIsSolid(text: Bytes, ipv6: Ipv6)
    requires ipv6(text) && AddressSyntax(ipv6)
    ensures AllSolid(text) && |text| <= 45
  {
    forall i | 0 <= i < |text| ensures Solid(text[i]) { assert AddressByte(text[i]); }
  }

  lemma HostIsSolid(text: Bytes, ipv6: Ipv6)
    requires HostOf(text, ipv6).Some? && AddressSyntax(ipv6)
    ensures var host := HostOf(text, ipv6).value; AllSolid(HostText(host)) && |HostText(host)| <= 253
  {
    var host := HostOf(text, ipv6).value;
    if host.V6? {
      AddressIsSolid(host.text, ipv6);
    } else {
      DnsNameIsSolid(host.text);
    }
  }

  lemma DigitsAreSolid(n: nat)
    requires n < D.U64
    ensures AllSolid(D.Render(n)) && |D.Render(n)| <= 20
  {
    var digits := D.Render(n);
    D.U64FitsTwentyDigits(n);
    forall i | 0 <= i < |digits| ensures Solid(digits[i]) { assert IsDigit(digits[i]); }
  }

  lemma HostFieldIsPrintable(host: Host, port: Option<nat>)
    requires AllSolid(HostText(host)) && |HostText(host)| <= 253 && (port.Some? ==> port.value < 65_536)
    ensures Printable(HeaderField("Host", AuthorityText(host, port)))
  {
    var text := HostText(host);
    hide HostText;
    if port.Some? {
      DigitsAreSolid(port.value);
      SolidConcat([':'], D.Render(port.value));
      SolidConcat(text, [':'] + D.Render(port.value));
    }
    SolidValue(AuthorityText(host, port));
    assert AllToken("Host");
  }

  lemma ForwardingValueIsPrintable(name: Bytes, value: Bytes)
    requires 1 <= |name| <= NAME_MAX && AllToken(name) && ForwardingValueOk(value)
    ensures Printable(HeaderField(name, value))
  {
    assert AllFieldValue(value);
  }

  lemma ForwardingNames()
    ensures AllToken("Forwarded") && AllToken("X-Forwarded-For") && AllToken("X-Forwarded-Proto")
    ensures AllToken("X-Forwarded-Host")
  {
  }

  lemma ForwardingIsPrintable(f: ForwardingResult)
    requires ForwardingOk(f)
    ensures AllPrintable(ForwardingFields(f))
  {
    ForwardingNames();
    hide AllToken;
    hide ForwardingValueOk;
    ForwardingValueIsPrintable("Forwarded", f.forwarded);
    ForwardingValueIsPrintable("X-Forwarded-For", f.xForwardedFor);
    ForwardingValueIsPrintable("X-Forwarded-Proto", f.xForwardedProto);
    ForwardingValueIsPrintable("X-Forwarded-Host", f.xForwardedHost);
    hide Printable;
  }

  lemma FramingIsPrintable(framing: BodyFraming)
    requires FramingOk(framing)
    ensures AllPrintable(FramingFields(framing))
  {
    if framing.ContentLength? {
      DigitsAreSolid(framing.length);
      SolidValue(D.Render(framing.length));
    }
  }

  lemma {:induction false} RetainedAreFields(fields: seq<HeaderField>)
    ensures forall i :: 0 <= i < |Retained(fields)| ==>
      Retained(fields)[i] in fields && SurvivorOf(Retained(fields)[i].name) == Retain
    ensures |Retained(fields)| <= |fields|
  {
    hide SurvivorOf;
    if fields != [] { RetainedAreFields(fields[1..]); }
  }

  lemma RetainedIsPrintable(headers: SanitizedHeaders)
    requires HeadersOk(headers)
    ensures AllPrintable(Retained(headers.fields))
  {
    RetainedAreFields(headers.fields);
    var retained := Retained(headers.fields);
    forall i | 0 <= i < |retained| ensures Printable(retained[i]) {
      assert CanonicalField(retained[i]);
    }
  }

  lemma PrintableConcat(a: seq<HeaderField>, b: seq<HeaderField>)
    requires AllPrintable(a) && AllPrintable(b)
    ensures AllPrintable(a + b)
  {
    hide Printable;
  }

  lemma HeadIsPrintable(m: Model, ipv6: Ipv6)
    requires Typed(m) && Trusted(m, ipv6) && AddressSyntax(ipv6)
    ensures AllPrintable(HeadFields(m, HostOf(m.authority.host, ipv6).value))
  {
    hide TargetOk;
    hide HeadersOk;
    hide ForwardingOk;
    hide VerbOk;
    hide AddressSyntax;
    hide AllSolid;
    hide HostOf;
    hide HostText;
    hide AuthorityText;
    var host := HostOf(m.authority.host, ipv6).value;
    HostIsSolid(m.authority.host, ipv6);
    HostFieldIsPrintable(host, m.authority.port);
    ForwardingIsPrintable(m.forwarding);
    FramingIsPrintable(m.framing);
    RetainedIsPrintable(m.headers);
    assert Printable(CLOSE) by { assert AllToken("Connection") && AllFieldValue("close"); }
    hide Printable;
    hide Retained;
    hide ForwardingFields;
    hide FramingFields;
    var closing := ClosingFields(m);
    PrintableConcat(ForwardingFields(m.forwarding), FramingFields(m.framing));
    PrintableConcat(ForwardingFields(m.forwarding) + FramingFields(m.framing), [CLOSE]);
    var hostField := HeaderField("Host", AuthorityText(host, m.authority.port));
    PrintableConcat([hostField], Retained(m.headers.fields));
    PrintableConcat([hostField] + Retained(m.headers.fields), closing);
  }

  // ---------- the fields as they read back ----------

  lemma {:induction false} LoweredConcat(a: seq<HeaderField>, b: seq<HeaderField>)
    ensures Lowered(a + b) == Lowered(a) + Lowered(b)
  {
    if a == [] {
      assert a + b == b;
    } else {
      assert (a + b)[1..] == a[1..] + b;
      LoweredConcat(a[1..], b);
    }
  }

  lemma LowerIsLower(name: Bytes)
    requires NoUpper(name)
    ensures LowerAll(name) == name
  {
  }

  lemma {:induction false} LowerStaysLower(fields: seq<HeaderField>)
    requires forall i :: 0 <= i < |fields| ==> NoUpper(fields[i].name)
    ensures Lowered(fields) == fields
  {
    if fields != [] {
      LowerStaysLower(fields[1..]);
      LowerIsLower(fields[0].name);
      assert fields == [fields[0]] + fields[1..];
    }
  }

  /** The block a printed head is read back as. */
  function BlockFields(m: Model, host: Host): seq<HeaderField> {
    [HeaderField("host", AuthorityText(host, m.authority.port))] + Retained(m.headers.fields) + Lowered(ClosingFields(m))
  }

  lemma HeadFieldsLowered(m: Model, host: Host)
    requires HeadersOk(m.headers)
    ensures Lowered(HeadFields(m, host)) == BlockFields(m, host)
  {
    hide ForwardingFields;
    hide FramingFields;
    hide AuthorityText;
    hide SurvivorOf;
    hide StrictlyIncreasing;
    var hostField := HeaderField("Host", AuthorityText(host, m.authority.port));
    var retained := Retained(m.headers.fields);
    RetainedAreFields(m.headers.fields);
    forall i | 0 <= i < |retained| ensures NoUpper(retained[i].name) { assert CanonicalField(retained[i]); }
    hide Retained;
    LowerStaysLower(retained);
    LoweredConcat([hostField], retained);
    LoweredConcat([hostField] + retained, ClosingFields(m));
    hide ClosingFields;
    assert Lowered([hostField]) == [HeaderField("host", hostField.value)] by { LoweredHost(hostField); }
  }

  lemma LoweredHost(field: HeaderField)
    requires field.name == "Host"
    ensures Lowered([field]) == [HeaderField("host", field.value)]
  {
    assert LowerAll("Host") == "host";
  }

  // ---------- the framing as it reads back ----------

  predicate Unframed(fields: seq<HeaderField>) {
    forall i :: 0 <= i < |fields| ==> !B.IsLengthField(fields[i]) && !B.IsCodingField(fields[i])
  }

  lemma {:induction false} NoMembers(fields: seq<HeaderField>)
    requires Unframed(fields)
    ensures B.LengthMembers(fields) == [] && B.CodingMembers(fields) == []
  {
    if fields != [] { NoMembers(fields[..|fields| - 1]); }
  }

  lemma MembersOfLast(before: seq<HeaderField>, last: HeaderField)
    ensures B.LengthMembers(before + [last]) ==
            B.LengthMembers(before) + (if B.IsLengthField(last) then Split(last.value, ',') else [])
    ensures B.CodingMembers(before + [last]) ==
            B.CodingMembers(before) + (if B.IsCodingField(last) then Split(last.value, ',') else [])
  {
    assert (before + [last])[..|before|] == before;
  }

  /** Only the framing field of a head frames it. */
  lemma MembersOfHead(before: seq<HeaderField>, framing: HeaderField, after: HeaderField)
    requires Unframed(before) && Unframed([after]) && ',' !in framing.value
    ensures var fields := before + [framing] + [after];
      && B.LengthMembers(fields) == (if B.IsLengthField(framing) then [framing.value] else [])
      && B.CodingMembers(fields) == (if B.IsCodingField(framing) then [framing.value] else [])
  {
    NoMembers(before);
    MembersOfLast(before, framing);
    MembersOfLast(before + [framing], after);
    assert !B.IsLengthField([after][0]) && !B.IsCodingField([after][0]);
    SplitLast(framing.value, ',');
  }

  /** A name that starts otherwise, or is of another length, is no framing name in any case. */
  lemma {:induction false} ForeignNames(fields: seq<HeaderField>)
    requires forall i :: 0 <= i < |fields| ==> ForeignName(fields[i].name)
    ensures Unframed(Lowered(fields))
  {
    if fields != [] {
      ForeignNames(fields[1..]);
      var name := fields[0].name;
      assert LowerAll(name)[0] == Lower(name[0]) && |LowerAll(name)| == |name|;
    }
  }

  predicate ForeignName(name: Bytes) {
    name != [] && (|name| == 10 || (Lower(name[0]) != 'c' && Lower(name[0]) != 't'))
  }

  lemma BlockBeforeFraming(m: Model, host: Host)
    requires HeadersOk(m.headers)
    ensures Unframed([HeaderField("host", AuthorityText(host, m.authority.port))] + Retained(m.headers.fields)
                     + Lowered(ForwardingFields(m.forwarding)))
    ensures Unframed(Lowered([CLOSE]))
  {
    RetainedAreFields(m.headers.fields);
    ForeignNames(ForwardingFields(m.forwarding));
    ForeignNames([CLOSE]);
    var retained := Retained(m.headers.fields);
    hide Retained;
    assert Unframed(retained);
    hide Lowered;
  }

  /** A length of zero reads back as no body. */
  function ReadBack(framing: BodyFraming): BodyFraming {
    if framing == ContentLength(0) then NoBody else framing
  }

  lemma LengthName()
    ensures LowerAll("Content-Length") == "content-length"
  {
  }

  lemma CodingName()
    ensures LowerAll("Transfer-Encoding") == "transfer-encoding"
  {
  }

  lemma LengthText(length: nat)
    requires length < D.U64
    ensures ',' !in D.Render(length) && D.DecimalValue(TrimOws(D.Render(length))) == Some(length)
  {
    var digits := D.Render(length);
    DigitsAreSolid(length);
    SolidValue(digits);
    TrimOwsOfTrimmed(digits);
    D.DecimalOfRender(length);
    assert forall i :: 0 <= i < |digits| ==> IsDigit(digits[i]) && digits[i] != ',';
  }

  lemma ChunkedText(value: Bytes)
    requires value == "chunked"
    ensures B.IsChunkedCoding(value) && ',' !in value
  {
    TrimOwsOfTrimmed(value);
  }

  /** The framing lines as they read back. */
  function FramingBlock(framing: BodyFraming): seq<HeaderField> {
    match framing
    case NoBody => []
    case ContentLength(length) => [HeaderField("content-length", D.Render(length))]
    case Chunked => [HeaderField("transfer-encoding", "chunked")]
  }

  lemma FramingLowered(framing: BodyFraming)
    ensures Lowered(FramingFields(framing)) == FramingBlock(framing)
  {
    LengthName();
    CodingName();
    hide LowerAll;
  }

  lemma LengthDecided(before: seq<HeaderField>, length: nat, after: HeaderField)
    requires Unframed(before) && Unframed([after]) && length <= BODY_MAX
    ensures B.Determine(before + FramingBlock(ContentLength(length)) + [after]) == Ok(ReadBack(ContentLength(length)))
  {
    var fields := before + FramingBlock(ContentLength(length)) + [after];
    LengthText(length);
    MembersOfHead(before, HeaderField("content-length", D.Render(length)), after);
    B.MembersPresent(fields);
    B.LengthMeaning(fields, length);
    hide Unframed;
    hide TrimOws;
    hide D.Render;
    hide D.DecimalValue;
    hide B.HasLength;
    hide B.HasCoding;
    hide B.Determine;
  }

  lemma ChunkedDecided(before: seq<HeaderField>, after: HeaderField)
    requires Unframed(before) && Unframed([after])
    ensures B.Determine(before + FramingBlock(Chunked) + [after]) == Ok(Chunked)
  {
    var fields := before + FramingBlock(Chunked) + [after];
    ChunkedText("chunked");
    MembersOfHead(before, HeaderField("transfer-encoding", "chunked"), after);
    hide B.IsChunkedCoding;
    B.MembersPresent(fields);
    B.LengthMeaning(fields, 0);
  }

  lemma NothingDecided(before: seq<HeaderField>, after: HeaderField)
    requires Unframed(before) && Unframed([after])
    ensures B.Determine(before + FramingBlock(NoBody) + [after]) == Ok(NoBody)
  {
    var fields := before + FramingBlock(NoBody) + [after];
    NoMembers(before);
    MembersOfLast(before, after);
    assert before + [] == before;
    assert !B.IsLengthField([after][0]) && !B.IsCodingField([after][0]);
    B.MembersPresent(fields);
    B.LengthMeaning(fields, 0);
  }

  lemma BlockParts(m: Model, host: Host)
    ensures BlockFields(m, host) ==
      [HeaderField("host", AuthorityText(host, m.authority.port))] + Retained(m.headers.fields)
      + Lowered(ForwardingFields(m.forwarding)) + FramingBlock(m.framing) + Lowered([CLOSE])
  {
    var forwarding, framing := ForwardingFields(m.forwarding), FramingFields(m.framing);
    LoweredConcat(forwarding, framing);
    LoweredConcat(forwarding + framing, [CLOSE]);
    FramingLowered(m.framing);
    hide ForwardingFields;
    hide FramingFields;
    hide FramingBlock;
    hide Retained;
    hide Lowered;
  }

  /** The framing decided from the block is the framing that was printed. */
  lemma FramingReadsBack(m: Model, host: Host)
    requires HeadersOk(m.headers) && FramingOk(m.framing)
    ensures B.Determine(BlockFields(m, host)) == Ok(ReadBack(m.framing))
  {
    var before := [HeaderField("host", AuthorityText(host, m.authority.port))] + Retained(m.headers.fields)
      + Lowered(ForwardingFields(m.forwarding));
    assert Unframed(before) && Unframed(Lowered([CLOSE])) by { BlockBeforeFraming(m, host); }
    assert |Lowered([CLOSE])| == 1;
    var after := Lowered([CLOSE])[0];
    assert Lowered([CLOSE]) == [after];
    BlockParts(m, host);
    hide BlockFields;
    hide B.Determine;
    hide FramingBlock;
    hide Lowered;
    match m.framing {
      case NoBody => NothingDecided(before, after);
      case ContentLength(length) => LengthDecided(before, length, after);
      case Chunked => ChunkedDecided(before, after);
    }
  }

  // ---------- the request line as it reads back ----------

  lemma UpperThenLower(verb: Bytes)
    requires AllToken(verb) && NoUpper(verb)
    ensures AllToken(UpperAll(verb)) && LowerAll(UpperAll(verb)) == verb
  {
    var upper := UpperAll(verb);
    forall i | 0 <= i < |verb| ensures IsToken(upper[i]) && Lower(upper[i]) == verb[i] {
      assert IsToken(verb[i]) && !IsUpper(verb[i]);
    }
  }

  lemma PrintedPathIsTarget(pathAndQuery: Bytes, routingPath: Bytes)
    requires PathOk(pathAndQuery, routingPath)
    ensures L.AllTargetBytes(pathAndQuery) && pathAndQuery != []
  {
    forall i | 0 <= i < |pathAndQuery| ensures L.IsTargetByte(pathAndQuery[i]) {
      assert !R.BadTargetByte(pathAndQuery[i]);
    }
  }

  function LineContent(m: Model): nat { |m.verb| + |m.target.pathAndQuery| + 10 }

  lemma RequestWords(verb: Bytes, target: Bytes)
    ensures var words := L.Words(UpperAll(verb), target);
      RequestText(verb, target) == words + CRLF && |words| == |verb| + |target| + 10
  {
    assert L.SP + L.VERSION == " HTTP/1.1";
    ConcatAssociates(UpperAll(verb) + L.SP + target, L.SP, L.VERSION);
  }

  lemma PrintedWords(m: Model)
    requires VerbOk(m.verb) && PathOk(m.target.pathAndQuery, m.target.routingPath)
    ensures AllToken(UpperAll(m.verb)) && LowerAll(UpperAll(m.verb)) == m.verb
    ensures L.AllTargetBytes(m.target.pathAndQuery) && m.target.pathAndQuery != []
    ensures L.PlainLine(L.Words(UpperAll(m.verb), m.target.pathAndQuery))
  {
    UpperThenLower(m.verb);
    PrintedPathIsTarget(m.target.pathAndQuery, m.target.routingPath);
    L.WordsArePlain(UpperAll(m.verb), m.target.pathAndQuery);
  }

  lemma RequestReadsBack(m: Model, rest: Bytes)
    requires VerbOk(m.verb) && PathOk(m.target.pathAndQuery, m.target.routingPath) && LineContent(m) <= L.LINE_MAX
    ensures L.Parse(RequestText(m.verb, m.target.pathAndQuery) + rest)
      == Ok(RequestLine(m.verb, m.target.pathAndQuery, LineContent(m) + 2))
  {
    hide PathOk;
    hide AllToken;
    hide NoUpper;
    hide L.AllTargetBytes;
    hide L.Parse;
    hide RequestText;
    hide UpperAll;
    hide LowerAll;
    UpperThenLower(m.verb);
    PrintedPathIsTarget(m.target.pathAndQuery, m.target.routingPath);
    TextReadsBack(m.verb, m.target.pathAndQuery, rest);
  }

  lemma TextReadsBack(verb: Bytes, target: Bytes, rest: Bytes)
    requires 1 <= |verb| <= METHOD_MAX && AllToken(UpperAll(verb)) && LowerAll(UpperAll(verb)) == verb
    requires L.AllTargetBytes(target) && target != [] && |verb| + |target| + 10 <= L.LINE_MAX
    ensures L.Parse(RequestText(verb, target) + rest) == Ok(RequestLine(verb, target, |verb| + |target| + 12))
  {
    hide AllToken;
    hide L.AllTargetBytes;
    hide L.Parse;
    hide L.Words;
    hide RequestText;
    hide UpperAll;
    hide LowerAll;
    var words := L.Words(UpperAll(verb), target);
    assert RequestText(verb, target) == words + CRLF && |words| + 2 == |verb| + |target| + 12 by { RequestWords(verb, target); }
    assert L.Parse(words + CRLF + rest) == Ok(RequestLine(verb, target, |words| + 2)) by {
      L.PrintedLineParses(UpperAll(verb), target, rest);
    }
  }

  /** A line that is too long is refused. */
  lemma LongRequestRefused(m: Model, rest: Bytes)
    requires VerbOk(m.verb) && PathOk(m.target.pathAndQuery, m.target.routingPath) && LineContent(m) > L.LINE_MAX
    ensures L.Parse(RequestText(m.verb, m.target.pathAndQuery) + rest).Err?
  {
    PrintedWords(m);
    RequestWords(m.verb, m.target.pathAndQuery);
    hide PathOk;
    hide AllToken;
    hide L.AllTargetBytes;
    hide RequestText;
    LongPrefix(L.Words(UpperAll(m.verb), m.target.pathAndQuery), CRLF, rest, L.LINE_MAX + 1);
    hide L.PlainLine;
    L.LongLineRefused(RequestText(m.verb, m.target.pathAndQuery) + rest);
  }

  lemma LongPrefix(words: Bytes, end: Bytes, rest: Bytes, n: nat)
    requires L.PlainLine(words) && n <= |words|
    ensures L.PlainLine((words + end + rest)[..n])
  {
    assert (words + end + rest)[..n] == words[..n];
  }
}
