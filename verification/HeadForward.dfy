/** Printing a head front to back: from a compiled plan, and in independent phases. */
module HeadForward {
  import opened Bytes
  import opened CanonicalHead
  import D = Decimals
  import opened HeaderPrinting
  import HeaderSection
  import opened HeadLengths
  import opened HeadValidation
  import opened Http
  import PercentEncoding
  import W = Words

  // ---------- appending ----------

  function AppendHeader(output: Bytes, name: Bytes, value: Bytes): (r: Bytes)
    ensures r == output + FieldLine(HeaderField(name, value))
  {
    ConcatAssociates(output, name + ": " + value, CRLF);
    ConcatAssociates(output, name + ": ", value);
    ConcatAssociates(output, name, ": ");
    output + name + ": " + value + CRLF
  }

  method AppendRequest(verb: Bytes, target: Bytes) returns (output: Bytes)
    ensures output == RequestText(verb, target)
  {
    output := [];
    for i := 0 to |verb|
      invariant output == UpperAll(verb)[..i]
    {
      output := output + [Upper(verb[i])];
    }
    output := output + [' '];
    output := output + target;
    output := output + " HTTP/1.1\r\n";
    assert " HTTP/1.1" + CRLF == " HTTP/1.1\r\n";
    ConcatAssociates(UpperAll(verb) + [' '] + target, " HTTP/1.1", CRLF);
  }

  method AppendHost(output: Bytes, host: Host, port: Option<nat>) returns (r: Bytes)
    requires port.Some? ==> port.value < 65_536
    ensures r == output + FieldLine(HeaderField("Host", AuthorityText(host, port)))
  {
    var authority: Bytes := [];
    if host.V6? { authority := authority + "["; }
    authority := authority + host.text;
    if host.V6? { authority := authority + "]"; }
    assert authority == HostText(host);
    if port.Some? {
      authority := authority + ":";
      var digits := D.RenderDecimal(port.value);
      ConcatAssociates(HostText(host), ":", digits);
      authority := authority + digits;
    }
    r := AppendHeader(output, "Host", authority);
  }

  method AppendFraming(output: Bytes, framing: BodyFraming) returns (r: Bytes)
    requires framing.ContentLength? ==> framing.length < D.U64
    ensures r == output + RenderFields(FramingFields(framing))
  {
    ghost var fields := FramingFields(framing);
    if framing != NoBody { RenderOne(fields[0]); assert fields == [fields[0]]; }
    match framing {
      case NoBody => r := output;
      case ContentLength(length) =>
        var digits := D.RenderDecimal(length);
        r := AppendHeader(output, "Content-Length", digits);
      case Chunked => r := AppendHeader(output, "Transfer-Encoding", "chunked");
    }
  }

  method AppendForwarding(output: Bytes, f: ForwardingResult) returns (r: Bytes)
    ensures r == output + RenderFields(ForwardingFields(f))
  {
    var names: seq<Bytes> := ["Forwarded", "X-Forwarded-For", "X-Forwarded-Proto", "X-Forwarded-Host"];
    var values := [f.forwarded, f.xForwardedFor, f.xForwardedProto, f.xForwardedHost];
    ghost var fields := ForwardingFields(f);
    r := output;
    for index := 0 to 4
      invariant r == output + RenderFields(fields[..index])
    {
      RenderStep(fields, index);
      ConcatAssociates(output, RenderFields(fields[..index]), FieldLine(fields[index]));
      r := AppendHeader(r, names[index], values[index]);
    }
    assert fields[..4] == fields;
  }

  /** What follows the retained fields. */
  method AppendClosing(output: Bytes, m: Model) returns (r: Bytes)
    requires Typed(m)
    ensures r == output + (RenderFields(ClosingFields(m)) + CRLF)
  {
    var forwarded := AppendForwarding(output, m.forwarding);
    var framed := AppendFraming(forwarded, m.framing);
    r := framed + "Connection: close\r\n\r\n";
    ghost var forwarding, framing := ForwardingFields(m.forwarding), FramingFields(m.framing);
    RenderConcat(forwarding, framing);
    RenderConcat(forwarding + framing, [CLOSE]);
    RenderOne(CLOSE);
    assert "Connection: close\r\n\r\n" == FieldLine(CLOSE) + CRLF;
    hide RenderFields;
    ClosingPieces(output, RenderFields(forwarding), RenderFields(framing), FieldLine(CLOSE), CRLF);
  }

  lemma ClosingPieces(a: Bytes, b: Bytes, c: Bytes, d: Bytes, e: Bytes)
    ensures a + b + c + (d + e) == a + (b + c + d + e)
  {
  }

  lemma HeadInTwo(m: Model, host: Host)
    ensures HeadText(m, host) ==
      RequestText(m.verb, m.target.pathAndQuery) + FieldLine(HeaderField("Host", AuthorityText(host, m.authority.port)))
      + RenderFields(Retained(m.headers.fields)) + (RenderFields(ClosingFields(m)) + CRLF)
  {
    HeadParts(m, host);
    hide RenderFields;
    hide Retained;
    hide ClosingFields;
    hide RequestText;
    hide HeadText;
    ConcatAssociates(RequestText(m.verb, m.target.pathAndQuery)
      + FieldLine(HeaderField("Host", AuthorityText(host, m.authority.port)))
      + RenderFields(Retained(m.headers.fields)), RenderFields(ClosingFields(m)), CRLF);
  }

  // ---------- the compiled plan ----------

  const BYTE_TOKEN: bv8 := 1
  const BYTE_FIELD_VALUE: bv8 := 2
  const BYTE_UPPER_HEX: bv8 := 4
  const BYTE_UNRESERVED: bv8 := 8
  const BYTE_DNS: bv8 := 16

  /** One table entry answers five questions about a byte. */
  function ByteRule(c: Byte): (rule: bv8)
    ensures rule & BYTE_TOKEN != 0 <==> IsToken(c)
    ensures rule & BYTE_FIELD_VALUE != 0 <==> IsFieldValue(c)
    ensures rule & BYTE_UPPER_HEX != 0 <==> IsUpperHexDigit(c)
    ensures rule & BYTE_UNRESERVED != 0 <==> IsUnreserved(c)
    ensures rule & BYTE_DNS != 0 <==> IsLower(c) || IsDigit(c) || c == '-'
  {
    (if IsAlphanumeric(c) || IsTokenPunctuation(c) then BYTE_TOKEN else 0)
    | (if c == '\t' || ' ' <= c <= '~' || c as int >= 128 then BYTE_FIELD_VALUE else 0)
    | (if IsDigit(c) || 'A' <= c <= 'F' then BYTE_UPPER_HEX else 0)
    | (if IsAlphanumeric(c) || c == '-' || c == '.' || c == '_' || c == '~' then BYTE_UNRESERVED else 0)
    | (if IsLower(c) || IsDigit(c) || c == '-' then BYTE_DNS else 0)
  }

  predicate NameByRules(name: Bytes)
    ensures NameByRules(name) <==> CanonicalName(name)
  {
    1 <= |name| <= 128 && forall i :: 0 <= i < |name| ==> ByteRule(name[i]) & BYTE_TOKEN != 0 && !IsUpper(name[i])
  }

  predicate FieldByRules(field: HeaderField)
    ensures FieldByRules(field) <==> CanonicalField(field)
  {
    && NameByRules(field.name) && |field.value| <= HeaderSection.VALUE_MAX
    && !(exists i :: 0 <= i < |field.value| && ByteRule(field.value[i]) & BYTE_FIELD_VALUE == 0)
    && (field.value != [] ==> !IsOws(field.value[0])) && (field.value != [] ==> !IsOws(field.value[|field.value| - 1]))
  }

  method EscapesByRules(text: Bytes, query: nat) returns (ok: bool)
    ensures ok <==> EscapesOk(text, 0, query)
  {
    var cursor: nat := 0;
    while cursor < |text|
      invariant cursor <= |text|
      invariant EscapesOk(text, 0, query) <==> EscapesOk(text, cursor, query)
    {
      if text[cursor] != '%' {
        cursor := cursor + 1;
        continue;
      }
      if cursor + 3 > |text| { return false; }
      if ByteRule(text[cursor + 1]) & BYTE_UPPER_HEX == 0 || ByteRule(text[cursor + 2]) & BYTE_UPPER_HEX == 0 {
        return false;
      }
      var decoded := PercentEncoding.Octet(text[cursor + 1], text[cursor + 2]);
      if IsControl(decoded) || ByteRule(decoded) & BYTE_UNRESERVED != 0
         || (cursor < query && (decoded == '/' || decoded == '\\'))
      {
        return false;
      }
      cursor := cursor + 3;
    }
    return true;
  }

  datatype WirePlan = WirePlan(retained: nat, host: Host, encodedLen: nat)

  /** One pass over the fields checks them, marks the kept ones and adds up their sizes. */
  method PlanFields(headers: SanitizedHeaders, before: nat) returns (r: Option<(nat, nat)>)
    ensures r.Some? <==> HeadersOk(headers)
    ensures r.Some? ==> Marks(r.value.0, headers.fields, |headers.fields|)
    ensures r.Some? ==> r.value.1 == before + |RenderFields(Retained(headers.fields))|
  {
    hide CanonicalField;
    hide CanonicalName;
    hide SurvivorOf;
    var fields := headers.fields;
    if |fields| > FIELD_COUNT_MAX { return None; }
    var mask: nat, size := 0, before;
    for i := 0 to |fields|
      invariant Marks(mask, fields, i) && mask < W.Pow2(i)
      invariant size == before + |RenderFields(Retained(fields[..i]))|
      invariant forall k :: 0 <= k < i ==> CanonicalField(fields[k]) && SurvivorOf(fields[k].name) != Reject
    {
      if !FieldByRules(fields[i]) { return None; }
      MarkOne(mask, fields, i);
      RetainedStep(fields, i);
      RenderOne(fields[i]);
      match SurvivorOf(fields[i].name) {
        case Reject => return None;
        case Replace =>
        case Retain =>
          mask := W.BitOr(mask, Bit(i));
          size := size + FieldLineLen(|fields[i].name|, |fields[i].value|);
      }
    }
    assert fields[..|fields|] == fields;
    var ordered := ValidateRemoved(headers.removedNames);
    return if ordered then Some((mask, size)) else None;
  }

  method CompileWirePlan(m: Model, ipv6: Ipv6) returns (r: Result<WirePlan>)
    ensures !Trusted(m, ipv6) ==> r == Err(SerializationInvariant)
    ensures Trusted(m, ipv6) ==>
      var host := HostOf(m.authority.host, ipv6).value;
      var size := |HeadText(m, host)|;
      if size > HEAD_MAX then r == Err(LimitExceeded(CanonicalHeadBytes, HEAD_MAX, size))
      else r.Ok? && r.value.host == host && r.value.encodedLen == size
           && Marks(r.value.retained, m.headers.fields, |m.headers.fields|)
  {
    hide VerbOk;
    hide HostOf;
    hide FormOk;
    hide PathOk;
    hide EscapesOk;
    hide HeadersOk;
    hide ForwardingOk;
    hide FramingOk;
    hide HeadText;
    hide Retained;
    hide RenderFields;
    hide ClosingFields;
    if !VerbOk(m.verb) || m.authority.port == Some(0) { return Err(SerializationInvariant); }
    var parsed := HostOf(m.authority.host, ipv6);
    if parsed.None? || !FormOk(m.target, parsed.value, m.authority.port, ipv6) { return Err(SerializationInvariant); }
    var query := PathShape(m.target.pathAndQuery, m.target.routingPath);
    if query.None? { return Err(SerializationInvariant); }
    var escapes := EscapesByRules(m.target.pathAndQuery, query.value);
    if !escapes { return Err(SerializationInvariant); }
    var host := parsed.value;
    var encodedLen := |m.verb| + 1 + |m.target.pathAndQuery| + |" HTTP/1.1\r\n"|;
    var rendered := |host.text| + (if host.V6? then 2 else 0);
    if m.authority.port.Some? {
      var digits := D.LogLen(m.authority.port.value);
      rendered := rendered + 1 + digits;
    }
    encodedLen := encodedLen + (|"Host: \r\n"| + rendered);
    var fields := PlanFields(m.headers, encodedLen);
    if fields.None? { return Err(SerializationInvariant); }
    encodedLen := fields.value.1;
    var closing := PlanClosing(m, encodedLen);
    if closing.None? { return Err(SerializationInvariant); }
    encodedLen := closing.value;
    HeadLength(m, host);
    if encodedLen > HEAD_MAX { return Err(LimitExceeded(CanonicalHeadBytes, HEAD_MAX, encodedLen)); }
    return Ok(WirePlan(fields.value.0, host, encodedLen));
  }

  method PlanForwarding(f: ForwardingResult, before: nat) returns (r: Option<nat>)
    ensures r.Some? <==> ForwardingOk(f)
    ensures r.Some? ==> r.value == before + |RenderFields(ForwardingFields(f))|
  {
    hide ForwardingValueOk;
    var names: seq<Bytes> := ["Forwarded", "X-Forwarded-For", "X-Forwarded-Proto", "X-Forwarded-Host"];
    var values := [f.forwarded, f.xForwardedFor, f.xForwardedProto, f.xForwardedHost];
    ghost var fields := ForwardingFields(f);
    var size := before;
    for index := 0 to 4
      invariant size == before + |RenderFields(fields[..index])|
      invariant forall k :: 0 <= k < index ==> ForwardingValueOk(values[k])
    {
      if !ForwardingValueOk(values[index]) { return None; }
      RenderStep(fields, index);
      RenderOne(fields[index]);
      size := size + FieldLineLen(|names[index]|, |values[index]|);
    }
    assert fields[..4] == fields;
    assert ForwardingValueOk(values[0]) && ForwardingValueOk(values[1]) && ForwardingValueOk(values[2]) && ForwardingValueOk(values[3]);
    return Some(size);
  }

  method PlanClosing(m: Model, before: nat) returns (r: Option<nat>)
    ensures r.Some? <==> ForwardingOk(m.forwarding) && FramingOk(m.framing)
    ensures r.Some? ==> r.value == before + |RenderFields(ClosingFields(m))| + 2
  {
    hide ForwardingOk;
    hide RenderFields;
    var forwarded := PlanForwarding(m.forwarding, before);
    if forwarded.None? { return None; }
    var size := forwarded.value;
    match m.framing {
      case NoBody =>
      case ContentLength(length) =>
        if length > BODY_MAX { return None; }
        var digits := D.LogLen(length);
        size := size + |"Content-Length: \r\n"| + digits;
      case Chunked => size := size + |"Transfer-Encoding: chunked\r\n"|;
    }
    ClosingLength(m);
    return Some(size + |"Connection: close\r\n\r\n"|);
  }

  method AppendMarked(output: Bytes, fields: seq<HeaderField>, retained: nat) returns (r: Bytes)
    requires Marks(retained, fields, |fields|) && |fields| <= FIELD_COUNT_MAX
    ensures r == output + RenderFields(Retained(fields))
  {
    hide SurvivorOf;
    r := output;
    for i := 0 to |fields|
      invariant r == output + RenderFields(Retained(fields[..i]))
    {
      RetainedStep(fields, i);
      ConcatAssociates(output, RenderFields(Retained(fields[..i])), FieldLine(fields[i]));
      var kept := IsMarked(retained, fields, i);
      if kept { r := AppendHeader(r, fields[i].name, fields[i].value); }
    }
    assert fields[..|fields|] == fields;
  }

  /** The plan's size is exact and its mask picks the fields. */
  method ConstructFromPlan(m: Model, ipv6: Ipv6) returns (r: Result<Head>)
    requires Typed(m)
    ensures r == Construct(m, ipv6)
  {
    var compiled := CompileWirePlan(m, ipv6);
    if compiled.Err? { return Err(compiled.error); }
    var plan := compiled.value;
    var bytes := AppendRequest(m.verb, m.target.pathAndQuery);
    bytes := AppendHost(bytes, plan.host, m.authority.port);
    bytes := AppendMarked(bytes, m.headers.fields, plan.retained);
    bytes := AppendClosing(bytes, m);
    HeadInTwo(m, plan.host);
    assert |bytes| == plan.encodedLen;
    return Ok(Head(bytes, m.framing));
  }

  // ---------- independent phases ----------

  class SizeBudget {
    var total: nat

    constructor ()
      ensures total == 0
    {
      total := 0;
    }

    method Add(amount: nat)
      modifies this
      ensures total == old(total) + amount
    {
      total := total + amount;
    }

    method Finish() returns (r: Result<nat>)
      ensures r == if total > HEAD_MAX then Err(LimitExceeded(CanonicalHeadBytes, HEAD_MAX, total)) else Ok(total)
    {
      return if total > HEAD_MAX then Err(LimitExceeded(CanonicalHeadBytes, HEAD_MAX, total)) else Ok(total);
    }
  }

  /** The action table of the phased printer lists one forwarding name twice. */
  function FieldAction(name: Bytes): (action: Survivor)
    ensures action == SurvivorOf(name)
  {
    if name == "host" || name == "content-length" || name == "transfer-encoding" || name == "connection"
       || name == "forwarded" || name == "x-forwarded-for" || "x-forwarded-" <= name then Replace
    else if name == "proxy-connection" || name == "keep-alive" || name == "te" || name == "trailer" || name == "upgrade"
            || name == "proxy-authenticate" || name == "proxy-authorization" then Reject
    else Retain
  }

  method SerializedSize(m: Model, host: Host) returns (r: Result<nat>)
    ensures var size := |HeadText(m, host)|;
      r == if size > HEAD_MAX then Err(LimitExceeded(CanonicalHeadBytes, HEAD_MAX, size)) else Ok(size)
  {
    hide SurvivorOf;
    hide HeadText;
    hide ClosingFields;
    var size := new SizeBudget();
    size.Add(|m.verb| + 1 + |m.target.pathAndQuery| + |" HTTP/1.1\r\n"|);
    var port: nat := 0;
    if m.authority.port.Some? {
      var digits := D.DecimalLen(m.authority.port.value);
      port := 1 + digits;
    }
    size.Add(|"Host: "| + (|host.text| + (if host.V6? then 2 else 0)) + port + 2);
    var fields := m.headers.fields;
    ghost var before := size.total;
    for i := 0 to |fields|
      invariant size.total == before + |RenderFields(Retained(fields[..i]))|
    {
      RetainedStep(fields, i);
      RenderOne(fields[i]);
      if FieldAction(fields[i].name) == Retain { size.Add(FieldLineLen(|fields[i].name|, |fields[i].value|)); }
    }
    assert fields[..|fields|] == fields;
    SizeClosing(size, m);
    HeadLength(m, host);
    r := size.Finish();
  }

  method SizeClosing(size: SizeBudget, m: Model)
    modifies size
    ensures size.total == old(size.total) + |RenderFields(ClosingFields(m))| + 2
  {
    var f := m.forwarding;
    size.Add(FieldLineLen(|"Forwarded"|, |f.forwarded|));
    size.Add(FieldLineLen(|"X-Forwarded-For"|, |f.xForwardedFor|));
    size.Add(FieldLineLen(|"X-Forwarded-Proto"|, |f.xForwardedProto|));
    size.Add(FieldLineLen(|"X-Forwarded-Host"|, |f.xForwardedHost|));
    ForwardingLength(f);
    match m.framing {
      case NoBody =>
      case ContentLength(length) =>
        var digits := D.DecimalLen(length);
        size.Add(|"Content-Length: \r\n"| + digits);
      case Chunked => size.Add(|"Transfer-Encoding: chunked\r\n"|);
    }
    size.Add(|"Connection: close\r\n\r\n"|);
    ClosingLength(m);
  }

  method AppendPreserved(output: Bytes, fields: seq<HeaderField>) returns (r: Bytes)
    ensures r == output + RenderFields(Retained(fields))
  {
    hide SurvivorOf;
    r := output;
    for i := 0 to |fields|
      invariant r == output + RenderFields(Retained(fields[..i]))
    {
      RetainedStep(fields, i);
      ConcatAssociates(output, RenderFields(Retained(fields[..i])), FieldLine(fields[i]));
      if FieldAction(fields[i].name) == Retain { r := AppendHeader(r, fields[i].name, fields[i].value); }
    }
    assert fields[..|fields|] == fields;
  }

  /** Validate, size, emit. */
  method ConstructInPhases(m: Model, ipv6: Ipv6) returns (r: Result<Head>)
    requires Typed(m)
    ensures r == Construct(m, ipv6)
  {
    var trusted := Validate(m, ipv6);
    if trusted.None? { return Err(SerializationInvariant); }
    var host := trusted.value.host;
    var size := SerializedSize(m, host);
    if size.Err? { return Err(size.error); }
    var bytes := AppendRequest(m.verb, m.target.pathAndQuery);
    bytes := AppendHost(bytes, host, m.authority.port);
    bytes := AppendPreserved(bytes, m.headers.fields);
    bytes := AppendClosing(bytes, m);
    HeadInTwo(m, host);
    assert |bytes| == size.value;
    return Ok(Head(bytes, m.framing));
  }
}
