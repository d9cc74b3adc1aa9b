/** What the reader of a printed head finds in it, field by field. */
module PrintedBlock {
  import opened ByteClasses
  import opened Bytes
  import opened CanonicalHead
  import D = Decimals
  import opened HeaderPrinting
  import opened HeadReading
  import opened HeadRoundTrip
  import opened Http

  /** The values of the fields with this name, in order. */
  function ValuesOf(fields: seq<HeaderField>, name: Bytes): seq<Bytes> {
    if fields == [] then []
    else (if fields[0].name == name then [fields[0].value] else []) + ValuesOf(fields[1..], name)
  }

  const HOST_NAME: Bytes := "host"
  const FORWARDED: Bytes := "forwarded"
  const FORWARDED_FOR: Bytes := "x-forwarded-for"
  const FORWARDED_PROTO: Bytes := "x-forwarded-proto"
  const FORWARDED_HOST: Bytes := "x-forwarded-host"
  const LENGTH: Bytes := "content-length"
  const CODING: Bytes := "transfer-encoding"
  const CONNECTION: Bytes := "connection"

  /** The names that the proxy writes itself. */
  predicate Owned(name: Bytes) {
    || name == HOST_NAME || name == FORWARDED || "x-forwarded-" <= name
    || name == LENGTH || name == CODING || name == CONNECTION
  }

  /** The fields with other names, in order. */
  function Others(fields: seq<HeaderField>): seq<HeaderField> {
    if fields == [] then []
    else (if Owned(fields[0].name) then [] else [fields[0]]) + Others(fields[1..])
  }

  /** The authority as a `Host` field has it: an address in brackets, and the port if there is one. */
  function HostValue(authority: EffectiveAuthority): Bytes {
    (if ':' in authority.host && authority.host[0] != '[' then "[" + authority.host + "]" else authority.host)
    + (if authority.port.Some? then ":" + D.Render(authority.port.value) else [])
  }

  lemma {:induction false} ValuesConcat(a: seq<HeaderField>, b: seq<HeaderField>, name: Bytes)
    ensures ValuesOf(a + b, name) == ValuesOf(a, name) + ValuesOf(b, name)
  {
    if a == [] {
      assert a + b == b;
    } else {
      assert (a + b)[1..] == a[1..] + b;
      ValuesConcat(a[1..], b, name);
    }
  }

  lemma {:induction false} OthersConcat(a: seq<HeaderField>, b: seq<HeaderField>)
    ensures Others(a + b) == Others(a) + Others(b)
  {
    hide Owned;
    if a == [] {
      assert a + b == b;
    } else {
      assert (a + b)[1..] == a[1..] + b;
      OthersConcat(a[1..], b);
    }
  }

  // ---------- the fields of the model ----------

  lemma OwnedIsReplaced(name: Bytes)
    ensures Owned(name) <==> SurvivorOf(name) == Replace
  {
  }

  lemma {:induction false} RetainedAreOthers(fields: seq<HeaderField>)
    requires forall i :: 0 <= i < |fields| ==> SurvivorOf(fields[i].name) != Reject
    ensures Retained(fields) == Others(fields) && Others(Others(fields)) == Others(fields)
  {
    hide SurvivorOf;
    hide Owned;
    if fields != [] {
      RetainedAreOthers(fields[1..]);
      OwnedIsReplaced(fields[0].name);
      if !Owned(fields[0].name) {
        assert ([fields[0]] + Others(fields[1..]))[1..] == Others(fields[1..]);
      } else {
        assert [] + Others(fields[1..]) == Others(fields[1..]);
      }
    }
  }

  lemma {:induction false} NoneOwned(fields: seq<HeaderField>, name: Bytes)
    requires Owned(name)
    ensures ValuesOf(Others(fields), name) == []
  {
    hide Owned;
    if fields != [] {
      NoneOwned(fields[1..], name);
      var rest := Others(fields[1..]);
      if !Owned(fields[0].name) {
        assert ([fields[0]] + rest)[1..] == rest;
      } else {
        assert [] + rest == rest;
      }
    }
  }

  // ---------- the fields of the proxy ----------

  lemma LoweredTwo(a: HeaderField, b: HeaderField)
    ensures Lowered([a, b]) == [HeaderField(LowerAll(a.name), a.value), HeaderField(LowerAll(b.name), b.value)]
  {
    hide LowerAll;
    assert [a, b][1..] == [b];
  }

  lemma ForwardedLowered()
    ensures LowerAll("Forwarded") == FORWARDED
  {
  }

  lemma ForwardedForLowered()
    ensures LowerAll("X-Forwarded-For") == FORWARDED_FOR
  {
  }

  lemma ForwardedProtoLowered()
    ensures LowerAll("X-Forwarded-Proto") == FORWARDED_PROTO
  {
  }

  lemma ForwardedHostLowered()
    ensures LowerAll("X-Forwarded-Host") == FORWARDED_HOST
  {
  }

  /** Each forwarding value stands under its own name. */
  lemma LoweredForwarding(f: ForwardingResult)
    ensures Lowered(ForwardingFields(f)) ==
      [HeaderField(FORWARDED, f.forwarded), HeaderField(FORWARDED_FOR, f.xForwardedFor)]
      + [HeaderField(FORWARDED_PROTO, f.xForwardedProto), HeaderField(FORWARDED_HOST, f.xForwardedHost)]
  {
    hide LowerAll;
    hide Lowered;
    ForwardedLowered();
    ForwardedForLowered();
    ForwardedProtoLowered();
    ForwardedHostLowered();
    var a, b := HeaderField("Forwarded", f.forwarded), HeaderField("X-Forwarded-For", f.xForwardedFor);
    var c, d := HeaderField("X-Forwarded-Proto", f.xForwardedProto), HeaderField("X-Forwarded-Host", f.xForwardedHost);
    assert ForwardingFields(f) == [a, b] + [c, d];
    LoweredConcat([a, b], [c, d]);
    LoweredTwo(a, b);
    LoweredTwo(c, d);
  }

  lemma LoweredClose()
    ensures Lowered([CLOSE]) == [HeaderField(CONNECTION, "close")]
  {
    assert LowerAll("Connection") == CONNECTION;
  }

  lemma HostLine(authority: EffectiveAuthority, ipv6: Ipv6)
    requires HostOf(authority.host, ipv6).Some? && AddressSyntax(ipv6)
    ensures AuthorityText(HostOf(authority.host, ipv6).value, authority.port) == HostValue(authority)
  {
    var text := authority.host;
    hide D.Render;
    if Bracketed(text) {
      assert text == ['['] + text[1..|text| - 1] + [']'];
    } else if ':' !in text {
      assert HostOf(text, ipv6) == Some(Name(text));
    } else {
      assert AddressByte(text[0]);
    }
  }

  // ---------- forwarding values ----------

  /** A stretch of spaces, perhaps empty, that is all there is between two commas, or a comma and an end. */
  predicate Blank(value: Bytes, i: nat, j: nat) {
    && i <= j <= |value| && (i > 0 ==> value[i - 1] == ',') && (j < |value| ==> value[j] == ',')
    && forall k :: i <= k < j ==> value[k] == ' '
  }

  lemma BlankPart(value: Bytes)
    ensures (exists i: nat, j: nat :: Blank(value, i, j)) <==>
            !(forall part :: part in Split(value, ',') ==> exists k :: 0 <= k < |part| && part[k] != ' ')
  {
    hide Split;
    if exists i: nat, j: nat :: Blank(value, i, j) {
      var i: nat, j: nat :| Blank(value, i, j);
      BetweenIsPart(value, ',', i, j);
      assert forall k :: 0 <= k < |value[i..j]| ==> value[i..j][k] == ' ';
    }
    if !(forall part :: part in Split(value, ',') ==> exists k :: 0 <= k < |part| && part[k] != ' ') {
      var part :| part in Split(value, ',') && !(exists k :: 0 <= k < |part| && part[k] != ' ');
      var i, j := PartIsBetween(value, ',', part);
      assert forall k :: i <= k < j ==> value[k] == part[k - i];
      assert Blank(value, i, j);
    }
  }

  /** The printers accept a forwarding value exactly when it is printable text of at most 1024 bytes without outer spaces
      and without an empty member. */
  lemma ForwardingValueMeans(value: Bytes)
    ensures ForwardingValueOk(value) <==>
      && 1 <= |value| <= 1_024 && (forall i :: 0 <= i < |value| ==> 32 <= value[i] as int <= 126)
      && value[0] != ' ' && value[|value| - 1] != ' ' && forall i: nat, j: nat :: !Blank(value, i, j)
  {
    BlankPart(value);
    hide Split;
    hide Blank;
  }

  // ---------- the block ----------

  /** The framing line, if there is one. */
  function FramingLines(framing: BodyFraming): seq<HeaderField> {
    match framing
    case NoBody => []
    case ContentLength(length) => [HeaderField(LENGTH, D.Render(length))]
    case Chunked => [HeaderField(CODING, "chunked")]
  }

  function ForwardingLines(f: ForwardingResult): seq<HeaderField> {
    [HeaderField(FORWARDED, f.forwarded), HeaderField(FORWARDED_FOR, f.xForwardedFor)]
    + [HeaderField(FORWARDED_PROTO, f.xForwardedProto), HeaderField(FORWARDED_HOST, f.xForwardedHost)]
  }

  /** The fields a reader finds in a printed head, and their order. */
  lemma PrintedFields(m: Model, ipv6: Ipv6)
    requires Typed(m) && Construct(m, ipv6).Ok? && AddressSyntax(ipv6) && Readable(m, HostOf(m.authority.host, ipv6).value)
    ensures var r := ReadRequest(Construct(m, ipv6).value.bytes);
      && r.Ok?
      && r.value.block.fields ==
         [HeaderField(HOST_NAME, HostValue(m.authority))] + Others(m.headers.fields)
         + ForwardingLines(m.forwarding) + FramingLines(m.framing) + [HeaderField(CONNECTION, "close")]
  {
    var host := HostOf(m.authority.host, ipv6).value;
    PrintedHeadReadsBack(m, ipv6);
    TrustedParts(m, ipv6);
    hide Readable;
    hide ReadRequest;
    hide Typed;
    hide Trusted;
    hide HeadText;
    hide AddressSyntax;
    hide HostOf;
    BlockParts(m, host);
    HostLine(m.authority, ipv6);
    LoweredForwarding(m.forwarding);
    LoweredClose();
    SurvivorsAreOthers(m.headers);
    hide BlockFields;
    hide HostValue;
    hide Lowered;
    hide Retained;
    hide Others;
    hide ForwardingFields;
  }

  lemma SurvivorsAreOthers(headers: SanitizedHeaders)
    requires HeadersOk(headers)
    ensures Retained(headers.fields) == Others(headers.fields)
  {
    hide SurvivorOf;
    RetainedAreOthers(headers.fields);
  }

  lemma ValuesOfParts(host: HeaderField, others: seq<HeaderField>, forwarding: seq<HeaderField>, framing: seq<HeaderField>,
                      close: HeaderField, name: Bytes)
    ensures ValuesOf([host] + others + forwarding + framing + [close], name) ==
            ValuesOf([host], name) + ValuesOf(others, name) + ValuesOf(forwarding, name) + ValuesOf(framing, name)
            + ValuesOf([close], name)
  {
    hide ValuesOf;
    ValuesConcat([host], others, name);
    ValuesConcat([host] + others, forwarding, name);
    ValuesConcat([host] + others + forwarding, framing, name);
    ValuesConcat([host] + others + forwarding + framing, [close], name);
  }

  // ---------- field by field ----------

  function ValueIf(field: HeaderField, name: Bytes): seq<Bytes> {
    if field.name == name then [field.value] else []
  }

  lemma OneValue(field: HeaderField, name: Bytes)
    ensures ValuesOf([field], name) == ValueIf(field, name)
    ensures Others([field]) == if Owned(field.name) then [] else [field]
  {
    hide Owned;
  }

  lemma TwoValues(a: HeaderField, b: HeaderField, name: Bytes)
    ensures ValuesOf([a, b], name) == ValueIf(a, name) + ValueIf(b, name)
    ensures Owned(a.name) && Owned(b.name) ==> Others([a, b]) == []
  {
    hide Owned;
    assert [a, b][1..] == [b];
    OneValue(b, name);
  }

  lemma FramingValues(framing: BodyFraming, name: Bytes)
    requires Owned(name)
    ensures ValuesOf(FramingLines(framing), name) ==
      if framing.ContentLength? && name == LENGTH then [D.Render(framing.length)]
      else if framing.Chunked? && name == CODING then ["chunked"]
      else []
    ensures Others(FramingLines(framing)) == []
  {
    hide D.Render;
    match framing {
      case NoBody =>
      case ContentLength(length) => OneValue(HeaderField(LENGTH, D.Render(length)), name);
      case Chunked => OneValue(HeaderField(CODING, "chunked"), name);
    }
  }

  lemma NamesAreOwned()
    ensures Owned(HOST_NAME) && Owned(FORWARDED) && Owned(FORWARDED_FOR) && Owned(FORWARDED_PROTO) && Owned(FORWARDED_HOST)
    ensures Owned(LENGTH) && Owned(CODING) && Owned(CONNECTION)
  {
  }

  lemma NamesDiffer()
    ensures |HOST_NAME| == 4 && |FORWARDED| == 9 && |FORWARDED_FOR| == 15 && |FORWARDED_HOST| == 16
    ensures |FORWARDED_PROTO| == 17 && |LENGTH| == 14 && |CODING| == 17 && |CONNECTION| == 10
    ensures FORWARDED_PROTO[0] == 'x' && CODING[0] == 't'
  {
  }

  /** The values under a name of the proxy's own. */
  lemma BlockValues(hostValue: Bytes, headers: seq<HeaderField>, f: ForwardingResult, framing: BodyFraming, name: Bytes)
    requires Owned(name)
    ensures var fields := [HeaderField(HOST_NAME, hostValue)] + Others(headers) + ForwardingLines(f) + FramingLines(framing)
                          + [HeaderField(CONNECTION, "close")];
      && ValuesOf(fields, name) ==
           ValueIf(HeaderField(HOST_NAME, hostValue), name)
           + ValueIf(HeaderField(FORWARDED, f.forwarded), name) + ValueIf(HeaderField(FORWARDED_FOR, f.xForwardedFor), name)
           + ValueIf(HeaderField(FORWARDED_PROTO, f.xForwardedProto), name)
           + ValueIf(HeaderField(FORWARDED_HOST, f.xForwardedHost), name)
           + ValuesOf(FramingLines(framing), name) + ValueIf(HeaderField(CONNECTION, "close"), name)
  {
    var a, b := HeaderField(FORWARDED, f.forwarded), HeaderField(FORWARDED_FOR, f.xForwardedFor);
    var c, d := HeaderField(FORWARDED_PROTO, f.xForwardedProto), HeaderField(FORWARDED_HOST, f.xForwardedHost);
    hide Owned;
    hide ValuesOf;
    hide FramingLines;
    hide Others;
    hide ValueIf;
    ValuesOfParts(HeaderField(HOST_NAME, hostValue), Others(headers), ForwardingLines(f), FramingLines(framing),
                  HeaderField(CONNECTION, "close"), name);
    OneValue(HeaderField(HOST_NAME, hostValue), name);
    OneValue(HeaderField(CONNECTION, "close"), name);
    NoneOwned(headers, name);
    ValuesConcat([a, b], [c, d], name);
    TwoValues(a, b, name);
    TwoValues(c, d, name);
  }

  lemma FramingValueIs(framing: BodyFraming)
    ensures ValuesOf(FramingLines(framing), LENGTH) == if framing.ContentLength? then [D.Render(framing.length)] else []
    ensures ValuesOf(FramingLines(framing), CODING) == if framing.Chunked? then ["chunked"] else []
    ensures forall name :: Owned(name) && name != LENGTH && name != CODING ==> ValuesOf(FramingLines(framing), name) == []
  {
    NamesAreOwned();
    hide Owned;
    hide D.Render;
    hide FramingLines;
    hide ValuesOf;
    assert LENGTH != CODING by { NamesDiffer(); }
    FramingValues(framing, LENGTH);
    FramingValues(framing, CODING);
    forall name | Owned(name) && name != LENGTH && name != CODING ensures ValuesOf(FramingLines(framing), name) == [] {
      FramingValues(framing, name);
    }
  }

  lemma OwnValues(hostValue: Bytes, headers: seq<HeaderField>, f: ForwardingResult, framing: BodyFraming)
    ensures var fields := [HeaderField(HOST_NAME, hostValue)] + Others(headers) + ForwardingLines(f) + FramingLines(framing)
                          + [HeaderField(CONNECTION, "close")];
      && ValuesOf(fields, HOST_NAME) == [hostValue]
      && ValuesOf(fields, FORWARDED) == [f.forwarded] && ValuesOf(fields, FORWARDED_FOR) == [f.xForwardedFor]
      && ValuesOf(fields, FORWARDED_PROTO) == [f.xForwardedProto] && ValuesOf(fields, FORWARDED_HOST) == [f.xForwardedHost]
      && ValuesOf(fields, LENGTH) == (if framing.ContentLength? then [D.Render(framing.length)] else [])
      && ValuesOf(fields, CODING) == (if framing.Chunked? then ["chunked"] else [])
      && ValuesOf(fields, CONNECTION) == ["close"]
  {
    NamesAreOwned();
    NamesDiffer();
    FramingValueIs(framing);
    hide Owned;
    hide D.Render;
    hide ValuesOf;
    hide FramingLines;
    hide ForwardingLines;
    hide Others;
    hide HOST_NAME;
    hide FORWARDED;
    hide FORWARDED_FOR;
    hide FORWARDED_PROTO;
    hide FORWARDED_HOST;
    hide LENGTH;
    hide CODING;
    hide CONNECTION;
    BlockValues(hostValue, headers, f, framing, HOST_NAME);
    BlockValues(hostValue, headers, f, framing, FORWARDED);
    BlockValues(hostValue, headers, f, framing, FORWARDED_FOR);
    BlockValues(hostValue, headers, f, framing, FORWARDED_PROTO);
    BlockValues(hostValue, headers, f, framing, FORWARDED_HOST);
    BlockValues(hostValue, headers, f, framing, LENGTH);
    BlockValues(hostValue, headers, f, framing, CODING);
    BlockValues(hostValue, headers, f, framing, CONNECTION);
  }

  lemma {:induction false} OthersAgain(fields: seq<HeaderField>)
    ensures Others(Others(fields)) == Others(fields)
  {
    hide Owned;
    if fields != [] {
      OthersAgain(fields[1..]);
      if !Owned(fields[0].name) { assert ([fields[0]] + Others(fields[1..]))[1..] == Others(fields[1..]); }
      else { assert [] + Others(fields[1..]) == Others(fields[1..]); }
    }
  }

  lemma OtherFields(hostValue: Bytes, headers: seq<HeaderField>, f: ForwardingResult, framing: BodyFraming)
    ensures Others([HeaderField(HOST_NAME, hostValue)] + Others(headers) + ForwardingLines(f) + FramingLines(framing)
                   + [HeaderField(CONNECTION, "close")]) == Others(headers)
  {
    var host, close := HeaderField(HOST_NAME, hostValue), HeaderField(CONNECTION, "close");
    var a, b := HeaderField(FORWARDED, f.forwarded), HeaderField(FORWARDED_FOR, f.xForwardedFor);
    var c, d := HeaderField(FORWARDED_PROTO, f.xForwardedProto), HeaderField(FORWARDED_HOST, f.xForwardedHost);
    NamesAreOwned();
    hide Owned;
    hide Others;
    hide ValuesOf;
    hide FramingLines;
    OthersConcat([host], Others(headers));
    OthersConcat([host] + Others(headers), ForwardingLines(f));
    OthersConcat([host] + Others(headers) + ForwardingLines(f), FramingLines(framing));
    OthersConcat([host] + Others(headers) + ForwardingLines(f) + FramingLines(framing), [close]);
    OthersConcat([a, b], [c, d]);
    OthersAgain(headers);
    TwoValues(a, b, LENGTH);
    TwoValues(c, d, LENGTH);
    OneValue(host, LENGTH);
    OneValue(close, LENGTH);
    FramingValues(framing, LENGTH);
  }

  /** The host, each forwarding value, the framing and the connection option stand once, each under its own name with
      the value of the model; the other fields are those of the model, in order, and none with another name than the
      proxy's own is dropped. */
  predicate Shows(fields: seq<HeaderField>, m: Model) {
    && ValuesOf(fields, "host") == [HostValue(m.authority)]
    && ValuesOf(fields, "forwarded") == [m.forwarding.forwarded]
    && ValuesOf(fields, "x-forwarded-for") == [m.forwarding.xForwardedFor]
    && ValuesOf(fields, "x-forwarded-proto") == [m.forwarding.xForwardedProto]
    && ValuesOf(fields, "x-forwarded-host") == [m.forwarding.xForwardedHost]
    && ValuesOf(fields, "content-length") == (if m.framing.ContentLength? then [D.Render(m.framing.length)] else [])
    && ValuesOf(fields, "transfer-encoding") == (if m.framing.Chunked? then ["chunked"] else [])
    && ValuesOf(fields, "connection") == ["close"]
    && Others(fields) == Others(m.headers.fields)
  }

  lemma FieldsShow(m: Model)
    ensures Shows([HeaderField(HOST_NAME, HostValue(m.authority))] + Others(m.headers.fields)
                  + ForwardingLines(m.forwarding) + FramingLines(m.framing) + [HeaderField(CONNECTION, "close")], m)
  {
    hide ValuesOf;
    hide Others;
    hide HostValue;
    hide ForwardingLines;
    hide FramingLines;
    hide D.Render;
    OwnValues(HostValue(m.authority), m.headers.fields, m.forwarding, m.framing);
    OtherFields(HostValue(m.authority), m.headers.fields, m.forwarding, m.framing);
  }

  /** The block read from a printed head shows the model. */
  lemma PrintedHeadShowsModel(m: Model, ipv6: Ipv6)
    requires Typed(m) && Construct(m, ipv6).Ok? && AddressSyntax(ipv6) && Readable(m, HostOf(m.authority.host, ipv6).value)
    ensures var r := ReadRequest(Construct(m, ipv6).value.bytes); r.Ok? && Shows(r.value.block.fields, m)
  {
    hide Readable;
    hide ReadRequest;
    hide Typed;
    hide Construct;
    hide Shows;
    hide HostValue;
    hide AddressSyntax;
    PrintedFields(m, ipv6);
    FieldsShow(m);
  }
}
