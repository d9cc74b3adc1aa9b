/** Heads that the printers produce and the readers refuse: the limits of the two sides differ. */
module OversizeHeads {
  import opened Bytes
  import opened CanonicalHead
  import opened CanonicalHeadPath
  import opened HeaderPrinting
  import opened HeaderSection
  import HeadLengths
  import opened HeadReading
  import opened HeadRoundTrip
  import opened HeadWire
  import opened Http
  import H = ReadHead
  import L = RequestLineDirect
  import N = RequestTarget
  import opened Streams

  const LETTER: Bytes := "a"
  const NAME: Bytes := "x"
  const VERB: Bytes := "get"
  const CONNECT: Bytes := "connect"
  const ROOT: Bytes := "/"

  /** A plain request with some fields of its own. */
  function Sample(verb: Bytes, path: Bytes, fields: seq<HeaderField>): Model {
    Model(verb, NormalizedTarget(Origin, None, None, path, path), EffectiveAuthority(LETTER, None),
          SanitizedHeaders(fields, []), NoBody, ForwardingResult(LETTER, LETTER, LETTER, LETTER))
  }

  const HOST: Host := Name(LETTER)

  lemma LetterIsHost(ipv6: Ipv6)
    ensures HostOf(LETTER, ipv6) == Some(HOST)
  {
    SplitLast(LETTER, '.');
  }

  lemma LetterIsForwarded()
    ensures ForwardingValueOk(LETTER)
  {
    SplitLast(LETTER, ',');
    assert LETTER[0] != ' ';
  }

  lemma VerbIsPrintable()
    ensures VerbOk(VERB) && VerbOk(CONNECT) && |VERB| == 3
  {
  }

  lemma SampleIsTrusted(verb: Bytes, path: Bytes, fields: seq<HeaderField>, ipv6: Ipv6)
    requires VerbOk(verb) && PathOk(path, path) && |fields| <= FIELD_COUNT_MAX && AllPass(fields)
    ensures Typed(Sample(verb, path, fields)) && Trusted(Sample(verb, path, fields), ipv6)
  {
    hide VerbOk;
    hide PathOk;
    hide AllPass;
    hide HostOf;
    hide ForwardingValueOk;
    LetterIsHost(ipv6);
    LetterIsForwarded();
  }

  // ---------- how long the text is ----------

  /** The fields that every sample has. */
  lemma ClosingLength(verb: Bytes, path: Bytes, fields: seq<HeaderField>)
    ensures var m := Sample(verb, path, fields);
      |RenderFields(ClosingFields(m))| == 96 && |FieldLine(HeaderField("Host", AuthorityText(HOST, None)))| == 9
  {
    hide RenderFields;
    hide FieldLine;
    var forwarding := ForwardingFields(Sample(verb, path, fields).forwarding);
    RenderOne(HeaderField("Host", AuthorityText(HOST, None)));
    HeadLengths.ForwardingLength(Sample(verb, path, fields).forwarding);
    RenderConcat(forwarding, [CLOSE]);
    RenderOne(CLOSE);
    assert forwarding + [] == forwarding;
  }

  lemma SampleLength(verb: Bytes, path: Bytes, fields: seq<HeaderField>)
    ensures var m := Sample(verb, path, fields);
      && LineContent(m) == |verb| + |path| + 10
      && |HeadText(m, HOST)| == |verb| + |path| + |RenderFields(Retained(fields))| + 119
  {
    var m := Sample(verb, path, fields);
    hide RenderFields;
    hide FieldLine;
    hide Retained;
    hide AuthorityText;
    hide HeadText;
    hide RequestText;
    ClosingLength(verb, path, fields);
    hide ClosingFields;
    HeadParts(m, HOST);
    RequestThenSection(m, HOST);
  }

  /** A sample that fits the printers' limit is printed. */
  lemma SampleIsPrinted(verb: Bytes, path: Bytes, fields: seq<HeaderField>, ipv6: Ipv6)
    requires VerbOk(verb) && PathOk(path, path) && |fields| <= FIELD_COUNT_MAX && AllPass(fields)
    requires |verb| + |path| + |RenderFields(Retained(fields))| + 119 <= HEAD_MAX
    ensures var m := Sample(verb, path, fields);
      && Typed(m) && Construct(m, ipv6).Ok? && HostOf(m.authority.host, ipv6) == Some(HOST)
      && |Construct(m, ipv6).value.bytes| == |verb| + |path| + |RenderFields(Retained(fields))| + 119
  {
    LetterIsHost(ipv6);
    SampleIsTrusted(verb, path, fields, ipv6);
    SampleLength(verb, path, fields);
    hide VerbOk;
    hide PathOk;
    hide AllPass;
    hide Trusted;
    hide HeadText;
    hide RenderFields;
    hide Retained;
    hide Typed;
    hide HostOf;
    hide Construct;
    TrustedIsPrinted(Sample(verb, path, fields), HOST, ipv6);
  }

  lemma TrustedIsPrinted(m: Model, host: Host, ipv6: Ipv6)
    requires Trusted(m, ipv6) && HostOf(m.authority.host, ipv6) == Some(host) && |HeadText(m, host)| <= HEAD_MAX
    ensures Construct(m, ipv6).Ok? && |Construct(m, ipv6).value.bytes| == |HeadText(m, host)|
  {
    hide Trusted;
    hide HeadText;
    hide HostOf;
  }

  /** A printed head beyond the readers' limits is not read. */
  lemma NotReadable(m: Model, ipv6: Ipv6)
    requires Typed(m) && Construct(m, ipv6).Ok? && HostOf(m.authority.host, ipv6) == Some(HOST) && AddressSyntax(ipv6)
    requires LineContent(m) > L.LINE_MAX || |HeadFields(m, HOST)| > FIELD_MAX
    ensures !Readable(m, HOST) && ReadRequest(Construct(m, ipv6).value.bytes).Err?
  {
    PrintedHeadReadsBack(m, ipv6);
    hide ReadRequest;
    hide Construct;
    hide HostOf;
    hide HeadFields;
  }

  lemma SampleFields(verb: Bytes, path: Bytes, fields: seq<HeaderField>)
    ensures |HeadFields(Sample(verb, path, fields), HOST)| == |Retained(fields)| + 6
  {
    hide Retained;
    hide AuthorityText;
  }

  // ---------- a request line that is too long ----------

  function LongPath(n: nat): Bytes { ROOT + Letters(n) }

  lemma LongPathIsPrintable(n: nat)
    requires 2 < n < TARGET_MAX
    ensures PathOk(LongPath(n), LongPath(n)) && |LongPath(n)| == n + 1
  {
    var path := LongPath(n);
    hide Letters;
    SplitLast(path[1..], '/');
    assert path[1..] == Letters(n);
    assert NoDotParts(path) by { assert forall part :: part in [path[1..]] ==> part == path[1..]; }
    PlainPath(path);
  }

  /** The printers let paths through that make a request line longer than any reader accepts. */
  lemma LongTargetUnreadable(n: nat, ipv6: Ipv6)
    requires 8_178 < n < TARGET_MAX && AddressSyntax(ipv6)
    ensures var m := Sample(VERB, LongPath(n), []);
      && Typed(m) && Construct(m, ipv6).Ok? && !Readable(m, HOST)
      && ReadRequest(Construct(m, ipv6).value.bytes).Err?
  {
    VerbIsPrintable();
    LongPathIsPrintable(n);
    NothingRetained();
    hide LongPath;
    hide RenderFields;
    hide Retained;
    hide VerbOk;
    hide PathOk;
    hide Construct;
    hide Typed;
    hide HostOf;
    hide ReadRequest;
    hide HeadText;
    SampleIsPrinted(VERB, LongPath(n), [], ipv6);
    SampleLength(VERB, LongPath(n), []);
    hide Sample;
    hide HeadFields;
    hide LineContent;
    NotReadable(Sample(VERB, LongPath(n), []), ipv6);
  }

  lemma NothingRetained()
    ensures |RenderFields(Retained([]))| == 0
  {
  }

  // ---------- a head that is too long ----------

  function Copies(count: nat, value: Bytes): (fields: seq<HeaderField>)
    ensures |fields| == count && forall i :: 0 <= i < count ==> fields[i] == HeaderField(NAME, value)
  {
    if count == 0 then [] else Copies(count - 1, value) + [HeaderField(NAME, value)]
  }

  lemma NamePasses(value: Bytes)
    requires |value| <= VALUE_MAX && AllFieldValue(value) && NoEdgeOws(value)
    ensures Passes(HeaderField(NAME, value)) && SurvivorOf(NAME) == Retain
  {
  }

  lemma {:induction false} CopiesLength(count: nat, value: Bytes)
    requires SurvivorOf(NAME) == Retain
    ensures |RenderFields(Retained(Copies(count, value)))| == count * (|value| + 5)
  {
    hide SurvivorOf;
    var copies, field := Copies(count, value), HeaderField(NAME, value);
    if count > 0 {
      CopiesLength(count - 1, value);
      assert copies[..count - 1] == Copies(count - 1, value) && copies[..count] == copies;
      RetainedStep(copies, count - 1);
      RenderOne(field);
    }
  }

  lemma CopiesSample(count: nat, value: Bytes, ipv6: Ipv6)
    requires count <= FIELD_COUNT_MAX && |value| <= VALUE_MAX && AllFieldValue(value) && NoEdgeOws(value)
    requires count * (|value| + 5) + 123 <= HEAD_MAX
    ensures var m := Sample(VERB, ROOT, Copies(count, value));
      && Typed(m) && Construct(m, ipv6).Ok? && HostOf(m.authority.host, ipv6) == Some(HOST)
      && |Construct(m, ipv6).value.bytes| == count * (|value| + 5) + 123
  {
    VerbIsPrintable();
    NamePasses(value);
    CopiesLength(count, value);
    RootIsPrintable();
    assert AllPass(Copies(count, value)) by { hide Passes; }
    hide AllPass;
    hide Copies;
    hide VerbOk;
    hide PathOk;
    hide Sample;
    hide Construct;
    hide Typed;
    hide HostOf;
    hide RenderFields;
    hide Retained;
    SampleIsPrinted(VERB, ROOT, Copies(count, value), ipv6);
  }

  lemma RootIsPrintable()
    ensures PathOk(ROOT, ROOT)
  {
    assert ROOT[1..] == [];
    SplitLast([], '/');
    assert NoDotParts(ROOT) by { assert forall part: Bytes :: part in [[]] ==> part == []; }
    PlainPath(ROOT);
  }

  /** The printers let heads through that are longer than the proxy reads one. */
  lemma LongHeadRefused(n: nat, body: Bytes, end: End, ipv6: Ipv6)
    requires 8_163 <= n <= VALUE_MAX && AddressSyntax(ipv6)
    ensures var m := Sample(VERB, ROOT, Copies(5, Letters(n)));
      && Typed(m) && Construct(m, ipv6).Ok? && |Construct(m, ipv6).value.bytes| > L.LINE_MAX + SECTION_MAX
      && H.HeadVerdict(Construct(m, ipv6).value.bytes + body, end, L.LINE_MAX + SECTION_MAX) == H.Rejected(TooLarge)
  {
    LettersArePlain(n);
    hide Letters;
    hide AllFieldValue;
    hide NoEdgeOws;
    hide Copies;
    hide H.HeadVerdict;
    hide Construct;
    hide Typed;
    CopiesSample(5, Letters(n), ipv6);
    hide Sample;
    PrintedHeadOnTheWire(Sample(VERB, ROOT, Copies(5, Letters(n))), ipv6, body, end, L.LINE_MAX + SECTION_MAX);
  }

  /** And heads with more fields than any reader accepts. */
  lemma ManyFieldsUnreadable(count: nat, ipv6: Ipv6)
    requires 122 < count <= FIELD_COUNT_MAX && AddressSyntax(ipv6)
    ensures var m := Sample(VERB, ROOT, Copies(count, LETTER));
      && Typed(m) && Construct(m, ipv6).Ok? && !Readable(m, HOST)
      && ReadRequest(Construct(m, ipv6).value.bytes).Err?
  {
    hide Passes;
    hide SurvivorOf;
    hide Sample;
    hide Construct;
    hide Typed;
    hide HostOf;
    hide ReadRequest;
    hide HeadText;
    hide HeadFields;
    hide RenderFields;
    hide Retained;
    hide AllFieldValue;
    hide NoEdgeOws;
    hide LineContent;
    hide Readable;
    hide AddressSyntax;
    LetterIsValue();
    NamePasses(LETTER);
    assert count * (|LETTER| + 5) == 6 * count;
    CopiesSample(count, LETTER, ipv6);
    AllRetained(Copies(count, LETTER));
    SampleFields(VERB, ROOT, Copies(count, LETTER));
    NotReadable(Sample(VERB, ROOT, Copies(count, LETTER)), ipv6);
  }

  lemma LetterIsValue()
    ensures AllFieldValue(LETTER) && NoEdgeOws(LETTER) && |LETTER| == 1
  {
  }

  lemma {:induction false} AllRetained(fields: seq<HeaderField>)
    requires forall i :: 0 <= i < |fields| ==> SurvivorOf(fields[i].name) == Retain
    ensures Retained(fields) == fields
  {
    hide SurvivorOf;
    if fields != [] { AllRetained(fields[1..]); }
  }

  /** And heads for `connect` with a path, which is no target for it. */
  lemma ConnectWithPath(ipv6: Ipv6)
    ensures var m := Sample(CONNECT, ROOT, []);
      Typed(m) && Construct(m, ipv6).Ok? && N.Normalize(m.verb, m.target.pathAndQuery, ipv6).Err?
  {
    VerbIsPrintable();
    RootIsPrintable();
    NothingRetained();
    hide VerbOk;
    hide PathOk;
    hide RenderFields;
    hide Retained;
    hide Construct;
    hide Typed;
    hide HostOf;
    hide N.Normalize;
    SampleIsPrinted(CONNECT, ROOT, [], ipv6);
    PrintedTargetNormalizes(Sample(CONNECT, ROOT, []), ipv6);
  }
}
