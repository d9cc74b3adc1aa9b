/** A printed head ends where its reader stops, whatever body follows it. */
module HeadWire {
  import opened Bytes
  import opened CanonicalHead
  import opened HeadReading
  import opened HeaderPrinting
  import opened HeaderSection
  import opened HeadRoundTrip
  import opened Http
  import L = RequestLineDirect
  import H = ReadHead
  import opened Streams

  lemma TerminatorBytes(input: Bytes, i: nat)
    ensures OccursAt(input, H.TERMINATOR, i) <==> CrlfAt(input, i) && CrlfAt(input, i + 2)
  {
    if CrlfAt(input, i) && CrlfAt(input, i + 2) { assert input[i..i + 4] == H.TERMINATOR; }
    if OccursAt(input, H.TERMINATOR, i) {
      var four := input[i..i + 4];
      assert four[0] == input[i] && four[1] == input[i + 1] && four[2] == input[i + 2] && four[3] == input[i + 3];
    }
  }

  lemma LineBytes(input: Bytes, start: nat, fields: seq<HeaderField>, rest: Bytes, i: nat)
    requires fields != [] && Printable(fields[0]) && PrintedAt(input, start, fields, rest)
    requires start <= i < start + |LineText(fields[0])|
    ensures i < |input| && !IsBreak(input[i])
  {
    hide PrintedAt;
    hide LineText;
    hide Printable;
    hide IsBreak;
    hide RenderFields;
    hide LineEnd;
    PrintedLineIsOneLine(fields[0]);
    FirstLine(input, start, fields, rest);
    assert input[i] == input[start..start + |LineText(fields[0])|][i - start];
  }

  lemma LineBreaks(input: Bytes, start: nat, fields: seq<HeaderField>, rest: Bytes)
    requires fields != [] && PrintedAt(input, start, fields, rest)
    ensures CrlfAt(input, start + |LineText(fields[0])|)
  {
    OthersFollow(input, start, fields, rest);
    var n, tail := |LineText(fields[0])|, input[start..];
    assert tail[n] == '\r' && tail[n + 1] == '\n';
    assert input[start + n] == tail[n] && input[start + n + 1] == tail[n + 1];
  }

  /** No empty line among the printed ones. */
  lemma {:induction false} NoEarlyEnd(input: Bytes, start: nat, fields: seq<HeaderField>, rest: Bytes, i: nat)
    requires fields != [] && AllPrintable(fields) && PrintedAt(input, start, fields, rest)
    requires start <= i && CrlfAt(input, i) && CrlfAt(input, i + 2)
    ensures i + 2 >= start + |RenderFields(fields)|
    decreases |fields|
  {
    hide PrintedAt;
    hide LineText;
    hide RenderFields;
    hide Printable;
    hide LineEnd;
    var end, others := start + |LineText(fields[0])|, fields[1..];
    ReadableTail(FieldOf, fields);
    FirstLine(input, start, fields, rest);
    LineBreaks(input, start, fields, rest);
    if i < end {
      LineBytes(input, start, fields, rest, i);
      assert false;
    } else if others == [] {
      assert |RenderFields(others)| == 0 by { RenderNothing(others); }
    } else if i == end {
      FirstLine(input, end + 2, others, rest);
      LineBytes(input, end + 2, others, rest, end + 2);
      assert false;
    } else {
      assert i != end + 1;
      NoEarlyEnd(input, end + 2, others, rest, i);
    }
  }

  lemma RenderNothing(fields: seq<HeaderField>)
    requires fields == []
    ensures RenderFields(fields) == []
  {
  }

  /** The only empty line of a printed section is the one that ends it. */
  lemma {:induction false} EndsEmpty(input: Bytes, start: nat, fields: seq<HeaderField>, rest: Bytes)
    requires fields != [] && AllPrintable(fields) && PrintedAt(input, start, fields, rest)
    ensures |RenderFields(fields)| >= 2
    ensures CrlfAt(input, start + |RenderFields(fields)| - 2) && CrlfAt(input, start + |RenderFields(fields)|)
    decreases |fields|
  {
    hide LineText;
    hide RenderFields;
    hide Printable;
    hide LineEnd;
    var others := fields[1..];
    ReadableTail(FieldOf, fields);
    FirstLine(input, start, fields, rest);
    LineBreaks(input, start, fields, rest);
    if others == [] {
      RenderNothing(others);
      EmptyLine(input, start + |LineText(fields[0])| + 2, rest);
    } else {
      EndsEmpty(input, start + |LineText(fields[0])| + 2, others, rest);
    }
  }

  lemma EmptyLine(input: Bytes, start: nat, rest: Bytes)
    requires PrintedAt(input, start, [], rest)
    ensures CrlfAt(input, start)
  {
    assert input[start..] == [] + CRLF + rest;
    var tail := input[start..];
    assert tail[0] == '\r' && tail[1] == '\n' && input[start] == tail[0] && input[start + 1] == tail[1];
  }

  // ---------- the whole head ----------

  lemma SectionPrintedAt(request: Bytes, fields: seq<HeaderField>, body: Bytes)
    ensures PrintedAt(request + (RenderFields(fields) + CRLF) + body, |request|, fields, body)
  {
    hide RenderFields;
    var section := RenderFields(fields) + CRLF;
    assert (request + section + body)[|request|..] == section + body;
  }

  /** The first empty line of a printed head and what follows it is the head's own. */
  lemma FirstEnd(words: Bytes, fields: seq<HeaderField>, body: Bytes, i: nat)
    requires L.PlainLine(words) && fields != [] && AllPrintable(fields)
    ensures var stream := words + CRLF + (RenderFields(fields) + CRLF) + body;
      var end := |words| + |RenderFields(fields)|;
      && OccursAt(stream, H.TERMINATOR, end) && (OccursAt(stream, H.TERMINATOR, i) ==> i >= end)
  {
    hide RenderFields;
    hide LineText;
    hide Printable;
    var request := words + CRLF;
    var stream, end := request + (RenderFields(fields) + CRLF) + body, |words| + |RenderFields(fields)|;
    SectionPrintedAt(request, fields, body);
    EndsEmpty(stream, |request|, fields, body);
    TerminatorBytes(stream, end);
    TerminatorBytes(stream, i);
    if OccursAt(stream, H.TERMINATOR, i) && i < end {
      if i < |request| {
        InRequest(words, RenderFields(fields) + CRLF + body, stream, i);
        FirstLine(stream, |request|, fields, body);
        LineBytes(stream, |request|, fields, body, |request|);
        assert false;
      } else {
        NoEarlyEnd(stream, |request|, fields, body, i);
      }
    }
  }

  /** Up to the end of the request line, two line ends in a row could only touch the first field. */
  lemma InRequest(words: Bytes, others: Bytes, stream: Bytes, i: nat)
    requires L.PlainLine(words) && |words| + 2 <= |stream| && stream[..|words| + 2] == words + CRLF
    requires i < |words| + 2 && CrlfAt(stream, i)
    ensures i == |words|
  {
    var line := words + CRLF;
    forall k | 0 <= k < |words| ensures stream[k] != '\r' { assert stream[k] == line[k] == words[k]; }
    assert stream[|words| + 1] == line[|words| + 1] == '\n';
  }

  /** Whatever follows it on the connection, and however it is cut into reads, a head within the reading limit is
      read back byte for byte; a longer one is refused. */
  lemma PrintedHeadOnTheWire(m: Model, ipv6: Ipv6, body: Bytes, end: End, max: nat)
    requires Typed(m) && Construct(m, ipv6).Ok? && AddressSyntax(ipv6)
    ensures var head := Construct(m, ipv6).value.bytes;
      H.HeadVerdict(head + body, end, max) == if |head| <= max then H.Head(head) else H.Rejected(TooLarge)
  {
    hide HostOf;
    hide VerbOk;
    hide PathOk;
    hide HeadersOk;
    hide AllPrintable;
    hide HeadFields;
    hide HeadText;
    hide L.PlainLine;
    hide L.AllTargetBytes;
    hide AllToken;
    hide AddressSyntax;
    var host := HostOf(m.authority.host, ipv6).value;
    hide Trusted;
    var head := HeadText(m, host);
    HeadIsPrintable(m, ipv6);
    TrustedParts(m, ipv6);
    PrintedWords(m);
    HeadEnds(m, host, body);
    H.FoundAt(head + body, |head| - 4);
    assert (head + body)[..|head|] == head;
  }

  lemma HeadEnds(m: Model, host: Host, body: Bytes)
    requires AllPrintable(HeadFields(m, host))
    requires L.PlainLine(L.Words(UpperAll(m.verb), m.target.pathAndQuery))
    ensures var head := HeadText(m, host);
      && |head| >= 4 && OccursAt(head + body, H.TERMINATOR, |head| - 4)
      && forall i: nat :: i < |head| - 4 ==> !OccursAt(head + body, H.TERMINATOR, i)
  {
    var words, fields := L.Words(UpperAll(m.verb), m.target.pathAndQuery), HeadFields(m, host);
    RequestWords(m.verb, m.target.pathAndQuery);
    RequestThenSection(m, host);
    assert fields != [];
    hide HeadFields;
    hide HeadText;
    hide RenderFields;
    forall i: nat ensures
      var end := |words| + |RenderFields(fields)|;
      OccursAt(HeadText(m, host) + body, H.TERMINATOR, end) && (OccursAt(HeadText(m, host) + body, H.TERMINATOR, i) ==> i >= end)
    {
      FirstEnd(words, fields, body, i);
    }
  }
}
