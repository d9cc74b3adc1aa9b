/** Printing a head from its tail into a buffer of exactly the right size. */
module HeadReverseFill {
  import opened Bytes
  import opened CanonicalHead
  import D = Decimals
  import opened HeaderPrinting
  import opened HeadLengths
  import opened HeadValidation
  import opened Http

  // ---------- the length of the text ----------

  /** The precomputed size of the whole head. */
  method WireLen(m: Model, host: Host, retained: nat) returns (size: nat)
    requires Marks(retained, m.headers.fields, |m.headers.fields|) && |m.headers.fields| <= FIELD_COUNT_MAX
    ensures size == |HeadText(m, host)|
  {
    var request := |m.verb| + 1 + |m.target.pathAndQuery| + |" HTTP/1.1\r\n"|;
    var rendered := |host.text| + (if host.V6? then 2 else 0);
    if m.authority.port.Some? {
      var digits := D.LogLen(m.authority.port.value);
      rendered := rendered + 1 + digits;
    }
    var kept := RetainedLen(m.headers.fields, retained);
    var closing := ClosingLen(m);
    HeadLength(m, host);
    size := request + (|"Host: \r\n"| + rendered) + kept + closing;
  }

  method RetainedLen(fields: seq<HeaderField>, retained: nat) returns (size: nat)
    requires Marks(retained, fields, |fields|) && |fields| <= FIELD_COUNT_MAX
    ensures size == |RenderFields(Retained(fields))|
  {
    hide SurvivorOf;
    size := 0;
    for i := 0 to |fields|
      invariant size == |RenderFields(Retained(fields[..i]))|
    {
      RetainedStep(fields, i);
      RenderOne(fields[i]);
      var kept := IsMarked(retained, fields, i);
      if kept { size := size + FieldLineLen(|fields[i].name|, |fields[i].value|); }
    }
    assert fields[..|fields|] == fields;
  }

  /** The forwarding, framing and connection lines and the empty line. */
  method ClosingLen(m: Model) returns (size: nat)
    ensures size == |RenderFields(ClosingFields(m))| + 2
  {
    var f := m.forwarding;
    size := FieldLineLen(|"Forwarded"|, |f.forwarded|) + FieldLineLen(|"X-Forwarded-For"|, |f.xForwardedFor|)
      + FieldLineLen(|"X-Forwarded-Proto"|, |f.xForwardedProto|) + FieldLineLen(|"X-Forwarded-Host"|, |f.xForwardedHost|);
    ForwardingLength(f);
    match m.framing {
      case NoBody =>
      case ContentLength(length) =>
        var digits := D.LogLen(length);
        size := size + FieldLineLen(|"Content-Length"|, digits);
      case Chunked => size := size + FieldLineLen(|"Transfer-Encoding"|, |"chunked"|);
    }
    ClosingLength(m);
    size := size + |"Connection: close\r\n\r\n"|;
  }

  // ---------- the writer ----------

  class ReverseWriter {
    const bytes: array<Byte>
    var cursor: nat

    ghost predicate Valid()
      reads this
    {
      cursor <= bytes.Length
    }

    /** What stands behind the cursor. */
    ghost function Written(): Bytes
      reads this, bytes
      requires Valid()
    {
      bytes[cursor..]
    }

    /** What no write has reached yet. */
    ghost function Untouched(): Bytes
      reads this, bytes
      requires Valid()
    {
      bytes[..cursor]
    }

    constructor (size: nat)
      ensures Valid() && fresh(bytes) && bytes.Length == cursor == size && Written() == []
    {
      bytes := new Byte[size](_ => 0 as char);
      cursor := size;
    }

    /** The cursor never passes zero, and each write stays between it and what is already written. */
    method Prepend(value: Bytes)
      requires Valid() && |value| <= cursor
      modifies this`cursor, bytes
      ensures Valid() && cursor == old(cursor) - |value|
      ensures Written() == value + old(Written()) && Untouched() == old(Untouched())[..cursor]
    {
      cursor := cursor - |value|;
      forall i | 0 <= i < |value| { bytes[cursor + i] := value[i]; }
      assert bytes[cursor..] == value + old(bytes[cursor..]);
    }

    method PrependField(name: Bytes, value: Bytes)
      requires Valid() && FieldLineLen(|name|, |value|) <= cursor
      modifies this`cursor, bytes
      ensures Valid() && cursor == old(cursor) - FieldLineLen(|name|, |value|)
      ensures Written() == FieldLine(HeaderField(name, value)) + old(Written())
    {
      ghost var behind := Written();
      Prepend("\r\n");
      Prepend(value);
      Prepend(": ");
      Prepend(name);
      FieldInFour(name, value, behind);
    }

    method PrependDecimalField(name: Bytes, value: nat)
      requires Valid() && value < D.U64 && FieldLineLen(|name|, |D.Render(value)|) <= cursor
      modifies this`cursor, bytes
      ensures Valid() && cursor == old(cursor) - FieldLineLen(|name|, |D.Render(value)|)
      ensures Written() == FieldLine(HeaderField(name, D.Render(value))) + old(Written())
    {
      var rendered := D.RenderDecimal(value);
      PrependField(name, rendered);
    }

    method PrependPort(port: Option<nat>)
      requires Valid() && (port.Some? ==> port.value < 65_536) && |PortText(port)| <= cursor
      modifies this`cursor, bytes
      ensures Valid() && cursor == old(cursor) - |PortText(port)|
      ensures Written() == PortText(port) + old(Written())
    {
      ghost var behind := Written();
      if port.Some? {
        var digits := D.RenderDecimal(port.value);
        Prepend(digits);
        Prepend(":");
        ConcatAssociates(":", digits, behind);
      } else {
        assert PortText(port) + behind == behind;
      }
    }

    method PrependHostText(host: Host)
      requires Valid() && |HostText(host)| <= cursor
      modifies this`cursor, bytes
      ensures Valid() && cursor == old(cursor) - |HostText(host)|
      ensures Written() == HostText(host) + old(Written())
    {
      ghost var behind := Written();
      match host {
        case Name(text) => Prepend(text);
        case V6(text) =>
          Prepend("]");
          Prepend(text);
          Prepend("[");
          Bracketing(text, behind);
      }
    }

    method PrependHost(host: Host, port: Option<nat>)
      requires Valid() && (port.Some? ==> port.value < 65_536)
      requires 8 + AuthorityLen(host, port) <= cursor
      modifies this`cursor, bytes
      ensures Valid() && cursor == old(cursor) - 8 - AuthorityLen(host, port)
      ensures Written() == FieldLine(HeaderField("Host", AuthorityText(host, port))) + old(Written())
    {
      ghost var behind := Written();
      Prepend("\r\n");
      PrependPort(port);
      PrependHostText(host);
      Prepend("Host: ");
      HostLine(HostText(host), PortText(port), behind);
    }

    method PrependUpper(verb: Bytes)
      requires Valid() && |verb| <= cursor
      modifies this`cursor, bytes
      ensures Valid() && cursor == old(cursor) - |verb|
      ensures Written() == UpperAll(verb) + old(Written())
    {
      ghost var behind := Written();
      cursor := cursor - |verb|;
      for i := 0 to |verb|
        invariant Valid() && cursor + |verb| + |behind| == bytes.Length
        invariant forall k :: 0 <= k < i ==> bytes[cursor + k] == Upper(verb[k])
        invariant bytes[cursor + |verb|..] == behind
      {
        bytes[cursor + i] := Upper(verb[i]);
      }
      assert bytes[cursor..cursor + |verb|] == UpperAll(verb);
      assert bytes[cursor..] == bytes[cursor..cursor + |verb|] + bytes[cursor + |verb|..];
    }

    method PrependRequest(verb: Bytes, target: Bytes)
      requires Valid() && |verb| + 1 + |target| + 11 <= cursor
      modifies this`cursor, bytes
      ensures Valid() && cursor == old(cursor) - (|verb| + 1 + |target| + 11)
      ensures Written() == RequestText(verb, target) + old(Written())
    {
      ghost var behind := Written();
      Prepend(" HTTP/1.1\r\n");
      Prepend(target);
      Prepend(" ");
      PrependUpper(verb);
      RequestInFour(verb, target, behind);
    }
  }

  function PortText(port: Option<nat>): Bytes {
    if port.Some? then ":" + D.Render(port.value) else []
  }

  lemma FieldInFour(name: Bytes, value: Bytes, behind: Bytes)
    ensures name + (": " + (value + (CRLF + behind))) == FieldLine(HeaderField(name, value)) + behind
  {
  }

  lemma Bracketing(text: Bytes, behind: Bytes)
    ensures "[" + (text + ("]" + behind)) == HostText(V6(text)) + behind
  {
  }

  lemma HostLine(host: Bytes, port: Bytes, behind: Bytes)
    ensures "Host: " + (host + (port + (CRLF + behind))) == FieldLine(HeaderField("Host", host + port)) + behind
  {
    FieldInFour("Host", host + port, behind);
    ConcatAssociates(host, port, CRLF + behind);
    ConcatAssociates("Host", ": ", host + port + (CRLF + behind));
    assert "Host" + ": " == "Host: ";
  }

  lemma RequestInFour(verb: Bytes, target: Bytes, behind: Bytes)
    ensures UpperAll(verb) + (" " + (target + (" HTTP/1.1\r\n" + behind))) == RequestText(verb, target) + behind
  {
    var first := UpperAll(verb);
    assert " HTTP/1.1" + CRLF == " HTTP/1.1\r\n";
    ConcatFour(first, " ", target, " HTTP/1.1\r\n", behind);
    ConcatAssociates(first + " " + target, " HTTP/1.1", CRLF);
  }

  lemma ConcatFour(a: Bytes, b: Bytes, c: Bytes, d: Bytes, e: Bytes)
    ensures a + (b + (c + (d + e))) == a + b + c + d + e
  {
  }

  // ---------- tail to head ----------

  /** `left` is still to be written: with what stands behind the cursor it makes `whole`. */
  ghost predicate Owes(w: ReverseWriter, left: Bytes, whole: Bytes)
    reads w, w.bytes
  {
    w.Valid() && w.cursor == |left| && left + w.Written() == whole
  }

  lemma Owed(left: Bytes, piece: Bytes, behind: Bytes, whole: Bytes)
    requires (left + piece) + behind == whole
    ensures left + (piece + behind) == whole
  {
  }

  method FillForwarding(w: ReverseWriter, f: ForwardingResult, ghost left: Bytes, ghost whole: Bytes)
    requires Owes(w, left + RenderFields(ForwardingFields(f)), whole)
    modifies w`cursor, w.bytes
    ensures Owes(w, left, whole)
  {
    var names: seq<Bytes> := ["Forwarded", "X-Forwarded-For", "X-Forwarded-Proto", "X-Forwarded-Host"];
    var values := [f.forwarded, f.xForwardedFor, f.xForwardedProto, f.xForwardedHost];
    ghost var fields := ForwardingFields(f);
    assert fields[..4] == fields;
    for index := 4 downto 0
      invariant Owes(w, left + RenderFields(fields[..index]), whole)
    {
      ghost var before, line := RenderFields(fields[..index]), FieldLine(fields[index]);
      RenderStep(fields, index);
      RenderOne(fields[index]);
      ConcatAssociates(left, before, line);
      ghost var behind := w.Written();
      w.PrependField(names[index], values[index]);
      Owed(left + before, line, behind, whole);
    }
    assert left + RenderFields(fields[..0]) == left;
  }

  method FillFraming(w: ReverseWriter, framing: BodyFraming, ghost left: Bytes, ghost whole: Bytes)
    requires Owes(w, left + RenderFields(FramingFields(framing)), whole)
    requires framing.ContentLength? ==> framing.length < D.U64
    modifies w`cursor, w.bytes
    ensures Owes(w, left, whole)
  {
    ghost var fields := FramingFields(framing);
    ghost var behind := w.Written();
    if framing != NoBody { RenderOne(fields[0]); assert fields == [fields[0]]; }
    match framing {
      case NoBody => assert left + [] == left;
      case ContentLength(length) =>
        w.PrependDecimalField("Content-Length", length);
        Owed(left, FieldLine(fields[0]), behind, whole);
      case Chunked =>
        w.PrependField("Transfer-Encoding", "chunked");
        Owed(left, FieldLine(fields[0]), behind, whole);
    }
  }

  /** The retained fields, last one first, by the bits of the mask. */
  method FillRetained(w: ReverseWriter, fields: seq<HeaderField>, retained: nat, ghost left: Bytes, ghost whole: Bytes)
    requires Marks(retained, fields, |fields|) && |fields| <= FIELD_COUNT_MAX
    requires Owes(w, left + RenderFields(Retained(fields)), whole)
    modifies w`cursor, w.bytes
    ensures Owes(w, left, whole)
  {
    hide SurvivorOf;
    assert fields[..|fields|] == fields;
    for index := |fields| downto 0
      invariant Owes(w, left + RenderFields(Retained(fields[..index])), whole)
    {
      ghost var before, line := RenderFields(Retained(fields[..index])), FieldLine(fields[index]);
      RetainedStep(fields, index);
      RenderOne(fields[index]);
      ConcatAssociates(left, before, line);
      ghost var behind := w.Written();
      var kept := IsMarked(retained, fields, index);
      if kept {
        w.PrependField(fields[index].name, fields[index].value);
        Owed(left + before, line, behind, whole);
      } else {
        assert before + [] == before;
      }
    }
    assert left + RenderFields(Retained(fields[..0])) == left;
  }

  method FillHead(w: ReverseWriter, m: Model, v: Validated)
    requires Typed(m) && |m.headers.fields| <= FIELD_COUNT_MAX
    requires Marks(v.retained, m.headers.fields, |m.headers.fields|)
    requires w.Valid() && w.cursor == |HeadText(m, v.host)| && w.Written() == []
    modifies w`cursor, w.bytes
    ensures w.Valid() && w.cursor == 0 && w.Written() == HeadText(m, v.host)
  {
    ghost var whole := HeadText(m, v.host);
    ghost var request := RequestText(m.verb, m.target.pathAndQuery);
    ghost var hostLine := FieldLine(HeaderField("Host", AuthorityText(v.host, m.authority.port)));
    ghost var retained := RenderFields(Retained(m.headers.fields));
    ghost var forwarding := RenderFields(ForwardingFields(m.forwarding));
    ghost var framing := RenderFields(FramingFields(m.framing));
    ghost var close := FieldLine(CLOSE);
    HeadPieces(m, v.host);
    hide RenderFields;
    hide HeadText;
    hide FieldLine;
    hide RequestText;
    hide Retained;
    hide Marks;
    w.Prepend("\r\n");
    assert Owes(w, request + hostLine + retained + forwarding + framing + close, whole);
    w.PrependField("Connection", "close");
    Owed(request + hostLine + retained + forwarding + framing, close, CRLF, whole);
    assert Owes(w, request + hostLine + retained + forwarding + framing, whole);
    FillFraming(w, m.framing, request + hostLine + retained + forwarding, whole);
    FillForwarding(w, m.forwarding, request + hostLine + retained, whole);
    FillRetained(w, m.headers.fields, v.retained, request + hostLine, whole);
    ghost var behind := w.Written();
    w.PrependHost(v.host, m.authority.port);
    Owed(request, hostLine, behind, whole);
    w.PrependRequest(m.verb, m.target.pathAndQuery);
  }

  /** The head, piece by piece, with the size of every piece that is written in one go. */
  lemma HeadPieces(m: Model, host: Host)
    ensures HeadText(m, host) ==
      RequestText(m.verb, m.target.pathAndQuery) + FieldLine(HeaderField("Host", AuthorityText(host, m.authority.port)))
      + RenderFields(Retained(m.headers.fields)) + RenderFields(ForwardingFields(m.forwarding))
      + RenderFields(FramingFields(m.framing)) + FieldLine(CLOSE) + CRLF
    ensures |RequestText(m.verb, m.target.pathAndQuery)| == |m.verb| + 1 + |m.target.pathAndQuery| + 11
    ensures |FieldLine(HeaderField("Host", AuthorityText(host, m.authority.port)))| == 8 + AuthorityLen(host, m.authority.port)
    ensures |FieldLine(CLOSE)| == FieldLineLen(10, 5)
  {
    var before := RequestText(m.verb, m.target.pathAndQuery) + FieldLine(HeaderField("Host", AuthorityText(host, m.authority.port)))
      + RenderFields(Retained(m.headers.fields));
    var forwarding, framing := ForwardingFields(m.forwarding), FramingFields(m.framing);
    RenderOne(CLOSE);
    RenderConcat(forwarding, framing);
    RenderConcat(forwarding + framing, [CLOSE]);
    HeadParts(m, host);
    hide RenderFields;
    hide Retained;
    hide HeadText;
    ConcatFive(before, RenderFields(forwarding), RenderFields(framing), FieldLine(CLOSE), CRLF);
  }

  /** The buffer is filled exactly: the cursor ends at zero and the bytes are the head. */
  method ConstructFromTail(m: Model, ipv6: Ipv6) returns (r: Result<Head>)
    requires Typed(m)
    ensures r == Construct(m, ipv6)
  {
    var trusted := Validate(m, ipv6);
    if trusted.None? { return Err(SerializationInvariant); }
    var v := trusted.value;
    var size := WireLen(m, v.host, v.retained);
    if size > HEAD_MAX { return Err(LimitExceeded(CanonicalHeadBytes, HEAD_MAX, size)); }
    var writer := new ReverseWriter(size);
    FillHead(writer, m, v);
    return Ok(Head(writer.bytes[..], m.framing));
  }
}
