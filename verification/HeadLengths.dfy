/** How long each part of a canonical head is. */
module HeadLengths {
  import opened CanonicalHead
  import D = Decimals
  import opened HeaderPrinting
  import opened Http

  function FieldLineLen(name: nat, value: nat): nat { name + 2 + value + 2 }

  lemma ForwardingLength(f: ForwardingResult)
    ensures |RenderFields(ForwardingFields(f))| ==
      FieldLineLen(9, |f.forwarded|) + FieldLineLen(15, |f.xForwardedFor|)
      + FieldLineLen(17, |f.xForwardedProto|) + FieldLineLen(16, |f.xForwardedHost|)
  {
    var fields := ForwardingFields(f);
    var a, b, c, d := fields[0], fields[1], fields[2], fields[3];
    assert fields == [a, b, c] + [d] && [a, b, c] == [a, b] + [c] && [a, b] == [a] + [b];
    RenderOne(a);
    RenderOne(b);
    RenderOne(c);
    RenderOne(d);
    RenderConcat([a], [b]);
    RenderConcat([a, b], [c]);
    RenderConcat([a, b, c], [d]);
  }

  function FramingLen(framing: BodyFraming): nat {
    match framing
    case NoBody => 0
    case ContentLength(length) => FieldLineLen(14, |D.Render(length)|)
    case Chunked => FieldLineLen(17, 7)
  }

  lemma ClosingLength(m: Model)
    ensures |RenderFields(ClosingFields(m))| ==
      |RenderFields(ForwardingFields(m.forwarding))| + FramingLen(m.framing) + FieldLineLen(10, 5)
  {
    var forwarding, framing := ForwardingFields(m.forwarding), FramingFields(m.framing);
    RenderOne(CLOSE);
    if framing != [] {
      assert framing == [framing[0]];
      RenderOne(framing[0]);
    }
    RenderConcat(forwarding, framing);
    RenderConcat(forwarding + framing, [CLOSE]);
  }

  function AuthorityLen(host: Host, port: Option<nat>): nat {
    |host.text| + (if host.V6? then 2 else 0) + (if port.Some? then 1 + |D.Render(port.value)| else 0)
  }

  /** The size of a head is the sum of the sizes of its parts. */
  lemma HeadLength(m: Model, host: Host)
    ensures |HeadText(m, host)| ==
      (|m.verb| + 1 + |m.target.pathAndQuery| + 11) + (8 + AuthorityLen(host, m.authority.port))
      + |RenderFields(Retained(m.headers.fields))| + |RenderFields(ClosingFields(m))| + 2
  {
    HeadParts(m, host);
    hide RenderFields;
    hide Retained;
    hide ClosingFields;
  }
}
