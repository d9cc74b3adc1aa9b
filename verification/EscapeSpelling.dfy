/** How escapes are read: the case of their digits does not matter, and each stands for the octet its digits name. */
module EscapeSpelling {
  import opened TargetForms
  import opened ByteClasses
  import opened Bytes
  import opened Http
  import opened PercentEncoding
  import opened R = RequestTarget

  // ---------- the case of the digits ----------

  /** The same text but for the case of the digits after percent signs. */
  ghost predicate Recased(s: Bytes, t: Bytes) {
    |s| == |t| && forall i :: 0 <= i < |s| ==> s[i] == t[i] || (SameDigit(s[i], t[i]) && AfterPercent(s, i))
  }

  ghost predicate SameDigit(a: Byte, b: Byte) { exists n :: Spells(a, n) && Spells(b, n) }

  predicate AfterPercent(s: Bytes, i: nat)
    requires i < |s|
  {
    (i >= 1 && s[i - 1] == '%') || (i >= 2 && s[i - 2] == '%' && IsHexDigit(s[i - 1]))
  }

  lemma SameDigitValue(a: Byte, b: Byte)
    requires SameDigit(a, b)
    ensures IsHexDigit(a) && IsHexDigit(b) && HexValue(a) == HexValue(b)
  {
    hide Spells;
    var n :| Spells(a, n) && Spells(b, n);
    HexDigits(a, n);
    HexDigits(b, n);
  }

  lemma RecasedByte(s: Bytes, t: Bytes, i: nat)
    requires Recased(s, t) && i < |s|
    ensures IsHexDigit(s[i]) <==> IsHexDigit(t[i])
    ensures IsHexDigit(s[i]) ==> HexValue(s[i]) == HexValue(t[i])
    ensures !IsHexDigit(s[i]) || !AfterPercent(s, i) ==> s[i] == t[i]
  {
    hide AfterPercent;
    if s[i] != t[i] { SameDigitValue(s[i], t[i]); }
  }

  lemma RecasedEscape(s: Bytes, t: Bytes, i: nat)
    requires Recased(s, t) && i < |s| && s[i] == '%'
    ensures t[i] == '%' && (EscapeAt(s, i) <==> EscapeAt(t, i))
    ensures EscapeAt(s, i) ==> Octet(s[i + 1], s[i + 2]) == Octet(t[i + 1], t[i + 2])
  {
    RecasedByte(s, t, i);
    if i + 2 < |s| {
      RecasedByte(s, t, i + 1);
      RecasedByte(s, t, i + 2);
    }
    hide Recased;
    hide HexValue;
  }

  /** Recased texts have the same faults and the same canonical spelling. */
  lemma {:induction false} RecasedReads(s: Bytes, t: Bytes, i: nat, inPath: bool)
    requires Recased(s, t) && i <= |s| && (i < |s| ==> !AfterPercent(s, i))
    ensures EncodingFault(s, i, inPath) == EncodingFault(t, i, inPath)
    ensures WellEscaped(s, i) <==> WellEscaped(t, i)
    ensures WellEscaped(s, i) ==> CanonFrom(s, i) == CanonFrom(t, i)
    decreases |s| - i
  {
    hide Recased;
    hide SpellOctet;
    if i < |s| {
      assert |s| == |t| by { RecasedLength(s, t); }
      if s[i] != '%' {
        assert s[i] == t[i] by { RecasedByte(s, t, i); }
        RecasedReads(s, t, i + 1, inPath);
      } else {
        RecasedEscape(s, t, i);
        if EscapeAt(s, i) { RecasedReads(s, t, i + 3, inPath); }
      }
    } else {
      RecasedLength(s, t);
    }
  }

  lemma RecasedLength(s: Bytes, t: Bytes)
    requires Recased(s, t)
    ensures |s| == |t|
  {
  }

  /** Up to and after a question mark. */
  lemma RecasedParts(s: Bytes, t: Bytes)
    requires Recased(s, t)
    ensures var q := IndexOf(s, '?');
      && IndexOf(t, '?') == q && Recased(s[..q], t[..q]) && (q < |s| ==> Recased(s[q + 1..], t[q + 1..]))
  {
    var q := IndexOf(s, '?');
    IndexOfFirst(s, '?');
    forall i | 0 <= i < |s| ensures s[i] == '?' <==> t[i] == '?' { RecasedByte(s, t, i); }
    IndexOfUnique(t, '?', q);
    hide SameDigit;
    if q < |s| {
      var a, b := s[q + 1..], t[q + 1..];
      forall i | 0 <= i < |a| ensures a[i] == b[i] || (SameDigit(a[i], b[i]) && AfterPercent(a, i)) {
        assert a[i] == s[q + 1 + i] && b[i] == t[q + 1 + i];
      }
    }
  }

  lemma RecasedPath(s: Bytes, t: Bytes)
    requires Recased(s, t)
    ensures RoutingPath(s) == RoutingPath(t)
  {
    RecasedLength(s, t);
    if s != [] {
      RecasedByte(s, t, 0);
      RecasedReads(s, t, 0, true);
      hide Recased;
      if s[0] == '/' && EncodingFault(s, 0, true).None? {
        FaultlessIsWellEscaped(s, 0, true);
        FaultlessIsWellEscaped(t, 0, true);
        RecasedReads(s, t, 1, true);
        assert Segments(s) == Segments(t);
      }
    }
  }

  lemma RecasedQuery(s: Bytes, t: Bytes)
    requires Recased(s, t)
    ensures CanonicalQuery(s) == CanonicalQuery(t)
  {
    RecasedLength(s, t);
    RecasedReads(s, t, 0, false);
    if EncodingFault(s, 0, false).None? {
      FaultlessIsWellEscaped(s, 0, false);
      FaultlessIsWellEscaped(t, 0, false);
    }
  }

  lemma {:induction false} RecasedBytes(s: Bytes, t: Bytes, i: nat)
    requires Recased(s, t) && i <= |s|
    ensures |s| == |t| && ByteFault(s, i) == ByteFault(t, i)
    decreases |s| - i
  {
    RecasedLength(s, t);
    hide Recased;
    if i < |s| {
      RecasedByte(s, t, i);
      RecasedBytes(s, t, i + 1);
    }
  }

  /** Targets whose escapes differ only in the case of their digits are treated alike, refusals included. */
  lemma RecasedTarget(verb: Bytes, s: Bytes, t: Bytes, ipv6: Ipv6)
    requires Recased(s, t) && s != [] && s[0] == '/'
    ensures Normalize(verb, s, ipv6) == Normalize(verb, t, ipv6)
  {
    RecasedBytes(s, t, 0);
    RecasedByte(s, t, 0);
    RecasedParts(s, t);
    var q := IndexOf(s, '?');
    RecasedPath(s[..q], t[..q]);
    if q < |s| { RecasedQuery(s[q + 1..], t[q + 1..]); }
    hide Recased;
    hide RoutingPath;
    hide CanonicalQuery;
    hide ByteFault;
    NormalizeOrigin(verb, s, ipv6);
    NormalizeOrigin(verb, t, ipv6);
    hide Normalize;
  }

  // ---------- what an escape stands for ----------

  /** An escape for this octet, with digits of either case. */
  predicate EscapeOf(e: Bytes, octet: Byte) {
    |e| == 3 && e[0] == '%' && Spells(e[1], octet as int / 16) && Spells(e[2], octet as int % 16)
  }

  lemma EscapeReads(e: Bytes, octet: Byte)
    requires EscapeOf(e, octet)
    ensures EscapeAt(e, 0) && Octet(e[1], e[2]) == octet && WellEscaped(e, 0)
  {
    hide Spells;
    HexDigits(e[1], octet as int / 16);
    HexDigits(e[2], octet as int % 16);
    assert WellEscaped(e, 3);
  }

  /** The upper-case escape of an octet. */
  function UpperEscape(octet: Byte): Bytes { ['%', UPPER_HEX[octet as int / 16], UPPER_HEX[octet as int % 16]] }

  lemma UpperSpelling(octet: Byte)
    ensures SpellOctet(octet) == if IsUnreserved(octet) then [octet] else UpperEscape(octet)
  {
    UpperHexCodes();
    hide UPPER_HEX;
  }

  lemma EscapeSpelled(e: Bytes, octet: Byte)
    requires EscapeOf(e, octet)
    ensures WellEscaped(e, 0) && Canon(e) == if IsUnreserved(octet) then [octet] else UpperEscape(octet)
  {
    EscapeReads(e, octet);
    UpperSpelling(octet);
    hide UpperEscape;
    hide EscapeOf;
    assert CanonFrom(e, 3) == [];
    assert SpellOctet(octet) + [] == SpellOctet(octet);
  }

  // ---------- escapes in a text ----------

  /** What is wrong with an octet, when it is escaped. */
  function OctetFault(octet: Byte, inPath: bool): Option<Reason> {
    if inPath && (octet == '/' || octet == '\\') then Some(EncodedSeparator)
    else if IsControl(octet) then Some(EncodedControl)
    else None
  }

  function FirstOf(a: Option<Reason>, b: Option<Reason>): Option<Reason> { if a.Some? then a else b }

  lemma EscapeFault(e: Bytes, octet: Byte, inPath: bool)
    requires EscapeOf(e, octet)
    ensures EncodingFault(e, 0, inPath) == OctetFault(octet, inPath)
  {
    EscapeReads(e, octet);
    hide EscapeOf;
    assert EncodingFault(e, 3, inPath) == None;
  }

  /** Reading a text with an escape in it: the faults of its parts, in their order, and the spelling of its parts. */
  lemma EscapeInText(a: Bytes, e: Bytes, b: Bytes, octet: Byte, inPath: bool)
    requires WellEscaped(a, 0) && EscapeOf(e, octet)
    ensures EncodingFault(a + e + b, 0, inPath) ==
      FirstOf(EncodingFault(a, 0, inPath), FirstOf(OctetFault(octet, inPath), EncodingFault(b, 0, inPath)))
    ensures WellEscaped(a + e + b, 0) <==> WellEscaped(b, 0)
    ensures WellEscaped(b, 0) ==>
      Canon(a + e + b) == Canon(a) + (if IsUnreserved(octet) then [octet] else UpperEscape(octet)) + Canon(b)
  {
    EscapeFault(e, octet, inPath);
    EscapeSpelled(e, octet);
    ConcatFrom(a, e, 0, inPath);
    ConcatFrom(a + e, b, 0, inPath);
  }

  lemma EscapeFound(b: Bytes) returns (e: Bytes, octet: Byte)
    requires EscapeAt(b, 0)
    ensures EscapeOf(e, octet) && e <= b
  {
    e, octet := b[..3], Octet(b[1], b[2]);
    hide Spells;
    HexDigits(b[1], HexValue(b[1]));
    HexDigits(b[2], HexValue(b[2]));
    assert octet as int / 16 == HexValue(b[1]) && octet as int % 16 == HexValue(b[2]);
  }

  /** A percent sign that begins no escape is the fault of the text, when nothing before it is. */
  lemma MalformedEscape(a: Bytes, b: Bytes, inPath: bool)
    requires EncodingFault(a, 0, inPath).None? && b != [] && b[0] == '%'
    requires forall e, octet :: EscapeOf(e, octet) ==> !(e <= b)
    ensures EncodingFault(a + b, 0, inPath) == Some(InvalidPercentEncoding)
  {
    FaultlessIsWellEscaped(a, 0, inPath);
    ConcatFrom(a, b, 0, inPath);
    NoEscapeAt(b);
  }

  lemma NoEscapeAt(b: Bytes)
    ensures EscapeAt(b, 0) ==> exists e, octet :: EscapeOf(e, octet) && e <= b
  {
    if EscapeAt(b, 0) { var e, octet := EscapeFound(b); }
  }

  lemma ByteInText(a: Bytes, c: Byte, b: Bytes, inPath: bool)
    requires WellEscaped(a, 0) && c != '%'
    ensures EncodingFault(a + [c] + b, 0, inPath) == FirstOf(EncodingFault(a, 0, inPath), EncodingFault(b, 0, inPath))
    ensures WellEscaped(a + [c] + b, 0) <==> WellEscaped(b, 0)
    ensures WellEscaped(b, 0) ==> Canon(a + [c] + b) == Canon(a) + [c] + Canon(b)
  {
    PieceOfByte(c, [], inPath);
    assert [c] + [] == [c] && WellEscaped([], 0) && Canon([]) == [];
    ConcatFrom(a, [c], 0, inPath);
    ConcatFrom(a + [c], b, 0, inPath);
  }

  /** An escaped unreserved byte is that byte. */
  lemma UnreservedInText(a: Bytes, e: Bytes, b: Bytes, c: Byte, inPath: bool)
    requires WellEscaped(a, 0) && EscapeOf(e, c) && IsUnreserved(c)
    ensures EncodingFault(a + e + b, 0, inPath) == EncodingFault(a + [c] + b, 0, inPath)
    ensures WellEscaped(a + e + b, 0) <==> WellEscaped(a + [c] + b, 0)
    ensures WellEscaped(a + e + b, 0) ==> Canon(a + e + b) == Canon(a + [c] + b)
  {
    EscapeInText(a, e, b, c, inPath);
    ByteInText(a, c, b, inPath);
    hide WellEscaped;
    hide EncodingFault;
    hide Canon;
    hide EscapeOf;
  }

  // ---------- escapes in a target ----------

  lemma SameRouting(s: Bytes, t: Bytes)
    requires s != [] && t != [] && s[0] == '/' && t[0] == '/'
    requires EncodingFault(s, 0, true) == EncodingFault(t, 0, true)
    requires WellEscaped(s, 0) && WellEscaped(t, 0) ==> Canon(s) == Canon(t)
    ensures RoutingPath(s) == RoutingPath(t)
  {
    if EncodingFault(s, 0, true).None? {
      FaultlessIsWellEscaped(s, 0, true);
      FaultlessIsWellEscaped(t, 0, true);
      CanonOfPath(s);
      CanonOfPath(t);
      assert Canon(s)[1..] == CanonFrom(s, 1) && Canon(t)[1..] == CanonFrom(t, 1);
    }
  }

  /** What stands before a question mark only matters through the routing path. */
  lemma PathBefore(u: Bytes, v: Bytes, b: Bytes)
    requires '?' !in u && '?' !in v && RoutingPath(u + b[..IndexOf(b, '?')]) == RoutingPath(v + b[..IndexOf(b, '?')])
    ensures CanonicalPath(u + b) == CanonicalPath(v + b)
  {
    PathAndQueryParts(u, b);
    PathAndQueryParts(v, b);
    hide RoutingPath;
    hide WithQuery;
    hide CanonicalPath;
  }

  function WithQuery(routing: Result<Bytes>, after: Bytes): Result<R.PathParts> {
    if routing.Err? then Err(routing.error)
    else if after == [] then Ok(R.PathParts(routing.value, routing.value))
    else
      var query := CanonicalQuery(after[1..]);
      if query.Err? then Err(query.error) else Ok(R.PathParts(routing.value + ['?'] + query.value, routing.value))
  }

  lemma PathAndQueryParts(u: Bytes, b: Bytes)
    requires '?' !in u
    ensures var q := IndexOf(b, '?'); CanonicalPath(u + b) == WithQuery(RoutingPath(u + b[..q]), b[q..])
  {
    hide RoutingPath;
    hide CanonicalQuery;
    SplitsAtQuestion(u, b);
  }

  lemma SplitsAtQuestion(u: Bytes, b: Bytes)
    requires '?' !in u
    ensures var q := IndexOf(b, '?');
      && IndexOf(u + b, '?') == |u| + q && (u + b)[..|u| + q] == u + b[..q]
      && (q < |b| ==> (u + b)[|u| + q + 1..] == b[q + 1..])
  {
    var q := IndexOf(b, '?');
    IndexOfFirst(b, '?');
    forall k | 0 <= k < |u| + q ensures (u + b)[k] != '?' {
      if k >= |u| { assert (u + b)[k] == b[k - |u|]; }
    }
    IndexOfUnique(u + b, '?', |u| + q);
  }

  /** In a path an unreserved byte may be escaped in either case, and nothing changes: dots stay dots. */
  lemma EscapedByteIsByte(verb: Bytes, a: Bytes, e: Bytes, b: Bytes, c: Byte, ipv6: Ipv6)
    requires a != [] && a[0] == '/' && '?' !in a && WellEscaped(a, 0) && EscapeOf(e, c) && IsUnreserved(c)
    requires EnvelopeFault(a + e + b).None?
    ensures Normalize(verb, a + e + b, ipv6) == Normalize(verb, a + [c] + b, ipv6)
  {
    var before := b[..IndexOf(b, '?')];
    UnreservedInText(a, e, before, c, true);
    EscapePlain(e, c);
    SameRouting(a + e + before, a + [c] + before);
    ShorterEnvelope(a, e, b, c);
    hide EscapeOf;
    hide WellEscaped;
    hide EncodingFault;
    hide RoutingPath;
    hide CanonicalPath;
    hide EnvelopeFault;
    PathBefore(a + e, a + [c], b);
    NormalizeOrigin(verb, a + e + b, ipv6);
    NormalizeOrigin(verb, a + [c] + b, ipv6);
    hide Normalize;
  }

  lemma EscapePlain(e: Bytes, octet: Byte)
    requires EscapeOf(e, octet)
    ensures '?' !in e
  {
    EscapeReads(e, octet);
  }

  lemma ShorterEnvelope(a: Bytes, e: Bytes, b: Bytes, c: Byte)
    requires EnvelopeFault(a + e + b).None? && |e| == 3 && IsUnreserved(c)
    ensures EnvelopeFault(a + [c] + b).None?
  {
    EnvelopeOf(a + e + b);
    EnvelopeOf(a + [c] + b);
    hide EnvelopeFault;
    BytesOfParts(a + e, b);
    BytesOfParts(a, e);
    BytesOfParts(a + [c], b);
    BytesOfParts(a, [c]);
  }

  /** In a path an escaped separator or control byte is refused, whatever the case of its digits. */
  lemma EscapedByteRefused(verb: Bytes, a: Bytes, e: Bytes, b: Bytes, octet: Byte, ipv6: Ipv6)
    requires a != [] && a[0] == '/' && '?' !in a && EncodingFault(a, 0, true).None? && EscapeOf(e, octet)
    requires EnvelopeFault(a + e + b).None? && verb != "connect"
    ensures octet == '/' || octet == '\\' ==> Normalize(verb, a + e + b, ipv6) == Err(InvalidTarget(EncodedSeparator))
    ensures IsControl(octet) ==> Normalize(verb, a + e + b, ipv6) == Err(InvalidTarget(EncodedControl))
  {
    hide EscapeOf;
    hide WellEscaped;
    hide EncodingFault;
    hide EnvelopeFault;
    hide CanonicalQuery;
    hide CanonicalPath;
    hide RoutingPath;
    var before := b[..IndexOf(b, '?')];
    FaultlessIsWellEscaped(a, 0, true);
    EscapeInText(a, e, before, octet, true);
    EscapePlain(e, octet);
    PathAndQueryParts(a + e, b);
    if OctetFault(octet, true).Some? { FaultRefused(a + e + before); }
    NormalizeOrigin(verb, a + e + b, ipv6);
    hide Normalize;
  }

  lemma FaultRefused(path: Bytes)
    requires path != [] && path[0] == '/' && EncodingFault(path, 0, true).Some?
    ensures RoutingPath(path) == Err(InvalidTarget(EncodingFault(path, 0, true).value))
  {
  }
}
