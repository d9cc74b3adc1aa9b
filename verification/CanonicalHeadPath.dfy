/** The paths the head printers accept are exactly the fixed points of target normalisation. */
module CanonicalHeadPath {
  import opened Bytes
  import opened CanonicalHead
  import opened DotSegments
  import opened Http
  import opened PercentEncoding
  import R = RequestTarget

  // ---------- escapes in the parts of a target ----------

  lemma {:induction false} EscapesInSuffix(a: Bytes, b: Bytes, i: nat, cut: nat)
    requires i <= |b| && cut <= |a| + i
    ensures EscapesOk(a + b, |a| + i, cut) <==> EscapesOk(b, i, 0)
    decreases |b| - i
  {
    if i < |b| {
      assert (a + b)[|a| + i] == b[i];
      if b[i] != '%' {
        EscapesInSuffix(a, b, i + 1, cut);
      } else if i + 2 < |b| {
        assert (a + b)[|a| + i + 1] == b[i + 1] && (a + b)[|a| + i + 2] == b[i + 2];
        EscapesInSuffix(a, b, i + 3, cut);
      }
    }
  }

  /** An escape of the path cannot reach into what follows a question mark. */
  lemma {:induction false} EscapesInPrefix(path: Bytes, rest: Bytes, i: nat)
    requires i <= |path| && (rest != [] ==> rest[0] == '?')
    ensures EscapesOk(path + rest, i, |path|) <==>
            EscapesOk(path, i, |path|) && EscapesOk(path + rest, |path|, |path|)
    decreases |path| - i
  {
    var text := path + rest;
    if i < |path| {
      assert text[i] == path[i];
      if path[i] != '%' {
        EscapesInPrefix(path, rest, i + 1);
      } else if i + 2 < |path| {
        assert text[i + 1] == path[i + 1] && text[i + 2] == path[i + 2];
        EscapesInPrefix(path, rest, i + 3);
      } else {
        assert |text| > |path| ==> text[|path|] == '?';
        assert i + 1 < |path| ==> text[i + 1] == path[i + 1];
      }
    }
  }

  lemma EscapesSplit(path: Bytes, query: Bytes)
    ensures EscapesOk(path + ['?'] + query, 0, |path|) <==> EscapesOk(path, 0, |path|) && EscapesOk(query, 0, 0)
  {
    hide EscapesOk;
    var marked := path + ['?'];
    var rest := ['?'] + query;
    var text := marked + query;
    assert text == path + rest by { ConcatAssociates(path, ['?'], query); }
    EscapesInPrefix(path, rest, 0);
    assert EscapesOk(text, |path|, |path|) <==> EscapesOk(text, |marked|, |path|) by { PlainByte(text, |path|); }
    EscapesInSuffix(marked, query, 0, |path|);
    assert EscapesOk(path, |path|, |path|) by { NothingLeft(path, |path|); }
  }

  lemma PlainByte(text: Bytes, i: nat)
    requires i < |text| && text[i] == '?'
    ensures EscapesOk(text, i, i) <==> EscapesOk(text, i + 1, i)
  {
  }

  lemma NothingLeft(text: Bytes, cut: nat)
    ensures EscapesOk(text, |text|, cut)
  {
  }

  lemma UpperDigits(c: Byte)
    requires IsHexDigit(c)
    ensures HexDigit(HexValue(c)) == c <==> IsUpperHexDigit(c)
  {
  }

  lemma OctetDigits(high: Byte, low: Byte)
    requires IsHexDigit(high) && IsHexDigit(low)
    ensures Octet(high, low) as int / 16 == HexValue(high) && Octet(high, low) as int % 16 == HexValue(low)
  {
  }

  /** An escape is spelled canonically when its octet needs escaping and its digits are upper case. */
  lemma CanonicalEscape(s: Bytes, i: nat, rest: Bytes)
    requires EscapeAt(s, i) && |rest| <= |s| - i - 3
    ensures var octet := Octet(s[i + 1], s[i + 2]);
      SpellOctet(octet) + rest == s[i..] <==>
        !IsUnreserved(octet) && IsUpperHexDigit(s[i + 1]) && IsUpperHexDigit(s[i + 2]) && rest == s[i + 3..]
  {
    var octet := Octet(s[i + 1], s[i + 2]);
    OctetDigits(s[i + 1], s[i + 2]);
    UpperDigits(s[i + 1]);
    UpperDigits(s[i + 2]);
    var tail := s[i..];
    assert tail == [s[i], s[i + 1], s[i + 2]] + s[i + 3..];
    if IsUnreserved(octet) {
      assert |SpellOctet(octet) + rest| < |tail|;
    } else {
      var spelled := SpellOctet(octet);
      if spelled + rest == tail {
        assert spelled == tail[..3] && rest == tail[3..];
        assert tail[1] == s[i + 1] && tail[2] == s[i + 2];
      }
    }
  }

  /** Canonical escapes are what faultless text has when it is its own canonical spelling. */
  lemma {:induction false} EscapesAreCanonical(s: Bytes, i: nat, inPath: bool)
    requires i <= |s|
    ensures EscapesOk(s, i, if inPath then |s| else 0) <==>
            WellEscaped(s, i) && EncodingFault(s, i, inPath).None? && CanonFrom(s, i) == s[i..]
    decreases |s| - i
  {
    if i < |s| {
      if s[i] != '%' {
        EscapesAreCanonical(s, i + 1, inPath);
        if WellEscaped(s, i + 1) {
          assert s[i..] == [s[i]] + s[i + 1..];
          assert ([s[i]] + CanonFrom(s, i + 1))[1..] == CanonFrom(s, i + 1);
        }
      } else if EscapeAt(s, i) {
        EscapesAreCanonical(s, i + 3, inPath);
        if WellEscaped(s, i + 3) { CanonicalEscape(s, i, CanonFrom(s, i + 3)); }
      }
    }
  }

  // ---------- paths and queries ----------

  ghost predicate NoDotParts(path: Bytes)
    requires path != []
  {
    forall part :: part in Split(path[1..], '/') ==> part != "." && part != ".."
  }

  lemma CanonicalTail(path: Bytes)
    requires path != [] && path[0] == '/' && WellEscaped(path, 0) && Canon(path) == path
    ensures R.Segments(path) == Split(path[1..], '/')
  {
    assert Canon(path) == ['/'] + CanonFrom(path, 1);
    assert Canon(path)[1..] == CanonFrom(path, 1);
  }

  /** A path is its own routing path when its escapes are canonical and it has no dot segments. */
  lemma OwnRoutingPath(path: Bytes)
    requires path != [] && path[0] == '/'
    ensures R.RoutingPath(path) == Ok(path) <==> EscapesOk(path, 0, |path|) && NoDotParts(path)
  {
    EscapesAreCanonical(path, 0, true);
    assert path[0..] == path;
    if EscapesOk(path, 0, |path|) && NoDotParts(path) {
      CanonicalTail(path);
      R.CanonOfPath(path);
      var segments := R.Segments(path);
      NoDotsIsKept(segments, |segments|);
      assert segments[..|segments|] == segments;
    }
    if R.RoutingPath(path) == Ok(path) {
      R.KeptIsClean(path);
      var kept := RemoveDots(R.Segments(path)).value;
      R.RenderedSegments(kept);
      CanonicalTail(path);
      KeptHasNoDots(R.Segments(path), |R.Segments(path)|);
    }
  }

  lemma OwnQuery(query: Bytes)
    ensures R.CanonicalQuery(query) == Ok(query) <==> EscapesOk(query, 0, 0)
  {
    EscapesAreCanonical(query, 0, false);
    assert query[0..] == query;
    if EncodingFault(query, 0, false).None? { FaultlessIsWellEscaped(query, 0, false); }
  }

  /** A normalised spelling splits where its input does. */
  lemma SameSplit(input: Bytes, parts: R.PathParts)
    requires R.CanonicalPath(input) == Ok(parts) && parts.pathAndQuery == input
    ensures var question := IndexOf(input, '?');
      && parts.routingPath == input[..question] && R.RoutingPath(input[..question]) == Ok(input[..question])
      && (question < |input| ==> R.CanonicalQuery(input[question + 1..]) == Ok(input[question + 1..]))
  {
    var question := IndexOf(input, '?');
    IndexOfFirst(input, '?');
    var routing := R.RoutingPath(input[..question]).value;
    R.RoutingPathBytes(input[..question], '?');
    if question < |input| {
      var query := R.CanonicalQuery(input[question + 1..]).value;
      IndexOfUnique(routing + ['?'] + query, '?', |routing|);
      assert (routing + ['?'] + query)[..|routing|] == routing;
      assert (routing + ['?'] + query)[|routing| + 1..] == query;
    } else {
      assert input[..question] == input;
    }
  }

  lemma EscapesOfTarget(pathAndQuery: Bytes)
    ensures var question := IndexOf(pathAndQuery, '?');
      EscapesOk(pathAndQuery, 0, question) <==>
        && EscapesOk(pathAndQuery[..question], 0, question)
        && (question < |pathAndQuery| ==> EscapesOk(pathAndQuery[question + 1..], 0, 0))
  {
    var question := IndexOf(pathAndQuery, '?');
    IndexOfFirst(pathAndQuery, '?');
    if question < |pathAndQuery| {
      EscapesSplit(pathAndQuery[..question], pathAndQuery[question + 1..]);
      assert pathAndQuery == pathAndQuery[..question] + ['?'] + pathAndQuery[question + 1..];
    } else {
      assert pathAndQuery[..question] == pathAndQuery;
    }
  }

  lemma AcceptedIsFixed(pathAndQuery: Bytes, routingPath: Bytes)
    requires PathOk(pathAndQuery, routingPath)
    ensures R.EnvelopeFault(pathAndQuery).None?
    ensures R.CanonicalPath(pathAndQuery) == Ok(R.PathParts(pathAndQuery, routingPath))
  {
    var question := IndexOf(pathAndQuery, '?');
    IndexOfFirst(pathAndQuery, '?');
    R.ByteFaultNone(pathAndQuery, 0);
    EscapesOfTarget(pathAndQuery);
    var path := pathAndQuery[..question];
    assert path[1..] == pathAndQuery[1..question];
    OwnRoutingPath(path);
    if question < |pathAndQuery| {
      OwnQuery(pathAndQuery[question + 1..]);
      assert pathAndQuery == path + ['?'] + pathAndQuery[question + 1..];
    } else {
      assert path == pathAndQuery;
    }
  }

  lemma FixedIsAccepted(pathAndQuery: Bytes, routingPath: Bytes)
    requires R.EnvelopeFault(pathAndQuery).None?
    requires R.CanonicalPath(pathAndQuery) == Ok(R.PathParts(pathAndQuery, routingPath))
    ensures PathOk(pathAndQuery, routingPath)
  {
    var question := IndexOf(pathAndQuery, '?');
    IndexOfFirst(pathAndQuery, '?');
    R.ByteFaultNone(pathAndQuery, 0);
    SameSplit(pathAndQuery, R.PathParts(pathAndQuery, routingPath));
    var path := pathAndQuery[..question];
    OwnRoutingPath(path);
    assert path[1..] == pathAndQuery[1..question];
    if question < |pathAndQuery| { OwnQuery(pathAndQuery[question + 1..]); }
    EscapesOfTarget(pathAndQuery);
  }

  /** The printers accept a path and query exactly when normalising it again gives the same path and query, with the
      routing path that is printed. */
  lemma PathOkIsFixedPoint(pathAndQuery: Bytes, routingPath: Bytes)
    ensures PathOk(pathAndQuery, routingPath) <==>
            R.EnvelopeFault(pathAndQuery).None?
            && R.CanonicalPath(pathAndQuery) == Ok(R.PathParts(pathAndQuery, routingPath))
  {
    if PathOk(pathAndQuery, routingPath) { AcceptedIsFixed(pathAndQuery, routingPath); }
    if R.EnvelopeFault(pathAndQuery).None? && R.CanonicalPath(pathAndQuery) == Ok(R.PathParts(pathAndQuery, routingPath)) {
      FixedIsAccepted(pathAndQuery, routingPath);
    }
  }

  /** Every path target the normaliser lets through has a path the printers accept. */
  lemma NormalizedPathIsPrintable(verb: Bytes, target: Bytes, ipv6: Ipv6)
    requires R.Normalize(verb, target, ipv6).Ok?
    requires R.Normalize(verb, target, ipv6).value.form.Origin? || R.Normalize(verb, target, ipv6).value.form.Absolute?
    ensures var n := R.Normalize(verb, target, ipv6).value; PathOk(n.pathAndQuery, n.routingPath)
  {
    var n := R.Normalize(verb, target, ipv6).value;
    var input := R.PathOfTarget(verb, target, ipv6);
    R.NormalizedBytes(input);
    R.CanonicalPathAgain(input);
    FixedIsAccepted(n.pathAndQuery, n.routingPath);
  }

  // ---------- paths without escapes ----------

  lemma {:induction false} NoEscapes(text: Bytes, i: nat, cut: nat)
    requires i <= |text| && '%' !in text
    ensures EscapesOk(text, i, cut)
    decreases |text| - i
  {
    if i < |text| { NoEscapes(text, i + 1, cut); }
  }

  /** A path without escapes and query can be printed when it has no dot parts. */
  lemma PlainPath(path: Bytes)
    requires 1 <= |path| <= TARGET_MAX && path[0] == '/' && '%' !in path && '?' !in path
    requires forall i :: 0 <= i < |path| ==> !R.BadTargetByte(path[i])
    ensures PathOk(path, path) <==> NoDotParts(path)
  {
    IndexOfUnique(path, '?', |path|);
    NoEscapes(path, 0, |path|);
    assert path[..|path|] == path && path[1..|path|] == path[1..];
  }
}
