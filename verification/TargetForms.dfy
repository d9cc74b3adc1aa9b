/** What each form of request target is normalised to, read off the parts of the text. */
module TargetForms {
  import opened Bytes
  import A = Authorities
  import opened DotSegments
  import opened Http
  import opened PercentEncoding
  import opened R = RequestTarget

  const HTTP: Bytes := "http://"
  const HTTPS: Bytes := "https://"

  /** A scheme with its separator, in any case. */
  predicate SchemeText(s: Bytes) { LowerAll(s) == HTTP || LowerAll(s) == HTTPS }

  function SchemeOf(s: Bytes): Bytes { if |s| == 7 then "http" else "https" }

  /** What follows an authority: nothing, a path or a query. */
  predicate Suffix(p: Bytes) { p != [] ==> p[0] == '/' || p[0] == '?' }

  /** The origin target with the same path and query. */
  function OriginOf(p: Bytes): Bytes {
    if p == [] then "/" else if p[0] == '?' then "/" + p else p
  }

  lemma {:induction false} AuthorityEnds(a: Bytes, p: Bytes, i: nat)
    requires i <= |a| && '/' !in a && '?' !in a && Suffix(p)
    ensures AuthorityEnd(a + p, i) == |a|
    decreases |a| - i
  {
    if i < |a| {
      assert (a + p)[i] == a[i];
      AuthorityEnds(a, p, i + 1);
    } else if p != [] {
      assert (a + p)[i] == p[0];
    }
  }

  lemma SchemeTexts()
    ensures |HTTP| == 7 && |HTTPS| == 8 && HTTP[0] == 'h' && HTTPS[0] == 'h' && HTTP[4] == ':' && HTTPS[4] == 's'
  {
  }

  lemma SchemeLetters(s: Bytes)
    requires SchemeText(s)
    ensures (|s| == 7 || |s| == 8) && s[0] != '*' && s[0] != '/'
    ensures LowerAll(s) == HTTPS ==> |s| == 8 && LowerAll(s[..7]) != HTTP
    ensures LowerAll(s) == HTTP ==> |s| == 7
  {
    SchemeTexts();
    hide LowerAll;
    hide HTTP;
    hide HTTPS;
    assert LowerAll(s)[0] == Lower(s[0]) == 'h';
    if LowerAll(s) == HTTPS {
      LowerOfSlice(s, 0, 7);
      assert s[..7] == s[0..7] && LowerAll(s)[..7] == LowerAll(s)[0..7];
      assert LowerAll(s)[..7][4] == 's';
    }
  }

  lemma Classified(s: Bytes, rest: Bytes)
    requires SchemeText(s)
    ensures ClassifySyntax(s + rest) == AbsoluteSyntax(SchemeOf(s), rest)
  {
    var target := s + rest;
    SchemeLetters(s);
    LiteralCase();
    hide LowerAll;
    assert target[0] == s[0] && target[..|s|] == s && target[|s|..] == rest;
    assert target[..7] == s[..7];
    if |s| == 7 { assert s[..7] == s; }
  }

  lemma LiteralCase()
    ensures LowerAll("http://") == HTTP && LowerAll("https://") == HTTPS
  {
  }

  lemma BytesOfParts(a: Bytes, b: Bytes)
    ensures (forall i :: 0 <= i < |a + b| ==> !BadTargetByte((a + b)[i])) <==>
      (forall i :: 0 <= i < |a| ==> !BadTargetByte(a[i])) && (forall i :: 0 <= i < |b| ==> !BadTargetByte(b[i]))
  {
    hide BadTargetByte;
    assert forall i :: 0 <= i < |a| ==> (a + b)[i] == a[i];
    assert forall i :: 0 <= i < |b| ==> (a + b)[|a| + i] == b[i];
  }

  lemma EnvelopeOf(target: Bytes)
    ensures EnvelopeFault(target).None? <==>
      1 <= |target| <= TARGET_MAX && forall i :: 0 <= i < |target| ==> !BadTargetByte(target[i])
  {
    ByteFaultNone(target, 0);
  }

  /** Envelope faults of an absolute target are those of its parts. */
  lemma EnvelopeOfParts(s: Bytes, a: Bytes, p: Bytes)
    requires SchemeText(s) && Suffix(p)
    ensures EnvelopeFault(s + a + p).None? <==>
      && |s| + |a| + |p| <= TARGET_MAX && (forall i :: 0 <= i < |a| ==> !BadTargetByte(a[i]))
      && EnvelopeFault(OriginOf(p)).None?
  {
    EnvelopeOf(s + a + p);
    EnvelopeOf(OriginOf(p));
    SchemeLetters(s);
    SchemeBytes(s);
    hide EnvelopeFault;
    hide LowerAll;
    BytesOfParts(s, a);
    BytesOfParts(s + a, p);
    BytesOfParts("/", p);
  }

  lemma SchemeBytes(s: Bytes)
    requires SchemeText(s)
    ensures forall i :: 0 <= i < |s| ==> !BadTargetByte(s[i])
  {
    PlainSchemes();
    hide LowerAll;
    hide HTTP;
    hide HTTPS;
    forall i | 0 <= i < |s| ensures !BadTargetByte(s[i]) { assert LowerAll(s)[i] == Lower(s[i]); }
  }

  lemma PlainSchemes()
    ensures forall i :: 0 <= i < |HTTP| ==> !BadTargetByte(HTTP[i])
    ensures forall i :: 0 <= i < |HTTPS| ==> !BadTargetByte(HTTPS[i])
  {
  }

  lemma NormalizeOrigin(verb: Bytes, path: Bytes, ipv6: Ipv6)
    requires path != [] && path[0] == '/'
    ensures Normalize(verb, path, ipv6) ==
      if EnvelopeFault(path).Some? then Err(EnvelopeFault(path).value)
      else if verb == "connect" then Err(InvalidTarget(ConnectRequiresAuthority))
      else PathTarget(Origin, None, None, CanonicalPath(path))
  {
    hide EnvelopeFault;
    hide CanonicalPath;
    assert path != "*" && ClassifySyntax(path) == OriginSyntax;
  }

  lemma NormalizeParts(verb: Bytes, s: Bytes, a: Bytes, p: Bytes, ipv6: Ipv6)
    requires SchemeText(s) && '/' !in a && '?' !in a && Suffix(p)
    ensures var (target, authority) := (s + a + p, CanonicalAuthority(a, false, ipv6));
      Normalize(verb, target, ipv6) ==
        if EnvelopeFault(target).Some? then Err(EnvelopeFault(target).value)
        else if verb == "connect" then Err(InvalidTarget(ConnectRequiresAuthority))
        else if authority.Err? then Err(authority.error)
        else PathTarget(Absolute, Some(SchemeOf(s)), Some(authority.value), CanonicalPath(OriginOf(p)))
  {
    hide EnvelopeFault;
    hide CanonicalPath;
    hide CanonicalAuthority;
    hide ClassifySyntax;
    hide SchemeText;
    hide SchemeOf;
    Classified(s, a + p);
    AuthorityEnds(a, p, 0);
    assert s + a + p == s + (a + p) && (a + p)[..|a|] == a && (a + p)[|a|..] == p;
    assert PathInput(p) == OriginOf(p);
  }

  /** The parts of an accepted absolute target. */
  ghost predicate PartsFit(s: Bytes, a: Bytes, p: Bytes, ipv6: Ipv6) {
    && |s| + |a| + |p| <= TARGET_MAX && (forall i :: 0 <= i < |a| ==> !BadTargetByte(a[i]))
    && CanonicalAuthority(a, false, ipv6).Ok?
  }

  /** An absolute target is accepted exactly when its length and authority are and its path and query are as those of an
      origin target; these, the scheme and the authority are what it is normalised to. */
  lemma AbsoluteIsOrigin(verb: Bytes, s: Bytes, a: Bytes, p: Bytes, ipv6: Ipv6)
    requires SchemeText(s) && '/' !in a && '?' !in a && Suffix(p)
    ensures var (r, path) := (Normalize(verb, s + a + p, ipv6), Normalize(verb, OriginOf(p), ipv6));
      && (r.Ok? <==> PartsFit(s, a, p, ipv6) && path.Ok?)
      && (r.Ok? ==>
           r.value == NormalizedTarget(Absolute, Some(SchemeOf(s)), Some(CanonicalAuthority(a, false, ipv6).value),
                                       path.value.pathAndQuery, path.value.routingPath))
  {
    EnvelopeOfParts(s, a, p);
    NormalizeParts(verb, s, a, p, ipv6);
    NormalizeOrigin(verb, OriginOf(p), ipv6);
    hide EnvelopeFault;
    hide CanonicalPath;
    hide CanonicalAuthority;
    hide SchemeText;
    hide SchemeOf;
    hide OriginOf;
    hide Normalize;
  }

  // ---------- origin targets ----------

  /** The canonical path that section 5.2.4 of RFC 3986 leaves, unless it has to climb above the root. */
  ghost predicate PathIs(path: Bytes, routing: Bytes) {
    && EncodingFault(path, 0, true).None? && WellEscaped(path, 0)
    && var r := RemoveDotSegments(Canon(path), [], false); !r.clamped && r.path == routing
  }

  lemma RoutingMeans(path: Bytes, routing: Bytes)
    requires path != [] && path[0] == '/'
    ensures RoutingPath(path) == Ok(routing) <==> PathIs(path, routing)
  {
    if EncodingFault(path, 0, true).None? { RoutingPathIsRfc(path); }
    hide RemoveDotSegments;
  }

  /** The target that a path with or without a query is normalised to. */
  ghost predicate OriginTarget(path: Bytes, query: Option<Bytes>, t: NormalizedTarget) {
    && PathIs(path, t.routingPath) && t.form == Origin && t.scheme == None && t.authority == None
    && (query.None? ==> t.pathAndQuery == t.routingPath)
    && (query.Some? ==>
          EncodingFault(query.value, 0, false).None? && WellEscaped(query.value, 0)
          && t.pathAndQuery == t.routingPath + "?" + Canon(query.value))
  }

  function WithQuery(path: Bytes, query: Option<Bytes>): Bytes { if query.Some? then path + "?" + query.value else path }

  lemma QuerySplits(path: Bytes, query: Option<Bytes>)
    requires '?' !in path
    ensures var text := WithQuery(path, query);
      && IndexOf(text, '?') == |path| && text[..|path|] == path
      && (query.Some? ==> |path| < |text| && text[|path| + 1..] == query.value) && (query.None? ==> |path| == |text|)
  {
    IndexOfUnique(WithQuery(path, query), '?', |path|);
  }

  lemma PathMeans(path: Bytes, query: Option<Bytes>, parts: PathParts)
    requires path != [] && path[0] == '/' && '?' !in path
    ensures CanonicalPath(WithQuery(path, query)) == Ok(parts) <==>
      OriginTarget(path, query, NormalizedTarget(Origin, None, None, parts.pathAndQuery, parts.routingPath))
  {
    QuerySplits(path, query);
    RoutingMeans(path, parts.routingPath);
    hide RoutingPath;
    hide PathIs;
    hide WithQuery;
    if query.Some? && EncodingFault(query.value, 0, false).None? { FaultlessIsWellEscaped(query.value, 0, false); }
    hide EncodingFault;
  }

  /** A path, with a query or without, is accepted for every method but `connect` exactly when its bytes and length are,
      its escapes are in order and it does not climb above the root; the path is what section 5.2.4 of RFC 3986 leaves of
      its canonical spelling, and the query is spelled canonically behind it. */
  lemma OriginMeans(verb: Bytes, path: Bytes, query: Option<Bytes>, t: NormalizedTarget, ipv6: Ipv6)
    requires path != [] && path[0] == '/' && '?' !in path
    ensures Normalize(verb, WithQuery(path, query), ipv6) == Ok(t) <==>
      verb != "connect" && EnvelopeFault(WithQuery(path, query)).None? && OriginTarget(path, query, t)
  {
    var text := WithQuery(path, query);
    assert text[0] == '/';
    NormalizeOrigin(verb, text, ipv6);
    PathMeans(path, query, R.PathParts(t.pathAndQuery, t.routingPath));
    hide WithQuery;
    hide Normalize;
    hide EnvelopeFault;
    hide CanonicalPath;
    hide PathIs;
    hide EncodingFault;
    hide WellEscaped;
  }

  // ---------- the other forms ----------

  lemma NoSlash(a: Bytes, required: bool, ipv6: Ipv6)
    requires CanonicalAuthority(a, required, ipv6).Ok?
    ensures a != [] && a[0] != '/' && a != "*" && '/' !in a
  {
    assert forall i :: 0 <= i < |a| ==> !ForbiddenInAuthority(a[i]);
    if a == "*" { StarIsNoAuthority(required, ipv6); }
  }

  lemma StarIsNoAuthority(required: bool, ipv6: Ipv6)
    ensures CanonicalAuthority("*", required, ipv6).Err?
  {
    var star: Bytes := "*";
    IndexOfUnique(star, ':', 1);
    SplitLast(star, '.');
    assert star[..1] == star && !DnsLabel(star) && star in Split(star, '.');
  }

  lemma AbsoluteHasSlash(target: Bytes)
    requires ClassifySyntax(target).AbsoluteSyntax?
    ensures '/' in target
  {
    LiteralCase();
    SchemeSlashes();
    hide HTTP;
    hide HTTPS;
    hide LowerAll;
    if StartsIgnoringCase(target, "http://") {
      assert LowerAll(target[..7])[5] == Lower(target[5]);
    } else {
      assert LowerAll(target[..8])[6] == Lower(target[6]);
    }
  }

  lemma SchemeSlashes()
    ensures |HTTP| == 7 && |HTTPS| == 8 && HTTP[5] == '/' && HTTPS[6] == '/'
  {
  }

  lemma NormalizeConnect(target: Bytes, ipv6: Ipv6)
    ensures Normalize("connect", target, ipv6).Ok? <==> EnvelopeFault(target).None? && CanonicalAuthority(target, true, ipv6).Ok?
    ensures Normalize("connect", target, ipv6).Ok? ==>
      var value := CanonicalAuthority(target, true, ipv6).value;
      Normalize("connect", target, ipv6).value == NormalizedTarget(Authority, None, Some(value), value, value)
  {
    if CanonicalAuthority(target, true, ipv6).Ok? { NoSlash(target, true, ipv6); }
    if ClassifySyntax(target).AbsoluteSyntax? { AbsoluteHasSlash(target); }
    hide CanonicalAuthority;
    hide EnvelopeFault;
    hide StartsIgnoringCase;
  }

  /** The authority form is for `connect` only, and the only one for it: a host or an address with a port. */
  lemma ConnectMeans(target: Bytes, t: NormalizedTarget, ipv6: Ipv6)
    ensures Normalize("connect", target, ipv6) == Ok(t) <==>
      && EnvelopeFault(target).None? && t.form == Authority && t.scheme == None && t.authority == Some(t.pathAndQuery)
      && t.routingPath == t.pathAndQuery
      && (A.NameAndPort(target, true, t.pathAndQuery) || A.AddressAndPort(target, true, t.pathAndQuery, ipv6))
  {
    NormalizeConnect(target, ipv6);
    A.AuthorityMeans(target, true, t.pathAndQuery, ipv6);
    hide Normalize;
    hide CanonicalAuthority;
    hide EnvelopeFault;
    hide A.NameAndPort;
    hide A.AddressAndPort;
  }

  /** The asterisk is for `options` only; every other method needs a path or a scheme. */
  lemma OtherForms(verb: Bytes, target: Bytes, ipv6: Ipv6)
    ensures Normalize("options", "*", ipv6) == Ok(NormalizedTarget(Asterisk, None, None, "*", "*"))
    ensures verb != "options" ==> Normalize(verb, "*", ipv6) == Err(InvalidTarget(AsteriskMethod))
    ensures verb != "connect" && target != "*" && (target == [] || target[0] != '/')
            && (forall s, rest :: SchemeText(s) ==> target != s + rest) ==>
      Normalize(verb, target, ipv6).Err?
  {
    StarIsClean();
    if target != [] && target[0] != '/' && target != "*" && ClassifySyntax(target).AbsoluteSyntax? {
      LiteralCase();
      var n := if StartsIgnoringCase(target, "http://") then 7 else 8;
      assert target == target[..n] + target[n..] && SchemeText(target[..n]);
    }
    hide EnvelopeFault;
    hide StartsIgnoringCase;
    hide SchemeText;
  }

  lemma StarIsClean()
    ensures EnvelopeFault("*").None?
  {
    EnvelopeOf("*");
  }
}
