/** Target normalisation by a table of method and form. */
module TargetRules {
  import opened Bytes
  import opened DotSegments
  import opened Http
  import opened PercentEncoding
  import opened RequestTarget

  datatype MethodKind = Connect | Options | Other

  method CheckedBoundary(target: Bytes) returns (fault: Option<PolyguardError>)
    ensures fault == EnvelopeFault(target)
  {
    if |target| > TARGET_MAX { return Some(LimitExceeded(TargetBytes, TARGET_MAX, |target|)); }
    if target == [] { return Some(InvalidTarget(EmptyTarget)); }
    for i := 0 to |target|
      invariant ByteFault(target, i) == ByteFault(target, 0)
    {
      if target[i] == '#' { return Some(InvalidTarget(FragmentNotAllowed)); }
      if target[i] == '\\' { return Some(InvalidTarget(BackslashNotAllowed)); }
      if !IsVisible(target[i]) { return Some(InvalidTarget(InvalidTargetByte)); }
    }
    return None;
  }

  /** Checking and spelling in one pass. */
  method NormalizePercentEncoding(value: Bytes, inPath: bool) returns (r: Result<Bytes>)
    ensures EncodingFault(value, 0, inPath).Some? ==> r == Err(InvalidTarget(EncodingFault(value, 0, inPath).value))
    ensures EncodingFault(value, 0, inPath).None? ==> WellEscaped(value, 0) && r == Ok(Canon(value))
  {
    if EncodingFault(value, 0, inPath).None? { FaultlessIsWellEscaped(value, 0, inPath); }
    var output: Bytes := [];
    var index := 0;
    while index < |value|
      invariant index <= |value|
      invariant EncodingFault(value, index, inPath) == EncodingFault(value, 0, inPath)
      invariant WellEscaped(value, 0) ==> WellEscaped(value, index) && output + CanonFrom(value, index) == Canon(value)
    {
      ghost var before := output;
      if value[index] == '%' {
        if !EscapeAt(value, index) { return Err(InvalidTarget(InvalidPercentEncoding)); }
        var decoded := Octet(value[index + 1], value[index + 2]);
        if inPath && (decoded == '/' || decoded == '\\') { return Err(InvalidTarget(EncodedSeparator)); }
        if IsControl(decoded) { return Err(InvalidTarget(EncodedControl)); }
        if IsUnreserved(decoded) {
          output := output + [decoded];
        } else {
          output := output + ['%', HexDigit(decoded as int / 16), HexDigit(decoded as int % 16)];
        }
        if WellEscaped(value, 0) { ConcatAssociates(before, SpellOctet(decoded), CanonFrom(value, index + 3)); }
        index := index + 3;
      } else {
        output := output + [value[index]];
        if WellEscaped(value, 0) { ConcatAssociates(before, [value[index]], CanonFrom(value, index + 1)); }
        index := index + 1;
      }
    }
    assert output + [] == output;
    return Ok(output);
  }

  method RemoveDotSegmentsByStack(path: Bytes) returns (r: Result<Bytes>)
    requires path != []
    ensures var kept := RemoveDots(Split(path[1..], '/'));
      r == if kept.None? then Err(InvalidTarget(PathTraversal)) else Ok(Rendered(kept.value))
  {
    var segments := Split(path[1..], '/');
    var kept: seq<Bytes> := [];
    for index := 0 to |segments|
      invariant Kept(segments, index) == Some(kept)
    {
      var finalSegment := index + 1 == |segments|;
      if segments[index] == "." {
        if finalSegment { kept := kept + [[]]; }
      } else if segments[index] == ".." {
        if kept == [] {
          KeptStaysNone(segments, index + 1);
          return Err(InvalidTarget(PathTraversal));
        }
        kept := kept[..|kept| - 1];
        if finalSegment { kept := kept + [[]]; }
      } else {
        kept := kept + [segments[index]];
      }
    }
    JoinIsRendered(kept);
    return Ok(['/'] + Join(kept, '/'));
  }

  method CanonicalRoutingPath(rawPath: Bytes) returns (r: Result<Bytes>)
    ensures r == RoutingPath(rawPath)
  {
    if rawPath == [] || rawPath[0] != '/' { return Err(InvalidTarget(InvalidPath)); }
    var decoded := NormalizePercentEncoding(rawPath, true);
    if decoded.Err? { return Err(decoded.error); }
    CanonOfPath(rawPath);
    assert decoded.value[1..] == CanonFrom(rawPath, 1);
    r := RemoveDotSegmentsByStack(decoded.value);
  }

  method CanonicalPathByRules(input: Bytes) returns (r: Result<PathParts>)
    ensures r == Limited(CanonicalPath(input))
  {
    var question := IndexOf(input, '?');
    var routing := CanonicalRoutingPath(input[..question]);
    if routing.Err? { return Err(routing.error); }
    var pathAndQuery := routing.value;
    if question < |input| {
      var query := NormalizePercentEncoding(input[question + 1..], false);
      if query.Err? { return Err(query.error); }
      pathAndQuery := routing.value + ['?'] + query.value;
    }
    if |pathAndQuery| > TARGET_MAX { return Err(LimitExceeded(TargetBytes, TARGET_MAX, |pathAndQuery|)); }
    return Ok(PathParts(pathAndQuery, routing.value));
  }

  /** The last check of the forms that keep the limit to the end. */
  method FinishPathTarget(form: TargetForm, scheme: Option<Bytes>, authority: Option<Bytes>, parts: PathParts)
    returns (r: Result<NormalizedTarget>)
    ensures r == PathTarget(form, scheme, authority, Limited(Ok(parts)))
  {
    if |parts.pathAndQuery| > TARGET_MAX { return Err(LimitExceeded(TargetBytes, TARGET_MAX, |parts.pathAndQuery|)); }
    return Ok(NormalizedTarget(form, scheme, authority, parts.pathAndQuery, parts.routingPath));
  }

  method NormalizeAbsoluteByRules(scheme: Bytes, remainder: Bytes, ipv6: Ipv6) returns (r: Result<NormalizedTarget>)
    requires |remainder| < TARGET_MAX
    ensures r == NormalizeAbsolute(scheme, remainder, ipv6)
  {
    var end := AuthorityEnd(remainder, 0);
    var authority := CanonicalAuthority(remainder[..end], false, ipv6);
    if authority.Err? { return Err(authority.error); }
    var input := PathInput(remainder[end..]);
    LimitNeverFires(input);
    var path := CanonicalPathByRules(input);
    return PathTarget(Absolute, Some(scheme), Some(authority.value), path);
  }

  /** The rule table; the check on the length of the result never fires. */
  method NormalizeByRules(verb: Bytes, target: Bytes, ipv6: Ipv6) returns (r: Result<NormalizedTarget>)
    ensures r == Normalize(verb, target, ipv6)
  {
    var fault := CheckedBoundary(target);
    if fault.Some? { return Err(fault.value); }
    var kind := if verb == "connect" then Connect else if verb == "options" then Options else Other;
    var syntax := ClassifySyntax(target);
    match (kind, syntax)
    case (Options, AsteriskSyntax) => return Ok(FixedTarget(Asterisk, None, "*"));
    case (_, AsteriskSyntax) => return Err(InvalidTarget(AsteriskMethod));
    case (Connect, Unclassified) =>
      var authority := CanonicalAuthority(target, true, ipv6);
      if authority.Err? { return Err(authority.error); }
      return Ok(FixedTarget(Authority, Some(authority.value), authority.value));
    case (Connect, _) => return Err(InvalidTarget(ConnectRequiresAuthority));
    case (_, OriginSyntax) =>
      LimitNeverFires(target);
      var path := CanonicalPathByRules(target);
      return PathTarget(Origin, None, None, path);
    case (_, AbsoluteSyntax(scheme, remainder)) =>
      r := NormalizeAbsoluteByRules(scheme, remainder, ipv6);
    case (_, Unclassified) => return Err(InvalidTarget(AuthorityMethod));
  }
}
