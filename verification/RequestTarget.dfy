/** Request-target normalisation: its meaning, the properties it promises, and the rule-table form. */
module RequestTarget {
  import opened Bytes
  import opened Decimals
  import opened DotSegments
  import opened Http
  import opened PercentEncoding

  const TARGET_MAX := 8192

  // ---------- authorities ----------

  predicate ForbiddenInAuthority(c: Byte) {
    c == '@' || c == '/' || c == '?' || c == '#' || c == '%' || c == '\\'
  }

  predicate DnsLabel(part: Bytes) {
    && 1 <= |part| <= 63 && part[0] != '-' && part[|part| - 1] != '-'
    && forall i :: 0 <= i < |part| ==> IsAlphanumeric(part[i]) || part[i] == '-'
  }

  predicate DnsName(host: Bytes) {
    && 1 <= |host| <= 253
    && forall part :: part in Split(host, '.') ==> DnsLabel(part)
  }

  /** A decimal port that fits 16 bits and is not zero. */
  function PortOf(text: Bytes): Result<nat> {
    if text == [] || !AllDigits(text) || Decimal(text) > 65535 || Decimal(text) == 0 then Err(InvalidAuthority)
    else Ok(Decimal(text))
  }

  function PortSuffix(suffix: Bytes, required: bool): Result<Option<nat>> {
    if suffix == [] then if required then Err(InvalidAuthority) else Ok(None)
    else if suffix[0] != ':' then Err(InvalidAuthority)
    else
      var port := PortOf(suffix[1..]);
      if port.Err? then Err(port.error) else Ok(Some(port.value))
  }

  function WithoutTrailingDot(host: Bytes): Bytes {
    if host != [] && host[|host| - 1] == '.' then host[..|host| - 1] else host
  }

  function Spelled(host: Bytes, port: Option<nat>): Bytes {
    if port.Some? then host + [':'] + Render(port.value) else host
  }

  function BracketedAuthority(afterBracket: Bytes, portRequired: bool, ipv6: Ipv6): Result<Bytes> {
    var close := IndexOf(afterBracket, ']');
    if close == |afterBracket| || '%' in afterBracket[..close] || !ipv6(afterBracket[..close]) then Err(InvalidAuthority)
    else
      var port := PortSuffix(afterBracket[close + 1..], portRequired);
      if port.Err? then Err(port.error)
      else Ok(Spelled(['['] + LowerAll(afterBracket[..close]) + [']'], port.value))
  }

  function DnsAuthority(value: Bytes, portRequired: bool): Result<Bytes> {
    var colon := IndexOf(value, ':');
    var host := WithoutTrailingDot(value[..colon]);
    if colon < |value| && ':' in value[colon + 1..] then Err(InvalidAuthority)
    else if !DnsName(host) then Err(InvalidAuthority)
    else
      var port := PortSuffix(value[colon..], portRequired);
      if port.Err? then Err(port.error) else Ok(Spelled(LowerAll(host), port.value))
  }

  function CanonicalAuthority(value: Bytes, portRequired: bool, ipv6: Ipv6): Result<Bytes> {
    if value == [] || (exists i :: 0 <= i < |value| && ForbiddenInAuthority(value[i])) then Err(InvalidAuthority)
    else if value[0] == '[' then BracketedAuthority(value[1..], portRequired, ipv6)
    else DnsAuthority(value, portRequired)
  }

  // ---------- the envelope and the syntax ----------

  predicate BadTargetByte(c: Byte) { c == '#' || c == '\\' || !IsVisible(c) }

  /** The first byte from `i` on that no target may contain. */
  function ByteFault(target: Bytes, i: nat): Option<Reason>
    requires i <= |target|
    decreases |target| - i
  {
    if i == |target| then None
    else if target[i] == '#' then Some(FragmentNotAllowed)
    else if target[i] == '\\' then Some(BackslashNotAllowed)
    else if !IsVisible(target[i]) then Some(InvalidTargetByte)
    else ByteFault(target, i + 1)
  }

  function EnvelopeFault(target: Bytes): Option<PolyguardError> {
    if |target| > TARGET_MAX then Some(LimitExceeded(TargetBytes, TARGET_MAX, |target|))
    else if target == [] then Some(InvalidTarget(EmptyTarget))
    else
      var fault := ByteFault(target, 0);
      if fault.Some? then Some(InvalidTarget(fault.value)) else None
  }

  lemma {:induction false} ByteFaultNone(target: Bytes, i: nat)
    requires i <= |target|
    ensures ByteFault(target, i).None? <==> forall k :: i <= k < |target| ==> !BadTargetByte(target[k])
    decreases |target| - i
  {
    if i < |target| { ByteFaultNone(target, i + 1); }
  }

  predicate StartsIgnoringCase(value: Bytes, prefix: Bytes) {
    |value| >= |prefix| && EqualIgnoringCase(value[..|prefix|], prefix)
  }

  datatype Syntax = AsteriskSyntax | OriginSyntax | AbsoluteSyntax(scheme: Bytes, remainder: Bytes) | Unclassified

  function ClassifySyntax(target: Bytes): Syntax {
    if target == "*" then AsteriskSyntax
    else if StartsWith(target, "/") then OriginSyntax
    else if StartsIgnoringCase(target, "http://") then AbsoluteSyntax("http", target[7..])
    else if StartsIgnoringCase(target, "https://") then AbsoluteSyntax("https", target[8..])
    else Unclassified
  }

  // ---------- paths and queries ----------

  datatype PathParts = PathParts(pathAndQuery: Bytes, routingPath: Bytes)

  /** The segments of a path after canonical percent-encoding. */
  function Segments(path: Bytes): (segments: seq<Bytes>)
    requires WellEscaped(path, 0) && path != [] && path[0] == '/'
    ensures segments != []
  {
    Split(CanonFrom(path, 1), '/')
  }

  /** The path below the root that all requests are routed by. */
  function RoutingPath(path: Bytes): Result<Bytes> {
    if path == [] || path[0] != '/' then Err(InvalidTarget(InvalidPath))
    else
      var fault := EncodingFault(path, 0, true);
      if fault.Some? then Err(InvalidTarget(fault.value))
      else
        FaultlessIsWellEscaped(path, 0, true);
        var kept := RemoveDots(Segments(path));
        if kept.None? then Err(InvalidTarget(PathTraversal)) else Ok(Rendered(kept.value))
  }

  function CanonicalQuery(query: Bytes): Result<Bytes> {
    var fault := EncodingFault(query, 0, false);
    if fault.Some? then Err(InvalidTarget(fault.value))
    else
      FaultlessIsWellEscaped(query, 0, false);
      Ok(Canon(query))
  }

  function CanonicalPath(input: Bytes): Result<PathParts> {
    var question := IndexOf(input, '?');
    var routing := RoutingPath(input[..question]);
    if routing.Err? then Err(routing.error)
    else if question == |input| then Ok(PathParts(routing.value, routing.value))
    else
      var query := CanonicalQuery(input[question + 1..]);
      if query.Err? then Err(query.error)
      else Ok(PathParts(routing.value + ['?'] + query.value, routing.value))
  }

  // ---------- whole targets ----------

  function AuthorityEnd(remainder: Bytes, i: nat): (end: nat)
    requires i <= |remainder|
    ensures i <= end <= |remainder|
    decreases |remainder| - i
  {
    if i == |remainder| || remainder[i] == '/' || remainder[i] == '?' then i else AuthorityEnd(remainder, i + 1)
  }

  /** The path of an absolute target; a missing one is the root. */
  function PathInput(suffix: Bytes): Bytes {
    if suffix == [] then "/" else if suffix[0] == '?' then ['/'] + suffix else suffix
  }

  function PathTarget(form: TargetForm, scheme: Option<Bytes>, authority: Option<Bytes>, path: Result<PathParts>): Result<NormalizedTarget> {
    if path.Err? then Err(path.error)
    else Ok(NormalizedTarget(form, scheme, authority, path.value.pathAndQuery, path.value.routingPath))
  }

  function NormalizeAbsolute(scheme: Bytes, remainder: Bytes, ipv6: Ipv6): Result<NormalizedTarget> {
    var end := AuthorityEnd(remainder, 0);
    var authority := CanonicalAuthority(remainder[..end], false, ipv6);
    if authority.Err? then Err(authority.error)
    else PathTarget(Absolute, Some(scheme), Some(authority.value), CanonicalPath(PathInput(remainder[end..])))
  }

  function FixedTarget(form: TargetForm, authority: Option<Bytes>, spelling: Bytes): NormalizedTarget {
    NormalizedTarget(form, None, authority, spelling, spelling)
  }

  /** What every form of the normaliser computes. */
  function Normalize(verb: Bytes, target: Bytes, ipv6: Ipv6): Result<NormalizedTarget> {
    var fault := EnvelopeFault(target);
    if fault.Some? then Err(fault.value)
    else
      match ClassifySyntax(target)
      case AsteriskSyntax =>
        if verb == "options" then Ok(FixedTarget(Asterisk, None, "*")) else Err(InvalidTarget(AsteriskMethod))
      case Unclassified =>
        if verb == "connect" then
          var authority := CanonicalAuthority(target, true, ipv6);
          if authority.Err? then Err(authority.error)
          else Ok(FixedTarget(Authority, Some(authority.value), authority.value))
        else Err(InvalidTarget(AuthorityMethod))
      case OriginSyntax =>
        if verb == "connect" then Err(InvalidTarget(ConnectRequiresAuthority))
        else PathTarget(Origin, None, None, CanonicalPath(target))
      case AbsoluteSyntax(scheme, remainder) =>
        if verb == "connect" then Err(InvalidTarget(ConnectRequiresAuthority))
        else NormalizeAbsolute(scheme, remainder, ipv6)
  }

  // ---------- the routing path is that of RFC 3986 ----------

  lemma CanonOfPath(path: Bytes)
    requires WellEscaped(path, 0) && path != [] && path[0] == '/'
    ensures Canon(path) == ['/'] + CanonFrom(path, 1)
    ensures Rendered(Segments(path)) == Canon(path) && NoSlashes(Segments(path))
  {
    JoinSplit(CanonFrom(path, 1), '/');
    JoinIsRendered(Segments(path));
    SplitHasNoSeparator(CanonFrom(path, 1), '/');
  }

  /** A path without encoding faults is accepted exactly when section 5.2.4 of RFC 3986 does not have to climb above
      the root of its percent-normalised spelling, and then the result is the one that algorithm gives. */
  lemma RoutingPathIsRfc(path: Bytes)
    requires path != [] && path[0] == '/' && EncodingFault(path, 0, true).None?
    ensures WellEscaped(path, 0)
    ensures var r := RemoveDotSegments(Canon(path), [], false);
      && (RoutingPath(path).Ok? <==> !r.clamped)
      && (RoutingPath(path).Ok? ==> RoutingPath(path).value == r.path)
  {
    FaultlessIsWellEscaped(path, 0, true);
    CanonOfPath(path);
    StackIsRfc(Segments(path));
  }

  // ---------- length ----------

  lemma RoutingPathIsShorter(path: Bytes)
    requires RoutingPath(path).Ok?
    ensures 1 <= |RoutingPath(path).value| <= |path|
  {
    FaultlessIsWellEscaped(path, 0, true);
    var segments := Segments(path);
    CanonOfPath(path);
    KeptIsShorter(segments, |segments|);
    assert segments[..|segments|] == segments;
  }

  /** Normalising never lengthens a path with its query. */
  lemma NeverLonger(input: Bytes)
    requires CanonicalPath(input).Ok?
    ensures |CanonicalPath(input).value.pathAndQuery| <= |input|
  {
    RoutingPathIsShorter(input[..IndexOf(input, '?')]);
  }

  /** The limit on the normalised spelling, which follows the limit on the raw one. */
  function Limited(path: Result<PathParts>): Result<PathParts> {
    if path.Ok? && |path.value.pathAndQuery| > TARGET_MAX
    then Err(LimitExceeded(TargetBytes, TARGET_MAX, |path.value.pathAndQuery|))
    else path
  }

  lemma LimitNeverFires(input: Bytes)
    requires |input| <= TARGET_MAX
    ensures Limited(CanonicalPath(input)) == CanonicalPath(input)
  {
    if CanonicalPath(input).Ok? { NeverLonger(input); }
  }

  // ---------- normalising again ----------

  /** A path piece that is acceptable and canonical already. */
  ghost predicate Clean(s: Bytes) {
    EncodingFault(s, 0, true).None? && WellEscaped(s, 0) && Canon(s) == s
  }

  lemma CleanAround(a: Bytes, b: Bytes)
    ensures Clean(a + ['/'] + b) <==> Clean(a) && Clean(b)
  {
    AroundSlash(a, b);
    if Clean(a + ['/'] + b) {
      var whole := a + ['/'] + b;
      assert |Canon(a)| == |a| && |Canon(b)| == |b|;
      assert whole[..|a|] == a && whole[|a| + 1..] == b;
      assert whole == Canon(a) + ['/'] + Canon(b);
      assert whole[..|a|] == Canon(a) && whole[|a| + 1..] == Canon(b);
    }
  }

  lemma {:induction false} CleanPieces(parts: seq<Bytes>)
    ensures Clean(Rendered(parts)) <==> forall part :: part in parts ==> Clean(part)
  {
    if parts != [] {
      var init, last := parts[..|parts| - 1], parts[|parts| - 1];
      assert parts == init + [last];
      CleanPieces(init);
      CleanAround(Rendered(init), last);
    }
  }

  /** The segments left by dot removal are clean, have no slashes and no dots. */
  lemma KeptIsClean(path: Bytes)
    requires RoutingPath(path).Ok?
    ensures EncodingFault(path, 0, true).None? && WellEscaped(path, 0)
    ensures RemoveDots(Segments(path)).Some?
    ensures var kept := RemoveDots(Segments(path)).value;
      && kept != [] && RoutingPath(path).value == Rendered(kept)
      && Clean(Rendered(kept)) && NoSlashes(kept) && RemoveDots(kept) == Some(kept)
  {
    FaultlessIsWellEscaped(path, 0, true);
    var segments := Segments(path);
    CanonOfPath(path);
    CanonIsCanonical(path, 0, true);
    CleanPieces(segments);
    KeptHasNoDots(segments, |segments|);
    RemoveDotsIdempotent(segments);
    var kept := RemoveDots(segments).value;
    forall part | part in kept ensures Clean(part) {
      if part == [] { assert WellEscaped(part, 0); }
    }
    CleanPieces(kept);
  }

  lemma RenderedSegments(kept: seq<Bytes>)
    requires kept != [] && Clean(Rendered(kept)) && NoSlashes(kept)
    ensures Rendered(kept)[0] == '/' && Segments(Rendered(kept)) == kept
  {
    var path := Rendered(kept);
    JoinIsRendered(kept);
    assert path[0] == '/';
    assert CanonFrom(path, 1) == Join(kept, '/') by {
      assert Canon(path) == ['/'] + CanonFrom(path, 1);
      assert Canon(path)[1..] == CanonFrom(path, 1) && path[1..] == Join(kept, '/');
    }
    SplitJoin(kept, '/');
  }

  /** A routing path is its own routing path. */
  lemma RoutingPathAgain(path: Bytes)
    requires RoutingPath(path).Ok?
    ensures RoutingPath(RoutingPath(path).value) == RoutingPath(path)
  {
    KeptIsClean(path);
    RenderedSegments(RemoveDots(Segments(path)).value);
  }

  lemma RoutingPathBytes(path: Bytes, c: Byte)
    requires RoutingPath(path).Ok? && c !in path && !IsUnreserved(c)
    ensures c !in RoutingPath(path).value
  {
    KeptIsClean(path);
    CanonKeepsOut(path, c);
    CanonOfPath(path);
    var segments := Segments(path);
    KeptHasNoDots(segments, |segments|);
    assert '/' in path;
    InRendered(segments, c);
    InRendered(RemoveDots(segments).value, c);
  }

  lemma {:induction false} InRendered(parts: seq<Bytes>, c: Byte)
    requires c != '/'
    ensures c in Rendered(parts) <==> exists part :: part in parts && c in part
  {
    if parts != [] {
      var init, last := parts[..|parts| - 1], parts[|parts| - 1];
      assert parts == init + [last];
      InRendered(init, c);
    }
  }

  lemma CanonicalQueryAgain(query: Bytes)
    requires CanonicalQuery(query).Ok?
    ensures CanonicalQuery(CanonicalQuery(query).value) == CanonicalQuery(query)
  {
    FaultlessIsWellEscaped(query, 0, false);
    CanonIsCanonical(query, 0, false);
  }

  /** Normalising a normalised path and query changes nothing. */
  lemma CanonicalPathAgain(input: Bytes)
    requires CanonicalPath(input).Ok?
    ensures CanonicalPath(CanonicalPath(input).value.pathAndQuery) == CanonicalPath(input)
  {
    var question := IndexOf(input, '?');
    IndexOfFirst(input, '?');
    var path := input[..question];
    var routing := RoutingPath(path).value;
    RoutingPathBytes(path, '?');
    RoutingPathAgain(path);
    if question == |input| {
      IndexOfUnique(routing, '?', |routing|);
      assert routing[..|routing|] == routing;
    } else {
      var query := CanonicalQuery(input[question + 1..]).value;
      CanonicalQueryAgain(input[question + 1..]);
      var output := routing + ['?'] + query;
      IndexOfUnique(output, '?', |routing|);
      assert output[..|routing|] == routing && output[|routing| + 1..] == query;
    }
  }

  /** Bytes that no target may contain do not appear in the result either. */
  lemma CanonicalPathBytes(input: Bytes, c: Byte)
    requires CanonicalPath(input).Ok? && BadTargetByte(c) && c !in input
    ensures c !in CanonicalPath(input).value.pathAndQuery
  {
    var question := IndexOf(input, '?');
    IndexOfFirst(input, '?');
    RoutingPathBytes(input[..question], c);
    if question < |input| {
      var query := input[question + 1..];
      FaultlessIsWellEscaped(query, 0, false);
      CanonKeepsOut(query, c);
    }
  }

  lemma PathInputBounds(target: Bytes, skip: nat, end: nat)
    requires EnvelopeFault(target).None? && 1 <= skip <= end <= |target|
    ensures |PathInput(target[end..])| <= TARGET_MAX
    ensures EnvelopeFault(PathInput(target[end..])).None?
  {
    ByteFaultNone(target, 0);
    var suffix, input := target[end..], PathInput(target[end..]);
    forall k | 0 <= k < |input| ensures !BadTargetByte(input[k]) {
      if suffix != [] {
        var j := if suffix[0] == '?' then k - 1 else k;
        assert j >= 0 ==> input[k] == target[end + j];
      }
    }
    ByteFaultNone(input, 0);
  }

  lemma PathOfAbsolute(target: Bytes, scheme: Bytes, skip: nat, ipv6: Ipv6) returns (input: Bytes)
    requires EnvelopeFault(target).None? && 1 <= skip <= |target| && NormalizeAbsolute(scheme, target[skip..], ipv6).Ok?
    ensures var r := NormalizeAbsolute(scheme, target[skip..], ipv6).value;
      EnvelopeFault(input).None? && CanonicalPath(input) == Ok(PathParts(r.pathAndQuery, r.routingPath))
  {
    hide EnvelopeFault;
    hide CanonicalPath;
    hide CanonicalAuthority;
    hide PathInput;
    var remainder := target[skip..];
    var end := AuthorityEnd(remainder, 0);
    hide AuthorityEnd;
    input := PathInput(remainder[end..]);
    assert remainder[end..] == target[skip + end..];
    PathInputBounds(target, skip, skip + end);
    var path := CanonicalPath(input);
    assert path.Ok? && path == Ok(PathParts(path.value.pathAndQuery, path.value.routingPath));
  }

  /** The path input of an accepted path target. */
  lemma PathOfTarget(verb: Bytes, target: Bytes, ipv6: Ipv6) returns (input: Bytes)
    requires Normalize(verb, target, ipv6).Ok?
    requires Normalize(verb, target, ipv6).value.form.Origin? || Normalize(verb, target, ipv6).value.form.Absolute?
    ensures EnvelopeFault(input).None? && verb != "connect"
    ensures CanonicalPath(input) == Ok(PathParts(Normalize(verb, target, ipv6).value.pathAndQuery,
                                                 Normalize(verb, target, ipv6).value.routingPath))
  {
    match ClassifySyntax(target)
    case AbsoluteSyntax(scheme, remainder) =>
      input := PathOfAbsolute(target, scheme, |target| - |remainder|, ipv6);
    case _ =>
      input := target;
  }

  /** A normalised path and query is within the limits and the bytes of a target, and begins with a slash. */
  lemma NormalizedBytes(input: Bytes)
    requires EnvelopeFault(input).None? && CanonicalPath(input).Ok?
    ensures EnvelopeFault(CanonicalPath(input).value.pathAndQuery).None?
    ensures CanonicalPath(input).value.pathAndQuery[0] == '/'
  {
    var output := CanonicalPath(input).value.pathAndQuery;
    var path := input[..IndexOf(input, '?')];
    ByteFaultNone(input, 0);
    NeverLonger(input);
    RoutingPathIsShorter(path);
    forall k | 0 <= k < |output| ensures !BadTargetByte(output[k]) {
      if BadTargetByte(output[k]) { CanonicalPathBytes(input, output[k]); }
    }
    ByteFaultNone(output, 0);
    KeptIsClean(path);
    RenderedSegments(RemoveDots(Segments(path)).value);
  }

  /** A normalised path target, sent again as an origin target, comes back unchanged, within the limits that applied
      to the raw target. */
  lemma NormalizeAgain(verb: Bytes, target: Bytes, ipv6: Ipv6)
    requires Normalize(verb, target, ipv6).Ok?
    requires Normalize(verb, target, ipv6).value.form.Origin? || Normalize(verb, target, ipv6).value.form.Absolute?
    ensures var first := Normalize(verb, target, ipv6).value;
      Normalize(verb, first.pathAndQuery, ipv6) ==
        Ok(NormalizedTarget(Origin, None, None, first.pathAndQuery, first.routingPath))
  {
    var input := PathOfTarget(verb, target, ipv6);
    NormalizedBytes(input);
    CanonicalPathAgain(input);
  }
}
