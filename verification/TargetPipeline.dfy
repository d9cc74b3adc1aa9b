/** Target normalisation that validates everything first and then transforms what it validated. */
module TargetPipeline {
  import opened Bytes
  import opened DotSegments
  import opened Http
  import opened PercentEncoding
  import opened RequestTarget
  import opened TargetRules

  datatype PercentToken = Literal(byte: Byte) | Encoded(byte: Byte)

  /** The canonical spelling of one token. */
  function Spell(token: PercentToken): Bytes {
    if token.Literal? then [token.byte] else SpellOctet(token.byte)
  }

  function DecodedUnreserved(token: PercentToken): Byte {
    if token.Literal? || IsUnreserved(token.byte) then token.byte else '%'
  }

  /** Reading off the front of validated text. */
  class PercentTokens {
    var remaining: Bytes

    constructor (value: Bytes)
      ensures remaining == value
    {
      remaining := value;
    }

    method Next() returns (token: Option<PercentToken>)
      requires WellEscaped(remaining, 0)
      modifies this
      ensures WellEscaped(remaining, 0)
      ensures token.None? <==> old(remaining) == []
      ensures token.None? ==> remaining == []
      ensures token.Some? ==>
        && |remaining| < |old(remaining)|
        && Canon(old(remaining)) == Spell(token.value) + Canon(remaining)
    {
      if remaining == [] { return None; }
      var text := remaining;
      if text[0] == '%' {
        var tail := text[1..];
        var value := Octet(tail[0], tail[1]);
        AfterPrefix(text, 3);
        remaining := tail[2..];
        assert remaining == text[3..];
        return Some(Encoded(value));
      } else {
        AfterPrefix(text, 1);
        remaining := text[1..];
        return Some(Literal(text[0]));
      }
    }
  }

  lemma AfterPrefix(text: Bytes, n: nat)
    requires n <= |text| && WellEscaped(text, n)
    ensures WellEscaped(text[n..], 0) && Canon(text[n..]) == CanonFrom(text, n)
  {
    assert text == text[..n] + text[n..];
    InSuffix(text[..n], text[n..], 0, true);
  }

  method CanonicalComponent(value: Bytes) returns (output: Bytes)
    requires WellEscaped(value, 0)
    ensures output == Canon(value)
  {
    var tokens := new PercentTokens(value);
    output := [];
    while true
      invariant WellEscaped(tokens.remaining, 0)
      invariant output + Canon(tokens.remaining) == Canon(value)
      decreases |tokens.remaining|
    {
      ghost var before := output;
      var token := tokens.Next();
      if token.None? { break; }
      match token.value
      case Literal(byte) => output := output + [byte];
      case Encoded(byte) =>
        if IsUnreserved(byte) {
          output := output + [byte];
        } else {
          output := output + ['%', HexDigit(byte as int / 16), HexDigit(byte as int % 16)];
        }
      ConcatAssociates(before, Spell(token.value), Canon(tokens.remaining));
    }
    assert output + [] == output;
  }

  lemma SpellIsDot(token: PercentToken, rest: Bytes)
    ensures |Spell(token)| >= 1 && Spell(token)[0] == DecodedUnreserved(token)
    ensures Spell(token) + rest == DOT <==> DecodedUnreserved(token) == '.' && rest == []
  {
    if DecodedUnreserved(token) == '.' { assert Spell(token) == DOT; }
    if Spell(token) + rest == DOT { assert (Spell(token) + rest)[0] == '.'; }
  }

  lemma SpellIsDots(first: PercentToken, second: PercentToken, rest: Bytes)
    ensures Spell(first) + (Spell(second) + rest) == DOTS <==>
            DecodedUnreserved(first) == '.' && DecodedUnreserved(second) == '.' && rest == []
  {
    SpellIsDot(first, []);
    SpellIsDot(second, []);
    var text := Spell(first) + (Spell(second) + rest);
    if DecodedUnreserved(first) == '.' && DecodedUnreserved(second) == '.' {
      assert Spell(first) == DOT && Spell(second) == DOT;
      assert text == DOTS + rest;
    }
    if text == DOTS {
      assert text[0] == '.' && Spell(first) == DOT;
      assert text[1] == Spell(second)[0];
      assert Spell(second) == DOT;
    }
  }

  /** Three tokens are enough to tell a dot segment. */
  method DecodedDotKind(segment: Bytes) returns (kind: Option<nat>)
    requires WellEscaped(segment, 0)
    ensures kind == if DotKind(Canon(segment)) == 0 then None else Some(DotKind(Canon(segment)))
  {
    var tokens := new PercentTokens(segment);
    var first := tokens.Next();
    ghost var afterFirst := Canon(tokens.remaining);
    var second := tokens.Next();
    ghost var afterSecond := Canon(tokens.remaining);
    var third := tokens.Next();
    if first.None? { return None; }
    SpellIsDot(first.value, afterFirst);
    if second.None? {
      assert afterFirst == [];
      if DecodedUnreserved(first.value) == '.' { return Some(1); }
      assert |Spell(first.value)| == 1 || |Spell(first.value)| == 3;
      return None;
    }
    SpellIsDot(second.value, afterSecond);
    SpellIsDots(first.value, second.value, afterSecond);
    if third.None? {
      assert afterSecond == [];
      if DecodedUnreserved(first.value) == '.' && DecodedUnreserved(second.value) == '.' { return Some(2); }
    } else {
      SpellIsDot(third.value, Canon(tokens.remaining));
    }
    return None;
  }

  method ValidatePercentEncoding(value: Bytes, rejectSeparators: bool) returns (fault: Option<PolyguardError>)
    ensures fault ==
      var reason := EncodingFault(value, 0, rejectSeparators);
      if reason.Some? then Some(InvalidTarget(reason.value)) else None
  {
    var remaining := value;
    ghost var done := 0;
    while remaining != []
      invariant done <= |value| && remaining == value[done..]
      invariant EncodingFault(value, done, rejectSeparators) == EncodingFault(value, 0, rejectSeparators)
      decreases |remaining|
    {
      var byte, tail := remaining[0], remaining[1..];
      if byte != '%' {
        remaining := tail;
        done := done + 1;
        continue;
      }
      if |tail| < 2 || !IsHexDigit(tail[0]) || !IsHexDigit(tail[1]) {
        return Some(InvalidTarget(InvalidPercentEncoding));
      }
      var decoded := Octet(tail[0], tail[1]);
      if rejectSeparators && (decoded == '/' || decoded == '\\') { return Some(InvalidTarget(EncodedSeparator)); }
      if IsControl(decoded) { return Some(InvalidTarget(EncodedControl)); }
      remaining := tail[2..];
      done := done + 3;
    }
    return None;
  }

  // ---------- segments of the raw path ----------

  /** Canonicalising each raw segment gives the segments of the canonical path. */
  lemma RawSegments(path: Bytes)
    requires WellEscaped(path, 0) && path != [] && path[0] == '/'
    ensures WellEscaped(path[1..], 0)
    ensures forall part :: part in Split(path[1..], '/') ==> WellEscaped(part, 0)
    ensures Segments(path) == CanonEach(Split(path[1..], '/'))
  {
    AfterPrefix(path, 1);
    CanonDistributes(path[1..]);
  }

  lemma RawSegmentAt(path: Bytes, index: nat)
    requires WellEscaped(path, 0) && path != [] && path[0] == '/' && index < |Split(path[1..], '/')|
    ensures |Segments(path)| == |Split(path[1..], '/')|
    ensures WellEscaped(Split(path[1..], '/')[index], 0)
    ensures Canon(Split(path[1..], '/')[index]) == Segments(path)[index]
  {
    RawSegments(path);
    var parts := Split(path[1..], '/');
    assert parts[index] in parts;
    CanonEachAt(parts, index);
  }

  lemma NextIsKept(segments: seq<Bytes>, index: nat)
    requires index < |segments| && RemoveDots(segments).Some?
    ensures Kept(segments, index + 1).Some?
  {
    if Kept(segments, index + 1).None? { KeptStaysNone(segments, index + 1); }
  }

  method ValidateNoRootEscape(path: Bytes) returns (escapes: bool)
    requires WellEscaped(path, 0) && path != [] && path[0] == '/'
    ensures escapes == RemoveDots(Segments(path)).None?
  {
    var parts := Split(path[1..], '/');
    ghost var segments := Segments(path);
    RawSegmentAt(path, 0);
    assert RemoveDots(segments).None? <==> Depth(segments, |segments|).None? by { DepthIsHeight(segments, |segments|); }
    var depth := 0;
    for index := 0 to |parts|
      invariant Depth(segments, index) == Some(depth)
    {
      RawSegmentAt(path, index);
      var kind := DecodedDotKind(parts[index]);
      if kind == Some(1) {
      } else if kind == Some(2) {
        if depth == 0 {
          DepthStaysNone(segments, index + 1);
          return true;
        }
        depth := depth - 1;
      } else {
        depth := depth + 1;
      }
    }
    return false;
  }

  /** The transformation that relies on the validation: popping needs no check. */
  method CanonicalSegments(path: Bytes) returns (routing: Bytes)
    requires WellEscaped(path, 0) && path != [] && path[0] == '/' && RemoveDots(Segments(path)).Some?
    ensures routing == Rendered(RemoveDots(Segments(path)).value)
  {
    var parts := Split(path[1..], '/');
    ghost var segments := Segments(path);
    RawSegmentAt(path, 0);
    var lastIndex := |parts| - 1;
    var kept: seq<Bytes> := [];
    for index := 0 to |parts|
      invariant Kept(segments, index) == Some(kept)
    {
      RawSegmentAt(path, index);
      NextIsKept(segments, index);
      var segment := CanonicalComponent(parts[index]);
      if segment == "." {
        if index == lastIndex { kept := kept + [[]]; }
      } else if segment == ".." {
        kept := kept[..|kept| - 1];
        if index == lastIndex { kept := kept + [[]]; }
      } else {
        kept := kept + [segment];
      }
    }
    JoinIsRendered(kept);
    return ['/'] + Join(kept, '/');
  }

  // ---------- the plan ----------

  datatype ValidatedPath = ValidatedPath(path: Option<Bytes>, query: Option<Bytes>)

  /** The text a validated path was taken from. */
  function Input(plan: ValidatedPath): Bytes {
    (if plan.path.Some? then plan.path.value else "/") + (if plan.query.Some? then ['?'] + plan.query.value else [])
  }

  predicate Parts(plan: ValidatedPath) { plan.path.Some? ==> '?' !in plan.path.value }

  lemma InputParts(plan: ValidatedPath)
    requires Parts(plan)
    ensures var input, question := Input(plan), IndexOf(Input(plan), '?');
      && input[..question] == (if plan.path.Some? then plan.path.value else "/")
      && (plan.query.None? ==> question == |input|)
      && (plan.query.Some? ==> question < |input| && input[question + 1..] == plan.query.value)
  {
    var path: Bytes := if plan.path.Some? then plan.path.value else "/";
    IndexOfUnique(Input(plan), '?', |path|);
  }

  lemma RootPath()
    ensures RoutingPath("/") == Ok("/")
    ensures WellEscaped("/", 0) && RemoveDots(Segments("/")).Some?
  {
    var root: Bytes, segments: seq<Bytes> := "/", [[]];
    assert EncodingFault(root, 0, true).None? by { assert EncodingFault(root, 1, true).None?; }
    FaultlessIsWellEscaped(root, 0, true);
    assert Segments(root) == segments by {
      assert CanonFrom(root, 1) == [];
      SplitLast([], '/');
    }
    assert RemoveDots(segments) == Some(segments) by {
      NoDotsIsKept(segments, 1);
      assert segments[..1] == segments;
    }
    assert Rendered(segments) == root by { JoinIsRendered(segments); }
  }

  method ValidatePathParts(plan: ValidatedPath) returns (fault: Option<PolyguardError>)
    requires Parts(plan)
    ensures fault.Some? <==> CanonicalPath(Input(plan)).Err?
    ensures fault.Some? ==> CanonicalPath(Input(plan)) == Err(fault.value)
  {
    InputParts(plan);
    RootPath();
    if plan.path.Some? {
      var path := plan.path.value;
      if path == [] || path[0] != '/' { return Some(InvalidTarget(InvalidPath)); }
      fault := ValidatePercentEncoding(path, true);
      if fault.Some? { return; }
      FaultlessIsWellEscaped(path, 0, true);
      var escapes := ValidateNoRootEscape(path);
      if escapes { return Some(InvalidTarget(PathTraversal)); }
    }
    if plan.query.Some? {
      fault := ValidatePercentEncoding(plan.query.value, false);
      if fault.Some? { return; }
    }
    return None;
  }

  /** What is known of the parts of an accepted path. */
  lemma AcceptedParts(plan: ValidatedPath)
    requires Parts(plan) && CanonicalPath(Input(plan)).Ok?
    ensures var path: Bytes := if plan.path.Some? then plan.path.value else "/";
      && path != [] && path[0] == '/' && WellEscaped(path, 0) && RemoveDots(Segments(path)).Some?
      && (plan.query.Some? ==> WellEscaped(plan.query.value, 0))
      && var routing := Rendered(RemoveDots(Segments(path)).value);
         CanonicalPath(Input(plan)) ==
           Ok(PathParts(if plan.query.None? then routing else routing + ['?'] + Canon(plan.query.value), routing))
  {
    InputParts(plan);
    RootPath();
    var path: Bytes := if plan.path.Some? then plan.path.value else "/";
    FaultlessIsWellEscaped(path, 0, true);
    if plan.query.Some? { FaultlessIsWellEscaped(plan.query.value, 0, false); }
  }

  method TransformPath(plan: ValidatedPath) returns (parts: PathParts)
    requires Parts(plan) && CanonicalPath(Input(plan)).Ok?
    ensures CanonicalPath(Input(plan)) == Ok(parts)
  {
    AcceptedParts(plan);
    var routing := CanonicalSegments(if plan.path.Some? then plan.path.value else "/");
    if plan.query.None? { return PathParts(routing, routing); }
    var query := CanonicalComponent(plan.query.value);
    return PathParts(routing + ['?'] + query, routing);
  }

  method SplitPath(value: Bytes) returns (plan: ValidatedPath)
    ensures Parts(plan) && Input(plan) == value
  {
    var question := IndexOf(value, '?');
    IndexOfFirst(value, '?');
    if question == |value| {
      assert Input(ValidatedPath(Some(value), None)) == value + [];
      return ValidatedPath(Some(value), None);
    }
    assert value == value[..question] + (['?'] + value[question + 1..]);
    return ValidatedPath(Some(value[..question]), Some(value[question + 1..]));
  }

  datatype ValidatedTarget =
    | AsteriskPlan
    | AuthorityPlan(authority: Bytes)
    | OriginPlan(path: ValidatedPath)
    | AbsolutePlan(scheme: Bytes, host: Bytes, path: ValidatedPath)

  /** What a plan will become. */
  ghost predicate PlanFor(plan: ValidatedTarget, target: Result<NormalizedTarget>) {
    match plan
    case AsteriskPlan => target == Ok(FixedTarget(Asterisk, None, "*"))
    case AuthorityPlan(authority) => target == Ok(FixedTarget(Authority, Some(authority), authority))
    case OriginPlan(path) =>
      && Parts(path) && CanonicalPath(Input(path)).Ok?
      && target == PathTarget(Origin, None, None, CanonicalPath(Input(path)))
    case AbsolutePlan(scheme, host, path) =>
      && Parts(path) && CanonicalPath(Input(path)).Ok?
      && target == PathTarget(Absolute, Some(scheme), Some(host), CanonicalPath(Input(path)))
  }

  method ValidateAbsolute(scheme: Bytes, remainder: Bytes, ipv6: Ipv6) returns (plan: Result<ValidatedTarget>)
    ensures plan.Err? ==> NormalizeAbsolute(scheme, remainder, ipv6) == Err(plan.error)
    ensures plan.Ok? ==> PlanFor(plan.value, NormalizeAbsolute(scheme, remainder, ipv6))
  {
    var end := AuthorityEnd(remainder, 0);
    var authority := CanonicalAuthority(remainder[..end], false, ipv6);
    if authority.Err? { return Err(authority.error); }
    var suffix := remainder[end..];
    var path: ValidatedPath;
    if suffix == [] {
      path := ValidatedPath(None, None);
      assert Input(path) == PathInput(suffix);
    } else if suffix[0] == '?' {
      path := ValidatedPath(None, Some(suffix[1..]));
      assert Input(path) == "/" + (['?'] + suffix[1..]) && suffix == ['?'] + suffix[1..];
    } else {
      path := SplitPath(suffix);
    }
    assert Input(path) == PathInput(suffix);
    var fault := ValidatePathParts(path);
    if fault.Some? { return Err(fault.value); }
    return Ok(AbsolutePlan(scheme, authority.value, path));
  }

  method ValidatedPlan(verb: Bytes, target: Bytes, ipv6: Ipv6) returns (plan: Result<ValidatedTarget>)
    ensures plan.Err? ==> Normalize(verb, target, ipv6) == Err(plan.error)
    ensures plan.Ok? ==> PlanFor(plan.value, Normalize(verb, target, ipv6))
  {
    var fault := CheckedBoundary(target);
    if fault.Some? { return Err(fault.value); }
    if target == "*" {
      if verb == "options" { return Ok(AsteriskPlan); }
      return Err(InvalidTarget(AsteriskMethod));
    }
    var syntax := ClassifySyntax(target);
    if verb == "connect" {
      if StartsWith(target, "/") || syntax.AbsoluteSyntax? { return Err(InvalidTarget(ConnectRequiresAuthority)); }
      var authority := CanonicalAuthority(target, true, ipv6);
      if authority.Err? { return Err(authority.error); }
      return Ok(AuthorityPlan(authority.value));
    }
    if StartsWith(target, "/") {
      var path := SplitPath(target);
      var pathFault := ValidatePathParts(path);
      if pathFault.Some? { return Err(pathFault.value); }
      return Ok(OriginPlan(path));
    }
    if !syntax.AbsoluteSyntax? { return Err(InvalidTarget(AuthorityMethod)); }
    plan := ValidateAbsolute(syntax.scheme, syntax.remainder, ipv6);
  }

  method Materialize(plan: ValidatedTarget, ghost target: Result<NormalizedTarget>) returns (r: NormalizedTarget)
    requires PlanFor(plan, target)
    ensures target == Ok(r)
  {
    match plan
    case AsteriskPlan => return FixedTarget(Asterisk, None, "*");
    case AuthorityPlan(authority) => return FixedTarget(Authority, Some(authority), authority);
    case OriginPlan(path) =>
      var parts := TransformPath(path);
      return NormalizedTarget(Origin, None, None, parts.pathAndQuery, parts.routingPath);
    case AbsolutePlan(scheme, host, path) =>
      var parts := TransformPath(path);
      return NormalizedTarget(Absolute, Some(scheme), Some(host), parts.pathAndQuery, parts.routingPath);
  }

  /** Validate and then transform: the same results and the same errors as the rule table, without a limit check on
      the result. */
  method NormalizeByPipeline(verb: Bytes, target: Bytes, ipv6: Ipv6) returns (r: Result<NormalizedTarget>)
    ensures r == Normalize(verb, target, ipv6)
  {
    var plan := ValidatedPlan(verb, target, ipv6);
    if plan.Err? { return Err(plan.error); }
    var normalized := Materialize(plan.value, Normalize(verb, target, ipv6));
    return Ok(normalized);
  }
}
