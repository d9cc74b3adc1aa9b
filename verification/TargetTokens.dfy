/** Target normalisation composed of validators over a stream of component tokens. */
module TargetTokens {
  import opened Bytes
  import opened DotSegments
  import opened Http
  import opened PercentEncoding
  import opened RequestTarget
  import opened TargetPipeline
  import opened TargetRules

  /** The token at `i` of well-escaped text. */
  function TokenAt(s: Bytes, i: nat): PercentToken
    requires i < |s| && WellEscaped(s, i)
  {
    if s[i] == '%' then Encoded(Octet(s[i + 1], s[i + 2])) else Literal(s[i])
  }

  function After(s: Bytes, i: nat): (j: nat)
    requires i < |s| && WellEscaped(s, i)
    ensures i < j <= |s| && WellEscaped(s, j)
    ensures CanonFrom(s, i) == Spell(TokenAt(s, i)) + CanonFrom(s, j)
  {
    if s[i] == '%' then i + 3 else i + 1
  }

  /** A token stream that reports a broken escape once and then ends. */
  class ComponentTokens {
    const bytes: Bytes
    var offset: nat

    constructor (value: Bytes)
      ensures bytes == value && offset == 0
    {
      bytes := value;
      offset := 0;
    }

    method Next() returns (token: Option<Result<PercentToken>>)
      requires offset <= |bytes|
      modifies this
      ensures offset <= |bytes|
      ensures old(offset) == |bytes| ==> token.None? && offset == |bytes|
      ensures old(offset) < |bytes| ==> token.Some? && offset > old(offset)
      ensures old(offset) < |bytes| && bytes[old(offset)] != '%' ==>
        token == Some(Ok(Literal(bytes[old(offset)]))) && offset == old(offset) + 1
      ensures EscapeAt(bytes, old(offset)) ==>
        token == Some(Ok(Encoded(Octet(bytes[old(offset) + 1], bytes[old(offset) + 2])))) && offset == old(offset) + 3
      ensures old(offset) < |bytes| && bytes[old(offset)] == '%' && !EscapeAt(bytes, old(offset)) ==>
        token == Some(Err(InvalidTarget(InvalidPercentEncoding))) && offset == |bytes|
      ensures old(offset) < |bytes| && WellEscaped(bytes, old(offset)) ==>
        token == Some(Ok(TokenAt(bytes, old(offset)))) && offset == After(bytes, old(offset))
    {
      if offset == |bytes| { return None; }
      var byte := bytes[offset];
      if byte != '%' {
        offset := offset + 1;
        return Some(Ok(Literal(byte)));
      }
      if offset + 3 <= |bytes| && IsHexDigit(bytes[offset + 1]) && IsHexDigit(bytes[offset + 2]) {
        var value := Octet(bytes[offset + 1], bytes[offset + 2]);
        offset := offset + 3;
        return Some(Ok(Encoded(value)));
      }
      offset := |bytes|;
      return Some(Err(InvalidTarget(InvalidPercentEncoding)));
    }
  }

  method ValidateComponent(value: Bytes, inPath: bool) returns (fault: Option<PolyguardError>)
    ensures fault ==
      var reason := EncodingFault(value, 0, inPath);
      if reason.Some? then Some(InvalidTarget(reason.value)) else None
  {
    var tokens := new ComponentTokens(value);
    while true
      invariant tokens.offset <= |value| && EncodingFault(value, tokens.offset, inPath) == EncodingFault(value, 0, inPath)
      decreases |value| - tokens.offset
    {
      var token := tokens.Next();
      match token
      case None => return None;
      case Some(Err(error)) => return Some(error);
      case Some(Ok(Encoded(byte))) =>
        if inPath && (byte == '/' || byte == '\\') { return Some(InvalidTarget(EncodedSeparator)); }
        if IsControl(byte) { return Some(InvalidTarget(EncodedControl)); }
      case Some(Ok(Literal(_))) =>
    }
  }

  /** An unreserved byte, written plainly or as an escape; nothing for any other escape. */
  function Plain(token: PercentToken): Option<Byte> {
    if token.Literal? || IsUnreserved(token.byte) then Some(token.byte) else None
  }

  lemma PlainIsDecoded(token: PercentToken)
    ensures Plain(token) == Some('.') <==> DecodedUnreserved(token) == '.'
  {
  }

  /** The kind of a segment shows in its first two tokens and in whether there are more. */
  lemma KindOfTokens(s: Bytes)
    requires WellEscaped(s, 0)
    ensures s == [] ==> DotKind(Canon(s)) == 0
    ensures s != [] ==>
      var (a, i) := (TokenAt(s, 0), After(s, 0));
      if i == |s| then DotKind(Canon(s)) == if Plain(a) == Some('.') then 1 else 0
      else
        var (b, j) := (TokenAt(s, i), After(s, i));
        DotKind(Canon(s)) == if Plain(a) == Some('.') && Plain(b) == Some('.') && j == |s| then 2 else 0
  {
    if s != [] {
      var a, i := TokenAt(s, 0), After(s, 0);
      PlainIsDecoded(a);
      SpellIsDot(a, CanonFrom(s, i));
      if i == |s| {
        NotDots(a);
      } else {
        var b, j := TokenAt(s, i), After(s, i);
        PlainIsDecoded(b);
        SpellIsDot(b, CanonFrom(s, j));
        SpellIsDots(a, b, CanonFrom(s, j));
        if j < |s| { SpellIsDot(TokenAt(s, j), CanonFrom(s, After(s, j))); }
      }
    }
  }

  lemma NotDots(token: PercentToken)
    ensures Spell(token) + [] != DOTS
  {
  }

  method DotSegment(segment: Bytes) returns (kind: Result<nat>)
    ensures WellEscaped(segment, 0) ==> kind == Ok(DotKind(Canon(segment)))
  {
    if WellEscaped(segment, 0) { KindOfTokens(segment); }
    var tokens := new ComponentTokens(segment);
    var first := tokens.Next();
    if first.Some? && first.value.Err? { return Err(first.value.error); }
    var second := tokens.Next();
    if second.Some? && second.value.Err? { return Err(second.value.error); }
    var third := tokens.Next();
    if first.Some? && Plain(first.value.value) == Some('.') {
      if second.None? && third.None? { return Ok(1); }
      if second.Some? && Plain(second.value.value) == Some('.') && third.None? { return Ok(2); }
    }
    return Ok(0);
  }

  method ValidateRootBoundary(path: Bytes) returns (fault: Option<PolyguardError>)
    requires WellEscaped(path, 0) && path != [] && path[0] == '/'
    ensures fault == if RemoveDots(Segments(path)).None? then Some(InvalidTarget(PathTraversal)) else None
  {
    var parts := Split(path[1..], '/');
    ghost var segments := Segments(path);
    RawSegmentAt(path, 0);
    assert RemoveDots(segments).None? <==> Depth(segments, |segments|).None? by { DepthIsHeight(segments, |segments|); }
    var depth := 0;
    for index := 0 to |parts|
      invariant Depth(segments, index) == Some(depth)
    {
      RawSegmentAt(path, index);
      var dots := DotSegment(parts[index]);
      match dots
      case Err(error) => return Some(error);
      case Ok(kind) =>
        if kind == 1 {
        } else if kind == 2 {
          if depth == 0 {
            DepthStaysNone(segments, index + 1);
            return Some(InvalidTarget(PathTraversal));
          }
          depth := depth - 1;
        } else {
          depth := depth + 1;
        }
    }
    return None;
  }

  method RenderComponentInto(output: Bytes, value: Bytes) returns (rendered: Bytes)
    requires WellEscaped(value, 0)
    ensures rendered == output + Canon(value)
  {
    rendered := output;
    var tokens := new ComponentTokens(value);
    while true
      invariant tokens.offset <= |value| && WellEscaped(value, tokens.offset)
      invariant rendered + CanonFrom(value, tokens.offset) == output + Canon(value)
      decreases |value| - tokens.offset
    {
      ghost var before := rendered;
      var token := tokens.Next();
      if token.None? { break; }
      match token.value.value
      case Literal(byte) => rendered := rendered + [byte];
      case Encoded(byte) =>
        if IsUnreserved(byte) {
          rendered := rendered + [byte];
        } else {
          rendered := rendered + ['%', HexDigit(byte as int / 16), HexDigit(byte as int % 16)];
        }
      ConcatAssociates(before, Spell(token.value.value), CanonFrom(value, tokens.offset));
    }
    assert rendered + [] == rendered;
  }

  method RenderPath(path: Bytes) returns (routing: Bytes)
    requires WellEscaped(path, 0) && path != [] && path[0] == '/' && RemoveDots(Segments(path)).Some?
    ensures routing == Rendered(RemoveDots(Segments(path)).value)
  {
    var parts := Split(path[1..], '/');
    ghost var segments := Segments(path);
    RawSegmentAt(path, 0);
    var last := |parts| - 1;
    var output: seq<Bytes> := [];
    for index := 0 to |parts|
      invariant Kept(segments, index) == Some(output)
    {
      RawSegmentAt(path, index);
      NextIsKept(segments, index);
      var segment := RenderComponentInto([], parts[index]);
      assert segment == segments[index];
      if segment == "." {
        if index == last { output := output + [[]]; }
      } else if segment == ".." {
        output := output[..|output| - 1];
        if index == last { output := output + [[]]; }
      } else {
        output := output + [segment];
      }
    }
    JoinIsRendered(output);
    return ['/'] + Join(output, '/');
  }

  // ---------- whole targets ----------

  /** The envelope is checked by one pass for each rule, so another fault of the same target may come first. */
  method ValidateEnvelope(target: Bytes) returns (fault: Option<PolyguardError>)
    ensures fault.Some? <==> EnvelopeFault(target).Some?
  {
    ByteFaultNone(target, 0);
    if |target| > TARGET_MAX { return Some(LimitExceeded(TargetBytes, TARGET_MAX, |target|)); }
    if target == [] { return Some(InvalidTarget(EmptyTarget)); }
    if exists i :: 0 <= i < |target| && !IsVisible(target[i]) { return Some(InvalidTarget(InvalidTargetByte)); }
    if '#' in target { return Some(InvalidTarget(FragmentNotAllowed)); }
    if '\\' in target { return Some(InvalidTarget(BackslashNotAllowed)); }
    return None;
  }

  method ValidateParts(plan: ValidatedPath) returns (fault: Option<PolyguardError>)
    requires Parts(plan)
    ensures fault.Some? <==> CanonicalPath(Input(plan)).Err?
    ensures fault.Some? ==> CanonicalPath(Input(plan)) == Err(fault.value)
  {
    InputParts(plan);
    RootPath();
    if plan.path.Some? {
      var path := plan.path.value;
      if path == [] || path[0] != '/' { return Some(InvalidTarget(InvalidPath)); }
      fault := ValidateComponent(path, true);
      if fault.Some? { return; }
      FaultlessIsWellEscaped(path, 0, true);
      fault := ValidateRootBoundary(path);
      if fault.Some? { return; }
    }
    if plan.query.Some? {
      fault := ValidateComponent(plan.query.value, false);
      if fault.Some? { return; }
    }
    return None;
  }

  method RenderParts(plan: ValidatedPath) returns (parts: PathParts)
    requires Parts(plan) && CanonicalPath(Input(plan)).Ok?
    ensures CanonicalPath(Input(plan)) == Ok(parts)
  {
    AcceptedParts(plan);
    var routing := RenderPath(if plan.path.Some? then plan.path.value else "/");
    if plan.query.None? { return PathParts(routing, routing); }
    var result := RenderComponentInto(routing + ['?'], plan.query.value);
    return PathParts(result, routing);
  }

  method FinishTarget(form: TargetForm, scheme: Option<Bytes>, authority: Option<Bytes>, plan: ValidatedPath)
    returns (r: Result<NormalizedTarget>)
    requires Parts(plan) && |Input(plan)| <= TARGET_MAX
    ensures r == PathTarget(form, scheme, authority, CanonicalPath(Input(plan)))
  {
    var fault := ValidateParts(plan);
    if fault.Some? { return Err(fault.value); }
    var parts := RenderParts(plan);
    LimitNeverFires(Input(plan));
    r := FinishPathTarget(form, scheme, authority, parts);
  }

  method NormalizeAbsoluteByTokens(scheme: Bytes, remainder: Bytes, ipv6: Ipv6) returns (r: Result<NormalizedTarget>)
    requires |remainder| < TARGET_MAX
    ensures r == NormalizeAbsolute(scheme, remainder, ipv6)
  {
    var end := AuthorityEnd(remainder, 0);
    var authority := CanonicalAuthority(remainder[..end], false, ipv6);
    if authority.Err? { return Err(authority.error); }
    var tail := remainder[end..];
    var plan: ValidatedPath;
    if tail == [] {
      plan := ValidatedPath(None, None);
    } else if tail[0] == '?' {
      plan := ValidatedPath(None, Some(tail[1..]));
      assert Input(plan) == "/" + (['?'] + tail[1..]) && tail == ['?'] + tail[1..];
    } else {
      plan := SplitPath(tail);
    }
    assert Input(plan) == PathInput(tail);
    r := FinishTarget(Absolute, Some(scheme), Some(authority.value), plan);
  }

  /** The same targets are accepted, with the same results, and once the envelope is in order with the same errors. */
  method NormalizeByTokens(verb: Bytes, target: Bytes, ipv6: Ipv6) returns (r: Result<NormalizedTarget>)
    ensures r.Accepted() == Normalize(verb, target, ipv6).Accepted()
    ensures EnvelopeFault(target).None? ==> r == Normalize(verb, target, ipv6)
  {
    var fault := ValidateEnvelope(target);
    if fault.Some? { return Err(fault.value); }
    if target == "*" {
      if verb == "options" { return Ok(FixedTarget(Asterisk, None, "*")); }
      return Err(InvalidTarget(AsteriskMethod));
    }
    var syntax := ClassifySyntax(target);
    if verb == "connect" {
      if StartsWith(target, "/") || syntax.AbsoluteSyntax? { return Err(InvalidTarget(ConnectRequiresAuthority)); }
      var authority := CanonicalAuthority(target, true, ipv6);
      if authority.Err? { return Err(authority.error); }
      return Ok(FixedTarget(Authority, Some(authority.value), authority.value));
    }
    if StartsWith(target, "/") {
      var plan := SplitPath(target);
      r := FinishTarget(Origin, None, None, plan);
      return;
    }
    if !syntax.AbsoluteSyntax? { return Err(InvalidTarget(AuthorityMethod)); }
    r := NormalizeAbsoluteByTokens(syntax.scheme, syntax.remainder, ipv6);
  }
}
