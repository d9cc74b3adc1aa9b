/** Target normalisation over byte offsets: one growing output, truncated back to remembered offsets. */
module TargetOffsets {
  import opened Bytes
  import opened DotSegments
  import opened Http
  import opened PercentEncoding
  import opened RequestTarget
  import opened TargetPipeline
  import opened TargetRules

  method ValidatePercentTriplets(value: Bytes, inPath: bool) returns (fault: Option<Reason>)
    ensures fault == EncodingFault(value, 0, inPath)
  {
    var index := 0;
    while index < |value|
      invariant index <= |value| && EncodingFault(value, index, inPath) == EncodingFault(value, 0, inPath)
    {
      if value[index] != '%' {
        index := index + 1;
        continue;
      }
      if index + 2 >= |value| { return Some(InvalidPercentEncoding); }
      if !IsHexDigit(value[index + 1]) { return Some(InvalidPercentEncoding); }
      if !IsHexDigit(value[index + 2]) { return Some(InvalidPercentEncoding); }
      var decoded := Octet(value[index + 1], value[index + 2]);
      if inPath && (decoded == '/' || decoded == '\\') { return Some(EncodedSeparator); }
      if IsControl(decoded) { return Some(EncodedControl); }
      index := index + 3;
    }
    return None;
  }

  function Dots(count: nat): (dots: Bytes)
    requires count <= 2
    ensures |dots| == count && forall i :: 0 <= i < count ==> dots[i] == '.'
  {
    if count == 0 then [] else if count == 1 then DOT else DOTS
  }

  /** One token of a segment: a dot, or something that begins with another byte. */
  lemma DotStep(segment: Bytes, index: nat)
    requires index < |segment| && WellEscaped(segment, index)
    ensures var escaped := segment[index] == '%';
      var byte, width := if escaped then Octet(segment[index + 1], segment[index + 2]) else segment[index], if escaped then 3 else 1;
      var rest := CanonFrom(segment, index);
      && |rest| > 0 && (byte != '.' ==> rest[0] != '.')
      && (byte == '.' ==> rest == DOT + CanonFrom(segment, index + width))
  {
  }

  /** Decoded dots are counted up to the second; anything else makes the segment an ordinary one. */
  method DecodedDotCount(segment: Bytes) returns (count: nat)
    requires WellEscaped(segment, 0)
    ensures count == DotKind(Canon(segment))
  {
    var index := 0;
    count := 0;
    while index < |segment|
      invariant index <= |segment| && count <= 2 && WellEscaped(segment, index)
      invariant Canon(segment) == Dots(count) + CanonFrom(segment, index)
      invariant index > 0 ==> count > 0
    {
      DotStep(segment, index);
      ghost var rest := CanonFrom(segment, index);
      var byte, width := segment[index], 1;
      if segment[index] == '%' {
        byte, width := Octet(segment[index + 1], segment[index + 2]), 3;
      }
      if byte != '.' || count == 2 {
        assert Canon(segment)[count] == rest[0];
        return 0;
      }
      ConcatAssociates(Dots(count), DOT, CanonFrom(segment, index + width));
      assert Dots(count) + DOT == Dots(count + 1);
      count := count + 1;
      index := index + width;
    }
    assert Dots(count) + [] == Dots(count);
  }

  lemma LastSegment(path: Bytes, start: nat)
    requires start <= |path| && forall k :: start <= k < |path| ==> path[k] != '/'
    ensures Split(path[start..], '/') == [path[start..]]
  {
    SplitLast(path[start..], '/');
  }

  lemma InnerSegment(path: Bytes, start: nat, end: nat)
    requires start <= end < |path| && path[end] == '/' && forall k :: start <= k < end ==> path[k] != '/'
    ensures Split(path[start..], '/') == [path[start..end]] + Split(path[end + 1..], '/')
  {
    var rest := path[start..];
    SplitStep(rest, '/', end - start);
    assert rest[..end - start] == path[start..end];
    assert rest[end - start + 1..] == path[end + 1..];
  }

  /** The raw segment that begins at `start`, and the ones after it. */
  lemma NextSegment(path: Bytes, start: nat)
    requires start <= |path|
    ensures var end := IndexFrom(path, '/', start);
      Split(path[start..], '/') ==
        if end == |path| then [path[start..end]] else [path[start..end]] + Split(path[end + 1..], '/')
  {
    var end := IndexFrom(path, '/', start);
    IndexFromFirst(path, '/', start);
    if end == |path| {
      LastSegment(path, start);
      assert path[start..end] == path[start..];
    } else {
      InnerSegment(path, start, end);
    }
  }

  /** The loops over segments stand at `start`, with `index` segments behind them. */
  ghost predicate AtSegment(path: Bytes, start: nat, index: nat) {
    && 1 <= start <= |path|
    && var parts := Split(path[1..], '/');
       index < |parts| && Split(path[start..], '/') == parts[index..]
  }

  lemma AtFirstSegment(path: Bytes)
    requires path != []
    ensures AtSegment(path, 1, 0)
  {
    var parts := Split(path[1..], '/');
    assert parts[0..] == parts;
  }

  lemma SegmentAtStart(path: Bytes, start: nat, index: nat)
    requires AtSegment(path, start, index)
    ensures var parts, end := Split(path[1..], '/'), IndexFrom(path, '/', start);
      && path[start..end] == parts[index]
      && (end == |path| <==> index + 1 == |parts|)
      && (end < |path| ==> AtSegment(path, end + 1, index + 1))
  {
    NextSegment(path, start);
    var parts, end := Split(path[1..], '/'), IndexFrom(path, '/', start);
    assert parts[index..][0] == parts[index];
    assert parts[index..][1..] == parts[index + 1..];
    if end < |path| {
      assert ([path[start..end]] + Split(path[end + 1..], '/'))[1..] == Split(path[end + 1..], '/');
    }
  }

  /** The segment at `start` is, canonically spelled, the segment of the canonical path. */
  lemma CanonAtStart(path: Bytes, start: nat, index: nat)
    requires WellEscaped(path, 0) && path != [] && path[0] == '/' && AtSegment(path, start, index)
    ensures var segments, end := Segments(path), IndexFrom(path, '/', start);
      && index < |segments| && WellEscaped(path[start..end], 0) && Canon(path[start..end]) == segments[index]
      && (end == |path| <==> index + 1 == |segments|)
      && (end < |path| ==> AtSegment(path, end + 1, index + 1))
  {
    SegmentAtStart(path, start, index);
    RawSegmentAt(path, index);
  }

  /** The depth counter fails exactly when the stack of segments would. */
  method ValidateRootBalance(path: Bytes) returns (escapes: bool)
    requires WellEscaped(path, 0) && path != [] && path[0] == '/'
    ensures escapes == RemoveDots(Segments(path)).None?
  {
    ghost var segments := Segments(path);
    ghost var index := 0;
    assert RemoveDots(segments).None? <==> Depth(segments, |segments|).None? by { DepthIsHeight(segments, |segments|); }
    AtFirstSegment(path);
    var depth := 0;
    var start := 1;
    while true
      invariant AtSegment(path, start, index) && index <= |segments| && Depth(segments, index) == Some(depth)
      decreases |path| - start
    {
      CanonAtStart(path, start, index);
      var end := IndexFrom(path, '/', start);
      var dots := DecodedDotCount(path[start..end]);
      assert Depth(segments, index + 1) == NextDepth(depth, dots);
      if dots == 2 {
        if depth == 0 {
          DepthStaysNone(segments, index + 1);
          return true;
        }
        depth := depth - 1;
      } else if dots != 1 {
        depth := depth + 1;
      }
      if end == |path| { return false; }
      start := end + 1;
      index := index + 1;
    }
  }

  method AppendCanonical(output: Bytes, input: Bytes) returns (extended: Bytes)
    requires WellEscaped(input, 0)
    ensures extended == output + Canon(input)
  {
    extended := output;
    var index := 0;
    while index < |input|
      invariant index <= |input| && WellEscaped(input, index)
      invariant extended + CanonFrom(input, index) == output + Canon(input)
    {
      ghost var before := extended;
      if input[index] != '%' {
        extended := extended + [input[index]];
        ConcatAssociates(before, [input[index]], CanonFrom(input, index + 1));
        index := index + 1;
        continue;
      }
      var decoded := Octet(input[index + 1], input[index + 2]);
      if IsUnreserved(decoded) {
        extended := extended + [decoded];
      } else {
        extended := extended + ['%', HexDigit(decoded as int / 16), HexDigit(decoded as int % 16)];
      }
      ConcatAssociates(before, SpellOctet(decoded), CanonFrom(input, index + 3));
      index := index + 3;
    }
    assert extended + [] == extended;
  }

  // ---------- the offset stack ----------

  /** Each offset is where the segment at the same place of the stack begins in the output. */
  ghost predicate Offsets(kept: seq<Bytes>, offsets: seq<nat>) {
    var n := |kept|;
    && |offsets| == n
    && (n > 0 ==> offsets[n - 1] == |Rendered(kept[..n - 1])| && Offsets(kept[..n - 1], offsets[..n - 1]))
  }

  lemma OffsetsPush(kept: seq<Bytes>, offsets: seq<nat>, segment: Bytes)
    requires Offsets(kept, offsets)
    ensures Offsets(kept + [segment], offsets + [|Rendered(kept)|])
    ensures Rendered(kept + [segment]) == Rendered(kept) + ['/'] + segment
  {
    assert (kept + [segment])[..|kept|] == kept && (offsets + [|Rendered(kept)|])[..|kept|] == offsets;
  }

  lemma OffsetsPop(kept: seq<Bytes>, offsets: seq<nat>)
    requires Offsets(kept, offsets) && kept != []
    ensures Offsets(kept[..|kept| - 1], offsets[..|kept| - 1])
    ensures var previous := offsets[|kept| - 1];
      previous <= |Rendered(kept)| && Rendered(kept)[..previous] == Rendered(kept[..|kept| - 1])
  {
  }

  /** The output and the offsets hold the stack after `index` segments. */
  ghost predicate Building(segments: seq<Bytes>, index: nat, kept: seq<Bytes>, output: Bytes, offsets: seq<nat>) {
    index < |segments| && Kept(segments, index) == Some(kept) && output == Rendered(kept) && Offsets(kept, offsets)
  }

  /** One segment: the new output, the new offsets and the stack they hold. */
  method PlaceSegment(output: Bytes, segmentOffsets: seq<nat>, rawSegment: Bytes, finalSegment: bool,
                      ghost segments: seq<Bytes>, ghost index: nat, ghost kept: seq<Bytes>)
    returns (placed: Bytes, offsets: seq<nat>, ghost stack: seq<Bytes>)
    requires Building(segments, index, kept, output, segmentOffsets) && RemoveDots(segments).Some?
    requires WellEscaped(rawSegment, 0) && Canon(rawSegment) == segments[index]
    requires finalSegment <==> index + 1 == |segments|
    ensures finalSegment ==> placed == Rendered(RemoveDots(segments).value)
    ensures !finalSegment ==> Building(segments, index + 1, stack, placed, offsets)
  {
    NextIsKept(segments, index);
    var outputOffset := |output|;
    var extended := AppendCanonical(output + ['/'], rawSegment);
    var segment := extended[outputOffset + 1..];
    assert segment == segments[index] && extended[..outputOffset] == output;
    if segment == "." {
      placed, offsets, stack := extended[..outputOffset], segmentOffsets, kept;
      if finalSegment {
        RenderedSnoc(kept, []);
        placed := placed + ['/'];
      }
    } else if segment == ".." {
      OffsetsPop(kept, segmentOffsets);
      var previous := segmentOffsets[|segmentOffsets| - 1];
      stack, offsets := kept[..|kept| - 1], segmentOffsets[..|segmentOffsets| - 1];
      placed := extended[..outputOffset];
      placed := placed[..previous];
      if finalSegment {
        RenderedSnoc(stack, []);
        placed := placed + ['/'];
      }
    } else {
      OffsetsPush(kept, segmentOffsets, segment);
      placed, offsets, stack := extended, segmentOffsets + [outputOffset], kept + [segment];
    }
  }

  /** Truncating to a remembered offset undoes exactly one segment. */
  method TransformPath(path: Bytes) returns (output: Bytes)
    requires WellEscaped(path, 0) && path != [] && path[0] == '/' && RemoveDots(Segments(path)).Some?
    ensures output == Rendered(RemoveDots(Segments(path)).value)
  {
    ghost var segments := Segments(path);
    ghost var index: nat, kept: seq<Bytes> := 0, [];
    var segmentOffsets: seq<nat> := [];
    var start := 1;
    output := [];
    AtFirstSegment(path);
    while true
      invariant AtSegment(path, start, index) && Building(segments, index, kept, output, segmentOffsets)
      decreases |path| - start
    {
      CanonAtStart(path, start, index);
      var end := IndexFrom(path, '/', start);
      var finalSegment := end == |path|;
      output, segmentOffsets, kept :=
        PlaceSegment(output, segmentOffsets, path[start..end], finalSegment, segments, index, kept);
      if finalSegment { return; }
      start := end + 1;
      index := index + 1;
    }
  }

  // ---------- whole targets ----------

  method ValidatePathAndQuery(value: Bytes) returns (fault: Option<PolyguardError>)
    ensures fault.Some? <==> CanonicalPath(value).Err?
  {
    var question := IndexOf(value, '?');
    var path := value[..question];
    if question == 0 || value[0] != '/' { return Some(InvalidTarget(InvalidPath)); }
    var pathFault := ValidatePercentTriplets(path, true);
    if pathFault.Some? { return Some(InvalidTarget(pathFault.value)); }
    FaultlessIsWellEscaped(path, 0, true);
    if question < |value| {
      var queryFault := ValidatePercentTriplets(value[question + 1..], false);
      if queryFault.Some? { return Some(InvalidTarget(queryFault.value)); }
    }
    var escapes := ValidateRootBalance(path);
    return if escapes then Some(InvalidTarget(PathTraversal)) else None;
  }

  method TransformPathAndQuery(value: Bytes) returns (parts: PathParts)
    requires CanonicalPath(value).Ok?
    ensures CanonicalPath(value) == Ok(parts)
  {
    var question := IndexOf(value, '?');
    FaultlessIsWellEscaped(value[..question], 0, true);
    var routing := TransformPath(value[..question]);
    var output := routing;
    if question < |value| {
      FaultlessIsWellEscaped(value[question + 1..], 0, false);
      output := AppendCanonical(output + ['?'], value[question + 1..]);
    }
    return PathParts(output, routing);
  }

  method NormalizePath(form: TargetForm, scheme: Option<Bytes>, authority: Option<Bytes>, value: Bytes)
    returns (r: Result<NormalizedTarget>)
    requires |value| <= TARGET_MAX
    ensures r.Accepted() == PathTarget(form, scheme, authority, CanonicalPath(value)).Accepted()
  {
    var fault := ValidatePathAndQuery(value);
    if fault.Some? { return Err(fault.value); }
    var parts := TransformPathAndQuery(value);
    LimitNeverFires(value);
    r := FinishPathTarget(form, scheme, authority, parts);
  }

  method NormalizeAbsoluteByOffsets(scheme: Bytes, remainder: Bytes, ipv6: Ipv6) returns (r: Result<NormalizedTarget>)
    requires |remainder| < TARGET_MAX
    ensures r.Accepted() == NormalizeAbsolute(scheme, remainder, ipv6).Accepted()
  {
    var boundary := AuthorityEnd(remainder, 0);
    var authority := CanonicalAuthority(remainder[..boundary], false, ipv6);
    if authority.Err? { return Err(authority.error); }
    r := NormalizePath(Absolute, Some(scheme), Some(authority.value), PathInput(remainder[boundary..]));
  }

  /** The same targets are accepted, with the same results; only the first error reported may differ. */
  method NormalizeByOffsets(verb: Bytes, target: Bytes, ipv6: Ipv6) returns (r: Result<NormalizedTarget>)
    ensures r.Accepted() == Normalize(verb, target, ipv6).Accepted()
  {
    var fault := CheckedBoundary(target);
    if fault.Some? { return Err(fault.value); }
    if target == "*" {
      if verb != "options" { return Err(InvalidTarget(AsteriskMethod)); }
      return Ok(FixedTarget(Asterisk, None, "*"));
    }
    var syntax := ClassifySyntax(target);
    if verb == "connect" {
      if StartsWith(target, "/") || syntax.AbsoluteSyntax? { return Err(InvalidTarget(ConnectRequiresAuthority)); }
      var authority := CanonicalAuthority(target, true, ipv6);
      if authority.Err? { return Err(authority.error); }
      return Ok(FixedTarget(Authority, Some(authority.value), authority.value));
    }
    if StartsWith(target, "/") {
      r := NormalizePath(Origin, None, None, target);
      return;
    }
    if !syntax.AbsoluteSyntax? { return Err(InvalidTarget(AuthorityMethod)); }
    r := NormalizeAbsoluteByOffsets(syntax.scheme, syntax.remainder, ipv6);
  }
}
