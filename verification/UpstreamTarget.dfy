/** Rewriting the matched prefix of a target, and when the rewritten path can be printed. */
module UpstreamTarget {
  import opened Bytes
  import opened CanonicalHead
  import opened CanonicalHeadPath
  import opened DotSegments
  import opened Http
  import N = RequestTarget
  import PercentEncoding
  import RouteSelection

  const PATH_MAX := 8_192

  /** What configuration accepts as the path of a route or as a replacement. */
  predicate ConfigPath(text: Bytes) {
    && 1 <= |text| <= PATH_MAX && text[0] == '/'
    && forall i :: 0 <= i < |text| ==> IsVisible(text[i]) && text[i] != '?' && text[i] != '#' && text[i] != '\\'
  }

  /** The target that goes upstream; a replacement turns every form into an origin target. */
  function RewriteTarget(target: NormalizedTarget, matched: Bytes, replacement: Option<Bytes>): Outcome<NormalizedTarget> {
    if replacement.None? then Done(target)
    else if !(matched <= target.routingPath) then Outcome.Failed(Fault.Internal)
    else
      var routing := replacement.value + target.routingPath[|matched|..];
      if routing == [] || routing[0] != '/' || |routing| > PATH_MAX then Outcome.Failed(Fault.Internal)
      else if !(target.routingPath <= target.pathAndQuery) then Outcome.Failed(Fault.Internal)
      else
        Done(NormalizedTarget(Origin, None, None, routing + target.pathAndQuery[|target.routingPath|..], routing))
  }

  // ---------- parts across a splice ----------

  function Last(parts: seq<Bytes>): Bytes
    requires parts != []
  {
    parts[|parts| - 1]
  }

  function Inner(parts: seq<Bytes>): seq<Bytes>
    requires parts != []
  {
    parts[..|parts| - 1]
  }

  lemma JoinedParts(first: Bytes, rest: seq<Bytes>, parts: seq<Bytes>)
    requires rest != [] && parts != []
    ensures Inner([first] + rest) + [Last([first] + rest) + parts[0]] + parts[1..]
         == [first] + (Inner(rest) + [Last(rest) + parts[0]] + parts[1..])
  {
    assert Inner([first] + rest) == [first] + Inner(rest) && Last([first] + rest) == Last(rest);
  }

  lemma {:induction false} SplitWithout(a: Bytes, b: Bytes, c: Byte)
    requires c !in a
    ensures Split(a + b, c) == [a + Split(b, c)[0]] + Split(b, c)[1..]
  {
    hide Split;
    var j := IndexOf(b, c);
    IndexOfFirst(b, c);
    if j < |b| {
      SplitStep(b, c, j);
      SplitStep(a + b, c, |a| + j);
      assert (a + b)[..|a| + j] == a + b[..j] && (a + b)[|a| + j + 1..] == b[j + 1..];
    } else {
      SplitLast(b, c);
      SplitLast(a + b, c);
    }
  }

  /** Joining two texts joins the last part of one with the first part of the other. */
  lemma {:induction false} SplitConcat(a: Bytes, b: Bytes, c: Byte)
    ensures Split(a + b, c) == Inner(Split(a, c)) + [Last(Split(a, c)) + Split(b, c)[0]] + Split(b, c)[1..]
    decreases |a|
  {
    hide Split;
    var i := IndexOf(a, c);
    IndexOfFirst(a, c);
    if i < |a| {
      SplitStep(a, c, i);
      SplitStep(a + b, c, i);
      assert (a + b)[..i] == a[..i] && (a + b)[i + 1..] == a[i + 1..] + b;
      SplitConcat(a[i + 1..], b, c);
      JoinedParts(a[..i], Split(a[i + 1..], c), Split(b, c));
    } else {
      SplitLast(a, c);
      SplitWithout(a, b, c);
      assert Inner([a]) == [] && Last([a]) == a;
    }
  }

  lemma DotsAcrossSplice(before: Bytes, after: Bytes)
    requires before != []
    ensures NoDotParts(before + after) <==>
      && NoDots(Inner(Split(before[1..], '/'))) && NoDots(Split(after, '/')[1..])
      && !IsDots(Last(Split(before[1..], '/')) + Split(after, '/')[0])
  {
    assert (before + after)[1..] == before[1..] + after;
    SplitConcat(before[1..], after, '/');
    var first, joined, rest := Inner(Split(before[1..], '/')), Last(Split(before[1..], '/')) + Split(after, '/')[0], Split(after, '/')[1..];
    hide Split;
    hide Last;
    hide Inner;
    assert NoDotParts(before + after) <==> NoDots(first + [joined] + rest);
    NoDotsConcat(first, joined, rest);
  }

  lemma NoDotsConcat(first: seq<Bytes>, joined: Bytes, rest: seq<Bytes>)
    ensures NoDots(first + [joined] + rest) <==> NoDots(first) && !IsDots(joined) && NoDots(rest)
  {
    var all := first + [joined] + rest;
    assert forall part :: part in all <==> part in first || part == joined || part in rest;
  }

  // ---------- escapes across a splice ----------

  predicate EscapeOk(text: Bytes, i: nat)
    requires i + 2 < |text|
  {
    && IsUpperHexDigit(text[i + 1]) && IsUpperHexDigit(text[i + 2])
    && var octet := PercentEncoding.Octet(text[i + 1], text[i + 2]);
       !IsControl(octet) && !IsUnreserved(octet) && octet != '/' && octet != '\\'
  }

  /** Where an escape begins that the end of the text cuts short, or the end. */
  function OpenAt(text: Bytes, i: nat): (open: nat)
    requires i <= |text|
    ensures i <= open <= |text|
    decreases |text| - i
  {
    if i == |text| then i
    else if text[i] != '%' then OpenAt(text, i + 1)
    else if i + 2 < |text| then OpenAt(text, i + 3)
    else i
  }

  /** The escapes that are not cut short are canonical. */
  predicate ClosedEscapesOk(text: Bytes, i: nat)
    requires i <= |text|
    decreases |text| - i
  {
    if i == |text| then true
    else if text[i] != '%' then ClosedEscapesOk(text, i + 1)
    else i + 2 < |text| ==> EscapeOk(text, i) && ClosedEscapesOk(text, i + 3)
  }

  lemma {:induction false} EscapesConcat(a: Bytes, b: Bytes, i: nat)
    requires i <= |a|
    ensures EscapesOk(a + b, i, |a + b|) <==> ClosedEscapesOk(a, i) && EscapesOk(a + b, OpenAt(a, i), |a + b|)
    decreases |a| - i
  {
    if i < |a| {
      assert (a + b)[i] == a[i];
      if a[i] != '%' {
        EscapesConcat(a, b, i + 1);
      } else if i + 2 < |a| {
        assert (a + b)[i + 1] == a[i + 1] && (a + b)[i + 2] == a[i + 2];
        EscapesConcat(a, b, i + 3);
      }
    }
  }

  lemma {:induction false} EscapesShifted(a: Bytes, b: Bytes, i: nat)
    requires i <= |b|
    ensures EscapesOk(a + b, |a| + i, |a + b|) <==> EscapesOk(b, i, |b|)
    decreases |b| - i
  {
    if i < |b| {
      assert (a + b)[|a| + i] == b[i];
      if b[i] != '%' {
        EscapesShifted(a, b, i + 1);
      } else if i + 2 < |b| {
        assert (a + b)[|a| + i + 1] == b[i + 1] && (a + b)[|a| + i + 2] == b[i + 2];
        EscapesShifted(a, b, i + 3);
      }
    }
  }

  /** The cut-short escape of `a`, if any, is completed by `b`. */
  lemma EscapesAcrossSplice(a: Bytes, b: Bytes)
    ensures var open := a[OpenAt(a, 0)..];
      EscapesOk(a + b, 0, |a + b|) <==> ClosedEscapesOk(a, 0) && EscapesOk(open + b, 0, |open + b|)
  {
    hide EscapesOk;
    hide ClosedEscapesOk;
    var cut := OpenAt(a, 0);
    EscapesConcat(a, b, 0);
    assert a + b == a[..cut] + (a[cut..] + b);
    EscapesShifted(a[..cut], a[cut..] + b, 0);
  }

  // ---------- rewritten paths ----------

  /** What a replacement must keep whatever follows it: its whole parts are not dots, its whole escapes canonical. */
  ghost predicate ReplacementOk(replacement: Bytes)
    requires replacement != []
  {
    ClosedEscapesOk(replacement, 0) && NoDots(Inner(Split(replacement[1..], '/')))
  }

  /** What must hold where a replacement meets the rest of a path. */
  ghost predicate SpliceOk(replacement: Bytes, rest: Bytes)
    requires replacement != []
  {
    var open := replacement[OpenAt(replacement, 0)..] + rest;
    !IsDots(Last(Split(replacement[1..], '/')) + Split(rest, '/')[0]) && EscapesOk(open, 0, |open|)
  }

  /** A path and its query are fit to print when the path is and the query's escapes are canonical. */
  lemma PathThenQuery(path: Bytes, query: Bytes)
    requires '?' !in path && (query != [] ==> query[0] == '?')
    ensures PathOk(path + query, path) <==>
      && path != [] && path[0] == '/' && |path + query| <= TARGET_MAX
      && (forall i :: 0 <= i < |path| ==> !N.BadTargetByte(path[i]))
      && (forall i :: 0 <= i < |query| ==> !N.BadTargetByte(query[i]))
      && NoDotParts(path) && EscapesOk(path, 0, |path|) && (query != [] ==> EscapesOk(query[1..], 0, 0))
  {
    var text := path + query;
    assert query != [] ==> text[|path|] == '?';
    IndexOfUnique(text, '?', |path|);
    EscapesOfTarget(text);
    hide EscapesOk;
    hide N.BadTargetByte;
    hide Split;
    assert text[..|path|] == path;
    if query != [] { assert text[|path| + 1..] == query[1..]; }
    if path != [] { assert text[1..|path|] == path[1..]; }
    BytesOfConcat(path, query);
  }

  lemma BytesOfConcat(a: Bytes, b: Bytes)
    ensures (forall i :: 0 <= i < |a + b| ==> !N.BadTargetByte((a + b)[i])) <==>
      (forall i :: 0 <= i < |a| ==> !N.BadTargetByte(a[i])) && (forall i :: 0 <= i < |b| ==> !N.BadTargetByte(b[i]))
  {
    hide N.BadTargetByte;
    assert forall i :: 0 <= i < |a| ==> (a + b)[i] == a[i];
    assert forall i :: 0 <= i < |b| ==> (a + b)[|a| + i] == b[i];
  }

  lemma VisibleBytes(text: Bytes)
    requires ConfigPath(text)
    ensures '?' !in text && forall i :: 0 <= i < |text| ==> !N.BadTargetByte(text[i])
  {
  }

  /** Replacing the front of a printable path keeps it printable exactly when the length fits, the replacement keeps
      its own rules, and the splice makes no dot part and no improper escape. */
  lemma SplicedPath(matched: Bytes, replacement: Bytes, rest: Bytes, query: Bytes)
    requires matched != [] && ConfigPath(replacement) && '?' !in matched + rest && (query != [] ==> query[0] == '?')
    requires PathOk(matched + rest + query, matched + rest)
    ensures PathOk(replacement + rest + query, replacement + rest) <==>
      |replacement| + |rest| + |query| <= TARGET_MAX && ReplacementOk(replacement) && SpliceOk(replacement, rest)
  {
    var path := replacement + rest;
    VisibleBytes(replacement);
    PathThenQuery(matched + rest, query);
    DotsAcrossSplice(matched, rest);
    DotsAcrossSplice(replacement, rest);
    EscapesAcrossSplice(replacement, rest);
    hide PathOk;
    hide EscapesOk;
    hide ClosedEscapesOk;
    hide NoDotParts;
    hide NoDots;
    hide IsDots;
    hide Split;
    hide Inner;
    hide Last;
    hide OpenAt;
    hide N.BadTargetByte;
    assert forall i :: 0 <= i < |rest| ==> (matched + rest)[|matched| + i] == rest[i];
    assert '?' !in path;
    assert forall i :: 0 <= i < |path| ==> !N.BadTargetByte(path[i]);
    PathThenQuery(path, query);
  }

  // ---------- rewritten targets ----------

  /** The part of a path that rewriting keeps. */
  function Rest(path: Bytes, matched: Bytes): Bytes
    requires matched <= path
  {
    path[|matched|..]
  }

  lemma PathSplits(pathAndQuery: Bytes, routingPath: Bytes, matched: Bytes)
    requires PathOk(pathAndQuery, routingPath) && matched <= routingPath
    ensures routingPath <= pathAndQuery && '?' !in routingPath && routingPath == matched + Rest(routingPath, matched)
    ensures var query := pathAndQuery[|routingPath|..];
      pathAndQuery == routingPath + query && (query != [] ==> query[0] == '?')
  {
    IndexOfFirst(pathAndQuery, '?');
  }

  /** What a rewritten target needs beyond a printable original. */
  ghost predicate RewriteOk(target: NormalizedTarget, matched: Bytes, replacement: Bytes)
    requires matched <= target.routingPath && replacement != []
  {
    && |target.pathAndQuery| - |matched| + |replacement| <= TARGET_MAX
    && ReplacementOk(replacement) && SpliceOk(replacement, Rest(target.routingPath, matched))
  }

  /** Rewriting a printable target succeeds exactly when the new path is short enough; the result is an origin target,
      and it can be printed exactly when the whole length fits, the replacement keeps its own rules, and no dot part
      and no improper escape arises at the splice. */
  lemma RewrittenIsPrintable(target: NormalizedTarget, matched: Bytes, replacement: Bytes)
    requires PathOk(target.pathAndQuery, target.routingPath)
    requires ConfigPath(matched) && matched <= target.routingPath && ConfigPath(replacement)
    ensures var r := RewriteTarget(target, matched, Some(replacement));
      && (r.Done? <==> |replacement| + |Rest(target.routingPath, matched)| <= PATH_MAX)
      && (r.Done? ==>
            && r.value.form.Origin? && r.value.scheme.None? && r.value.authority.None?
            && (PathOk(r.value.pathAndQuery, r.value.routingPath) <==> RewriteOk(target, matched, replacement)))
  {
    var rest, query := Rest(target.routingPath, matched), target.pathAndQuery[|target.routingPath|..];
    PathSplits(target.pathAndQuery, target.routingPath, matched);
    assert target.pathAndQuery == matched + rest + query;
    hide PathOk;
    hide ReplacementOk;
    hide SpliceOk;
    SplicedPath(matched, replacement, rest, query);
    assert (replacement + rest)[0] == replacement[0];
  }

  /** Rewriting puts the replacement in the place of the matched front and keeps the rest of the path and the query; the
      scheme and the authority of an absolute target are gone. Without a replacement nothing changes. */
  lemma RewriteMeans(target: NormalizedTarget, matched: Bytes, rest: Bytes, query: Bytes, replacement: Bytes)
    requires target.routingPath == matched + rest && target.pathAndQuery == matched + rest + query
    requires ConfigPath(replacement)
    ensures RewriteTarget(target, matched, None) == Done(target)
    ensures |replacement| + |rest| <= PATH_MAX ==>
      RewriteTarget(target, matched, Some(replacement)) ==
        Done(NormalizedTarget(Origin, None, None, replacement + rest + query, replacement + rest))
    ensures |replacement| + |rest| > PATH_MAX ==>
      RewriteTarget(target, matched, Some(replacement)) == Outcome.Failed(Fault.Internal)
  {
    assert target.routingPath[|matched|..] == rest && target.pathAndQuery[|target.routingPath|..] == query;
    assert (replacement + rest)[0] == replacement[0];
  }

  lemma {:induction false} CanonicalIsClosed(text: Bytes, i: nat)
    requires i <= |text| && EscapesOk(text, i, |text|)
    ensures ClosedEscapesOk(text, i) && OpenAt(text, i) == |text|
    decreases |text| - i
  {
    if i < |text| { CanonicalIsClosed(text, if text[i] == '%' then i + 3 else i + 1); }
  }

  lemma {:induction false} OpenIsShort(text: Bytes, i: nat)
    requires i <= |text|
    ensures var open := OpenAt(text, i); open < |text| ==> text[open] == '%' && |text| - open <= 2
    decreases |text| - i
  {
    if i < |text| && (text[i] != '%' || i + 2 < |text|) { OpenIsShort(text, if text[i] == '%' then i + 3 else i + 1); }
  }

  /** What follows any prefix of a path has canonical escapes when the path has: a cut-short escape leaves digits only. */
  lemma EscapesOfRest(matched: Bytes, rest: Bytes)
    requires EscapesOk(matched + rest, 0, |matched + rest|)
    ensures EscapesOk(rest, 0, |rest|)
  {
    hide ClosedEscapesOk;
    var open := matched[OpenAt(matched, 0)..];
    EscapesAcrossSplice(matched, rest);
    OpenIsShort(matched, 0);
    var text := open + rest;
    if open == [] {
      assert text == rest;
    } else {
      assert forall i :: 0 <= i < |rest| ==> text[|open| + i] == rest[i];
      EscapesShifted(open, rest, 3 - |open|);
    }
  }

  lemma {:induction false} LastPart(text: Bytes, c: Byte)
    ensures Last(Split(text, c)) == [] <==> text == [] || text[|text| - 1] == c
    decreases |text|
  {
    hide Split;
    var i := IndexOf(text, c);
    IndexOfFirst(text, c);
    if i < |text| {
      SplitStep(text, c, i);
      LastPart(text[i + 1..], c);
    } else {
      SplitLast(text, c);
    }
  }

  lemma DotsJoined(last: Bytes, first: Bytes)
    requires !IsDots(last)
    ensures IsDots(last + first) <==> last == [] && IsDots(first)
  {
    if last == [] {
      assert last + first == first;
    } else {
      var joined := last + first;
      assert joined[0] == last[0] && (|last| > 1 ==> joined[1] == last[1]);
      assert |last| == 1 ==> last == [last[0]];
      assert |last| == 2 ==> last == [last[0], last[1]];
    }
  }

  lemma PartsOfPath(path: Bytes)
    requires path != [] && NoDotParts(path)
    ensures var parts := Split(path[1..], '/'); !IsDots(Last(parts)) && NoDots(Inner(parts))
  {
    var parts := Split(path[1..], '/');
    hide Split;
    assert Last(parts) in parts && forall part :: part in Inner(parts) ==> part in parts;
  }

  /** A replacement that can itself be printed fits any rest, unless it ends in a slash and a dot part follows. */
  predicate EndsBeforeDots(replacement: Bytes, rest: Bytes)
    requires replacement != []
  {
    replacement[|replacement| - 1] == '/' && IsDots(Split(rest, '/')[0])
  }

  lemma PrintableSplice(replacement: Bytes, rest: Bytes)
    requires replacement != [] && replacement[0] == '/' && NoDotParts(replacement)
    requires EscapesOk(replacement, 0, |replacement|) && EscapesOk(rest, 0, |rest|)
    ensures ReplacementOk(replacement) && (SpliceOk(replacement, rest) <==> !EndsBeforeDots(replacement, rest))
  {
    var parts := Split(replacement[1..], '/');
    CanonicalIsClosed(replacement, 0);
    LastPart(replacement[1..], '/');
    PartsOfPath(replacement);
    hide EscapesOk;
    hide ClosedEscapesOk;
    hide NoDotParts;
    hide NoDots;
    hide IsDots;
    hide Inner;
    hide Last;
    hide Split;
    hide OpenAt;
    DotsJoined(Last(parts), Split(rest, '/')[0]);
    assert replacement[|replacement|..] + rest == rest;
  }

  /** For a replacement that can itself be printed the condition is about one byte and one part: it must not end in a
      slash where the rest of the path begins with a dot part. */
  lemma PrintableReplacement(target: NormalizedTarget, matched: Bytes, replacement: Bytes)
    requires PathOk(target.pathAndQuery, target.routingPath) && PathOk(replacement, replacement)
    requires matched != [] && matched <= target.routingPath
    ensures RewriteOk(target, matched, replacement) <==>
      && |target.pathAndQuery| - |matched| + |replacement| <= TARGET_MAX
      && !EndsBeforeDots(replacement, Rest(target.routingPath, matched))
  {
    var rest, query := Rest(target.routingPath, matched), target.pathAndQuery[|target.routingPath|..];
    PathSplits(target.pathAndQuery, target.routingPath, matched);
    assert replacement + [] == replacement;
    PathSplits(replacement, replacement, replacement);
    PathThenQuery(target.routingPath, query);
    PathThenQuery(replacement, []);
    hide PathOk;
    hide EscapesOk;
    hide NoDotParts;
    EscapesOfRest(matched, rest);
    PrintableSplice(replacement, rest);
  }

  /** Routes that match whole parts of a path leave nothing, a slash, or what follows the first slash. */
  lemma WholePartsLeaveNoDots(route: RouteSelection.RuntimeRoute, pathAndQuery: Bytes, path: Bytes)
    requires PathOk(pathAndQuery, path) && RouteSelection.PathMatches(route, path) && !route.matchKind.Prefix?
    ensures route.path <= path && !IsDots(Split(Rest(path, route.path), '/')[0])
  {
    var rest := Rest(path, route.path);
    PathSplits(pathAndQuery, path, []);
    if rest == [] {
      SplitLast(rest, '/');
    } else if rest[0] == '/' {
      SplitStep(rest, '/', 0);
    } else {
      assert rest == pathAndQuery[1..|path|];
      assert Split(rest, '/')[0] in Split(rest, '/');
    }
  }

  /** On such routes a replacement that can itself be printed can only make a target too long. */
  lemma WholePartsRewriteWell(target: NormalizedTarget, route: RouteSelection.RuntimeRoute, replacement: Bytes)
    requires PathOk(target.pathAndQuery, target.routingPath) && PathOk(replacement, replacement)
    requires RouteSelection.PathMatches(route, target.routingPath) && !route.matchKind.Prefix? && route.path != []
    ensures route.path <= target.routingPath
    ensures RewriteOk(target, route.path, replacement) <==>
      |target.pathAndQuery| - |route.path| + |replacement| <= TARGET_MAX
  {
    hide RouteSelection.PathMatches;
    hide RewriteOk;
    WholePartsLeaveNoDots(route, target.pathAndQuery, target.routingPath);
    assert replacement != [];
    hide PathOk;
    PrintableReplacement(target, route.path, replacement);
  }

  // ---------- a dot part that a prefix route makes ----------

  lemma SplitTwo(first: Bytes, second: Bytes)
    requires '/' !in first && '/' !in second
    ensures Split(first + ['/'] + second, '/') == [first, second]
  {
    var text := first + ['/'] + second;
    SplitStep(text, '/', |first|);
    SplitLast(second, '/');
    assert text[..|first|] == first && text[|first| + 1..] == second;
  }

  /** Paths of two plain parts. */
  function TwoParts(first: Bytes, second: Bytes): Bytes { ['/'] + (first + ['/'] + second) }

  predicate PlainPart(part: Bytes) { forall i :: 0 <= i < |part| ==> IsUnreserved(part[i]) }

  lemma TwoPartsIsPrintable(first: Bytes, second: Bytes)
    requires PlainPart(first) && PlainPart(second) && |first| + |second| + 2 <= TARGET_MAX
    ensures var path := TwoParts(first, second); PathOk(path, path) <==> !IsDots(first) && !IsDots(second)
  {
    hide IsDots;
    hide Split;
    hide PathOk;
    hide NoDotParts;
    var path := TwoParts(first, second);
    PlainBytes(first, second);
    SplitTwo(first, second);
    hide PlainPart;
    assert path[1..] == first + ['/'] + second;
    TwoDots(first, second, path);
    PlainPath(path);
  }

  lemma PlainBytes(first: Bytes, second: Bytes)
    requires PlainPart(first) && PlainPart(second)
    ensures var path := TwoParts(first, second);
      && '%' !in path && '?' !in path && '/' !in first && '/' !in second
      && forall i :: 0 <= i < |path| ==> !N.BadTargetByte(path[i])
  {
    var path := TwoParts(first, second);
    forall i | 0 <= i < |path| ensures path[i] == '/' || IsUnreserved(path[i]) {
      if 1 <= i <= |first| { assert path[i] == first[i - 1]; }
      if i > |first| + 1 { assert path[i] == second[i - |first| - 2]; }
    }
  }

  lemma TwoDots(first: Bytes, second: Bytes, path: Bytes)
    requires path != [] && Split(path[1..], '/') == [first, second]
    ensures NoDotParts(path) <==> !IsDots(first) && !IsDots(second)
  {
    var parts := Split(path[1..], '/');
    hide Split;
    assert parts[0] in parts && parts[1] in parts;
    assert NoDotParts(path) <==> NoDots(parts);
  }

  /** A prefix route may match within a part. What the part has left is then a dot part of its own behind a replacement
      that ends in a slash: every target is fit to print before the rewriting and none after it. */
  lemma RewrittenIntoDots(part: Bytes, dots: Bytes, last: Bytes, into: Bytes)
    requires PlainPart(part) && PlainPart(last) && PlainPart(into) && IsDots(dots)
    requires |part| > 0 && !IsDots(last) && !IsDots(into) && !IsDots(part + dots)
    requires |part| + |last| + 4 <= TARGET_MAX && |into| + |last| + 5 <= TARGET_MAX
    ensures var path, matched, replacement := TwoParts(part + dots, last), ['/'] + part, TwoParts(into, []);
      var target := NormalizedTarget(Origin, None, None, path, path);
      && ConfigPath(matched) && ConfigPath(replacement) && PathOk(replacement, replacement) && PathOk(path, path)
      && RewriteTarget(target, matched, Some(replacement)).Done?
      && var upstream := RewriteTarget(target, matched, Some(replacement)).value;
         !PathOk(upstream.pathAndQuery, upstream.routingPath)
  {
    hide PathOk;
    hide Split;
    hide ConfigPath;
    var path, matched, replacement := TwoParts(part + dots, last), ['/'] + part, TwoParts(into, []);
    var target := NormalizedTarget(Origin, None, None, path, path);
    TwoPartsIsPrintable(part + dots, last);
    TwoPartsIsPrintable(into, []);
    PlainConfigPath(matched);
    PlainConfigPath(replacement);
    assert path == matched + (dots + ['/'] + last) && Rest(path, matched) == dots + ['/'] + last;
    SplitTwo(dots, last);
    assert dots != [] && EndsBeforeDots(replacement, Rest(path, matched));
    hide EndsBeforeDots;
    hide RewriteOk;
    hide PlainPart;
    hide IsDots;
    PrintableReplacement(target, matched, replacement);
    RewrittenIsPrintable(target, matched, replacement);
  }

  lemma PlainConfigPath(text: Bytes)
    requires 1 <= |text| <= PATH_MAX && text[0] == '/'
    requires forall i :: 0 <= i < |text| ==> IsUnreserved(text[i]) || text[i] == '/'
    ensures ConfigPath(text)
  {
  }
}
