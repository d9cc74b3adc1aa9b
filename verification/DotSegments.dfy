/** Removing dot segments: with a stack of segments, and as section 5.2.4 of RFC 3986 writes it. */
module DotSegments {
  import opened Bytes
  import opened Http

  const DOT: Bytes := "."
  const DOTS: Bytes := ".."

  predicate IsDots(segment: Bytes) { segment == DOT || segment == DOTS }

  // ---------- the segment stack ----------

  /** One segment: a dot adds nothing, two dots take one away, and either leaves an empty segment at the end. */
  function Keep(kept: seq<Bytes>, segment: Bytes, last: bool): Option<seq<Bytes>> {
    if segment == DOT then Some(if last then kept + [[]] else kept)
    else if segment == DOTS then
      if kept == [] then None
      else Some(if last then kept[..|kept| - 1] + [[]] else kept[..|kept| - 1])
    else Some(kept + [segment])
  }

  /** The stack after the first `n` segments, or nothing once a segment was taken from an empty stack. */
  function Kept(segments: seq<Bytes>, n: nat): (kept: Option<seq<Bytes>>)
    requires n <= |segments|
    ensures kept.Some? && n == |segments| > 0 ==> kept.value != []
  {
    if n == 0 then Some([])
    else
      var before := Kept(segments, n - 1);
      if before.None? then None else Keep(before.value, segments[n - 1], n == |segments|)
  }

  function RemoveDots(segments: seq<Bytes>): Option<seq<Bytes>> {
    Kept(segments, |segments|)
  }

  lemma {:induction false} KeptStaysNone(segments: seq<Bytes>, n: nat)
    requires n <= |segments| && Kept(segments, n).None?
    ensures RemoveDots(segments).None?
    decreases |segments| - n
  {
    if n < |segments| { KeptStaysNone(segments, n + 1); }
  }

  // ---------- the depth counter ----------

  /** How many segments a dot segment of each kind counts for. */
  function DotKind(segment: Bytes): nat {
    if segment == DOT then 1 else if segment == DOTS then 2 else 0
  }

  function NextDepth(depth: nat, kind: nat): Option<nat> {
    if kind == 1 then Some(depth)
    else if kind == 2 then if depth == 0 then None else Some(depth - 1)
    else Some(depth + 1)
  }

  function Depth(segments: seq<Bytes>, n: nat): Option<nat>
    requires n <= |segments|
  {
    if n == 0 then Some(0)
    else
      var before := Depth(segments, n - 1);
      if before.None? then None else NextDepth(before.value, DotKind(segments[n - 1]))
  }

  /** The depth is the height of the stack, and it fails exactly where the stack would. */
  lemma {:induction false} DepthIsHeight(segments: seq<Bytes>, n: nat)
    requires n <= |segments|
    ensures Depth(segments, n).Some? <==> Kept(segments, n).Some?
    ensures n < |segments| && Depth(segments, n).Some? ==> |Kept(segments, n).value| == Depth(segments, n).value
  {
    if n > 0 { DepthIsHeight(segments, n - 1); }
  }

  lemma {:induction false} DepthStaysNone(segments: seq<Bytes>, n: nat)
    requires n <= |segments| && Depth(segments, n).None?
    ensures Depth(segments, |segments|).None?
    decreases |segments| - n
  {
    if n < |segments| { DepthStaysNone(segments, n + 1); }
  }

  // ---------- paths as text ----------

  /** The segments, each after a slash. */
  function Rendered(segments: seq<Bytes>): (text: Bytes) {
    if segments == [] then [] else Rendered(segments[..|segments| - 1]) + ['/'] + segments[|segments| - 1]
  }

  lemma RenderedSnoc(segments: seq<Bytes>, segment: Bytes)
    ensures Rendered(segments + [segment]) == Rendered(segments) + ['/'] + segment
  {
    assert (segments + [segment])[..|segments|] == segments;
  }

  lemma {:induction false} RenderedCons(segment: Bytes, segments: seq<Bytes>)
    ensures Rendered([segment] + segments) == ['/'] + segment + Rendered(segments)
  {
    if segments == [] {
      assert [segment] + segments == [] + [segment];
      RenderedSnoc([], segment);
      assert Rendered([]) == [];
    } else {
      var init, last := segments[..|segments| - 1], segments[|segments| - 1];
      RenderedCons(segment, init);
      assert [segment] + segments == ([segment] + init) + [last];
      RenderedSnoc([segment] + init, last);
    }
  }

  lemma {:induction false} JoinIsRendered(segments: seq<Bytes>)
    requires segments != []
    ensures ['/'] + Join(segments, '/') == Rendered(segments)
  {
    if |segments| == 1 {
      RenderedCons(segments[0], []);
      assert segments == [segments[0]] + [];
      assert Rendered([]) == [];
    } else {
      RenderedCons(segments[0], segments[1..]);
      assert segments == [segments[0]] + segments[1..];
      JoinIsRendered(segments[1..]);
    }
  }

  /** Dot removal never makes a path longer. */
  lemma {:induction false} KeptIsShorter(segments: seq<Bytes>, n: nat)
    requires n <= |segments| && Kept(segments, n).Some?
    ensures |Rendered(Kept(segments, n).value)| <= |Rendered(segments[..n])|
  {
    if n > 0 {
      KeptIsShorter(segments, n - 1);
      var before := Kept(segments, n - 1).value;
      var segment := segments[n - 1];
      assert segments[..n][..n - 1] == segments[..n - 1];
      if !IsDots(segment) {
        RenderedSnoc(before, segment);
      } else {
        RenderedSnoc(before, []);
        if before != [] { RenderedSnoc(before[..|before| - 1], []); }
      }
    }
  }

  // ---------- what is left has no dots ----------

  ghost predicate NoDots(segments: seq<Bytes>) {
    forall segment :: segment in segments ==> !IsDots(segment)
  }

  lemma {:induction false} KeptHasNoDots(segments: seq<Bytes>, n: nat)
    requires n <= |segments| && Kept(segments, n).Some?
    ensures NoDots(Kept(segments, n).value)
    ensures forall segment :: segment in Kept(segments, n).value ==> segment == [] || segment in segments
  {
    if n > 0 { KeptHasNoDots(segments, n - 1); }
  }

  lemma {:induction false} NoDotsIsKept(segments: seq<Bytes>, n: nat)
    requires n <= |segments| && NoDots(segments)
    ensures Kept(segments, n) == Some(segments[..n])
  {
    if n > 0 {
      NoDotsIsKept(segments, n - 1);
      assert segments[n - 1] in segments;
      assert segments[..n] == segments[..n - 1] + [segments[n - 1]];
    }
  }

  /** Removing dot segments twice is removing them once. */
  lemma RemoveDotsIdempotent(segments: seq<Bytes>)
    requires RemoveDots(segments).Some?
    ensures RemoveDots(RemoveDots(segments).value) == RemoveDots(segments)
  {
    KeptHasNoDots(segments, |segments|);
    var kept := RemoveDots(segments).value;
    NoDotsIsKept(kept, |kept|);
    assert kept[..|kept|] == kept;
  }

  // ---------- section 5.2.4 of RFC 3986 ----------

  /** Where the last slash is; the text up to it is what remains when a segment is removed. */
  function WithoutLastSegment(output: Bytes): Bytes {
    if output == [] then []
    else if output[|output| - 1] == '/' then output[..|output| - 1]
    else WithoutLastSegment(output[..|output| - 1])
  }

  datatype Removal = Removal(path: Bytes, clamped: bool)

  /** The algorithm over an input and an output buffer. `clamped` notes that a parent segment was asked for
      while the output was empty, where the algorithm silently stays at the root. */
  function RemoveDotSegments(input: Bytes, output: Bytes, clamped: bool): Removal
    decreases |input|
  {
    if input == [] then Removal(output, clamped)
    else if "../" <= input then RemoveDotSegments(input[3..], output, clamped)
    else if "./" <= input then RemoveDotSegments(input[2..], output, clamped)
    else if "/./" <= input then RemoveDotSegments(input[2..], output, clamped)
    else if input == "/." then RemoveDotSegments("/", output, clamped)
    else if "/../" <= input then RemoveDotSegments(input[3..], WithoutLastSegment(output), clamped || output == [])
    else if input == "/.." then RemoveDotSegments("/", WithoutLastSegment(output), clamped || output == [])
    else if IsDots(input) then RemoveDotSegments([], output, clamped)
    else
      var n := IndexFrom(input, '/', 1);
      RemoveDotSegments(input[n..], output + input[..n], clamped)
  }

  lemma {:induction false} LastSegmentRemoved(before: Bytes, segment: Bytes)
    requires '/' !in segment
    ensures WithoutLastSegment(before + ['/'] + segment) == before
  {
    var output := before + ['/'] + segment;
    if segment == [] {
      assert output[..|output| - 1] == before;
    } else {
      var init := segment[..|segment| - 1];
      assert output[|output| - 1] == segment[|segment| - 1];
      assert output[..|output| - 1] == before + ['/'] + init;
      LastSegmentRemoved(before, init);
    }
  }

  ghost predicate NoSlashes(segments: seq<Bytes>) {
    forall segment :: segment in segments ==> '/' !in segment
  }

  /** `input` begins with a slash and a segment that ends at `n`. */
  ghost predicate SegmentAt(input: Bytes, segment: Bytes, n: nat) {
    && n == 1 + |segment| <= |input| && input[0] == '/' && input[1..n] == segment
    && '/' !in segment && (n < |input| ==> input[n] == '/')
  }

  lemma DotPrefix(input: Bytes, segment: Bytes, n: nat)
    requires SegmentAt(input, segment, n)
    ensures "/./" <= input <==> segment == DOT && n < |input|
    ensures input == "/." <==> segment == DOT && n == |input|
  {
    assert forall k :: 1 <= k < n ==> input[k] == segment[k - 1];
    if "/./" <= input {
      assert input[1] == '.' && input[2] == '/';
      assert n == 2 && segment == [segment[0]];
    }
    if segment == DOT {
      assert input[..2] == "/.";
    }
  }

  lemma DotsPrefix(input: Bytes, segment: Bytes, n: nat)
    requires SegmentAt(input, segment, n)
    ensures "/../" <= input <==> segment == DOTS && n < |input|
    ensures input == "/.." <==> segment == DOTS && n == |input|
  {
    assert forall k :: 1 <= k < n ==> input[k] == segment[k - 1];
    if "/../" <= input {
      assert input[1] == '.' && input[2] == '.' && input[3] == '/';
      assert n == 3 && segment == [segment[0], segment[1]];
    }
    if segment == DOTS {
      assert input[..3] == "/..";
    }
  }

  lemma SegmentIsAt(segment: Bytes, rest: seq<Bytes>)
    requires '/' !in segment
    ensures var input := Rendered([segment] + rest);
      && input == ['/'] + segment + Rendered(rest) && SegmentAt(input, segment, 1 + |segment|)
      && (1 + |segment| == |input| <==> rest == [])
  {
    RenderedCons(segment, rest);
    if rest != [] {
      RenderedCons(rest[0], rest[1..]);
      assert rest == [rest[0]] + rest[1..];
    }
  }

  /** How the next segment of a path shows in its text. */
  lemma FirstSegment(segment: Bytes, rest: seq<Bytes>)
    requires '/' !in segment
    ensures var input := Rendered([segment] + rest);
      && input == ['/'] + segment + Rendered(rest)
      && !("../" <= input) && !("./" <= input) && !IsDots(input) && input != []
      && ("/./" <= input <==> segment == DOT && rest != []) && (input == "/." <==> segment == DOT && rest == [])
      && ("/../" <= input <==> segment == DOTS && rest != []) && (input == "/.." <==> segment == DOTS && rest == [])
      && IndexFrom(input, '/', 1) == 1 + |segment|
  {
    var input, n := Rendered([segment] + rest), 1 + |segment|;
    SegmentIsAt(segment, rest);
    DotPrefix(input, segment, n);
    DotsPrefix(input, segment, n);
    assert IndexFrom(input, '/', 1) == n by {
      assert forall k :: 1 <= k < n ==> input[k] == segment[k - 1];
      IndexFromFirst(input, '/', 1);
    }
  }

  /** The empty last segment is moved to the output. */
  lemma SlashIsMoved(output: Bytes, clamped: bool)
    ensures RemoveDotSegments("/", output, clamped) == Removal(output + ['/'], clamped)
  {
    var slash: Bytes := "/";
    assert IndexFrom(slash, '/', 1) == 1 && slash[1..] == [] && slash[..1] == ['/'];
    assert RemoveDotSegments([], output + ['/'], clamped) == Removal(output + ['/'], clamped);
  }

  lemma StackIsOutput(kept: seq<Bytes>)
    requires NoSlashes(kept)
    ensures kept != [] ==> WithoutLastSegment(Rendered(kept)) == Rendered(kept[..|kept| - 1])
    ensures Rendered(kept) == [] <==> kept == []
    ensures Rendered(kept) + ['/'] == Rendered(kept + [[]])
  {
    RenderedSnoc(kept, []);
    if kept != [] {
      assert kept[|kept| - 1] in kept;
      LastSegmentRemoved(Rendered(kept[..|kept| - 1]), kept[|kept| - 1]);
    }
  }

  lemma RfcClimbs(rest: seq<Bytes>)
    ensures RemoveDotSegments(Rendered([DOTS] + rest), [], false).clamped
  {
    FirstSegment(DOTS, rest);
    var input := Rendered([DOTS] + rest);
    if rest == [] { SlashIsMoved([], true); } else { StaysClamped(input[3..], []); }
  }

  /** The algorithm follows the stack for as long as the stack does not fail. */
  lemma {:induction false} RfcFollowsStack(segments: seq<Bytes>, n: nat)
    requires n <= |segments| && NoSlashes(segments) && Kept(segments, n).Some?
    requires n < |segments| ==> NoSlashes(Kept(segments, n).value)
    ensures n < |segments| ==>
      var r := RemoveDotSegments(Rendered(segments[n..]), Rendered(Kept(segments, n).value), false);
      && (RemoveDots(segments).Some? <==> !r.clamped)
      && (RemoveDots(segments).Some? ==> r.path == Rendered(RemoveDots(segments).value))
    decreases |segments| - n
  {
    if n < |segments| {
      var kept, segment, rest := Kept(segments, n).value, segments[n], segments[n + 1..];
      assert segment in segments;
      assert segments[n..] == [segment] + rest;
      var next := Kept(segments, n + 1);
      if next.None? {
        KeptStaysNone(segments, n + 1);
        RfcClimbs(rest);
      } else if rest == [] {
        RfcLastStep(kept, segment);
      } else {
        RfcStep(kept, segment, rest);
        RfcFollowsStack(segments, n + 1);
      }
    }
  }

  lemma RfcStep(kept: seq<Bytes>, segment: Bytes, rest: seq<Bytes>)
    requires NoSlashes(kept) && '/' !in segment && rest != [] && Keep(kept, segment, false).Some?
    ensures RemoveDotSegments(Rendered([segment] + rest), Rendered(kept), false) ==
            RemoveDotSegments(Rendered(rest), Rendered(Keep(kept, segment, false).value), false)
  {
    FirstSegment(segment, rest);
    StackIsOutput(kept);
    var input := Rendered([segment] + rest);
    var n := 1 + |segment|;
    assert input[n..] == Rendered(rest) && input[..n] == ['/'] + segment;
    RenderedSnoc(kept, segment);
    ConcatAssociates(Rendered(kept), ['/'], segment);
  }

  lemma RfcLastStep(kept: seq<Bytes>, segment: Bytes)
    requires NoSlashes(kept) && '/' !in segment && Keep(kept, segment, true).Some?
    ensures RemoveDotSegments(Rendered([segment]), Rendered(kept), false) ==
            Removal(Rendered(Keep(kept, segment, true).value), false)
  {
    FirstSegment(segment, []);
    assert [segment] + [] == [segment];
    StackIsOutput(kept);
    if segment == DOT {
      SlashIsMoved(Rendered(kept), false);
    } else if segment == DOTS {
      StackIsOutput(kept[..|kept| - 1]);
      SlashIsMoved(Rendered(kept[..|kept| - 1]), false);
    } else {
      var input := Rendered([segment]);
      var n := 1 + |segment|;
      assert input[n..] == [] && input[..n] == ['/'] + segment;
      RenderedSnoc(kept, segment);
      ConcatAssociates(Rendered(kept), ['/'], segment);
    }
  }

  lemma {:induction false} StaysClamped(input: Bytes, output: Bytes)
    ensures RemoveDotSegments(input, output, true).clamped
    decreases |input|
  {
    if input == [] {
    } else if "../" <= input {
      StaysClamped(input[3..], output);
    } else if "./" <= input {
      StaysClamped(input[2..], output);
    } else if "/./" <= input {
      StaysClamped(input[2..], output);
    } else if input == "/." {
      StaysClamped("/", output);
    } else if "/../" <= input {
      StaysClamped(input[3..], WithoutLastSegment(output));
    } else if input == "/.." {
      StaysClamped("/", WithoutLastSegment(output));
    } else if IsDots(input) {
      StaysClamped([], output);
    } else {
      var n := IndexFrom(input, '/', 1);
      StaysClamped(input[n..], output + input[..n]);
    }
  }

  /** On an absolute path the stack yields what section 5.2.4 of RFC 3986 yields, and it refuses exactly the paths
      on which that algorithm would have to climb above the root. */
  lemma StackIsRfc(segments: seq<Bytes>)
    requires segments != [] && NoSlashes(segments)
    ensures var r := RemoveDotSegments(Rendered(segments), [], false);
      && (RemoveDots(segments).Some? <==> !r.clamped)
      && (RemoveDots(segments).Some? ==> r.path == Rendered(RemoveDots(segments).value))
  {
    assert segments[0..] == segments;
    RfcFollowsStack(segments, 0);
    assert Rendered([]) == [];
  }
}
