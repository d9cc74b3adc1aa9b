/** What the offset-based header parsers must know about a line, and what their offsets stand for. */
module HeaderFacts {
  import opened Bytes
  import opened Http
  import opened HeaderSection

  datatype FieldLayout = FieldLayout(nameStart: nat, nameEnd: nat, valueStart: nat, valueEnd: nat)

  ghost predicate AnyOws(input: Bytes, a: nat, b: nat)
    requires b <= |input|
  {
    exists k :: a <= k < b && IsOws(input[k])
  }

  ghost predicate AnyBadName(input: Bytes, a: nat, b: nat)
    requires b <= |input|
  {
    exists k :: a <= k < b && !IsOws(input[k]) && !IsToken(input[k])
  }

  ghost predicate AnyBadValue(input: Bytes, a: nat, b: nat)
    requires b <= |input|
  {
    exists k :: a <= k < b && !IsFieldValue(input[k])
  }

  /** The value content seen in `input[a..b]`: from its first to its last byte that is not whitespace. */
  ghost predicate ContentIs(input: Bytes, a: nat, b: nat, first: Option<nat>, last: nat)
    requires b <= |input|
  {
    match first
    case None => forall k :: a <= k < b ==> IsOws(input[k])
    case Some(f) =>
      && a <= f < last <= b && !IsOws(input[f]) && !IsOws(input[last - 1])
      && (forall k :: a <= k < f ==> IsOws(input[k])) && (forall k :: last <= k < b ==> IsOws(input[k]))
  }

  /** `colon` is where the first colon of the line is, or the end of the line. */
  ghost predicate FirstColon(input: Bytes, start: nat, end: nat, colon: nat) {
    && start <= colon <= end <= |input|
    && (colon < end ==> input[colon] == ':') && forall k :: start <= k < colon ==> input[k] != ':'
  }

  ghost predicate LayoutOk(input: Bytes, layout: FieldLayout) {
    layout.nameStart <= layout.nameEnd <= |input| && layout.valueStart <= layout.valueEnd <= |input|
  }

  function LayoutField(input: Bytes, layout: FieldLayout): HeaderField
    requires LayoutOk(input, layout)
  {
    HeaderField(LowerAll(input[layout.nameStart..layout.nameEnd]), input[layout.valueStart..layout.valueEnd])
  }

  ghost predicate StandsFor(input: Bytes, layout: FieldLayout, field: HeaderField) {
    LayoutOk(input, layout) && field == LayoutField(input, layout)
  }

  lemma NameFacts(input: Bytes, start: nat, colon: nat, at: nat)
    requires start <= colon <= |input|
    ensures NameOf(input[start..colon], at) ==
      if colon == start then Err(InvalidHeader(at, InvalidName))
      else if colon - start > NAME_MAX then Err(LimitExceeded(HeaderNameBytes, NAME_MAX, colon - start))
      else if AnyOws(input, start, colon) then Err(InvalidHeader(at, WhitespaceBeforeColon))
      else if AnyBadName(input, start, colon) then Err(InvalidHeader(at, InvalidName))
      else Ok(LowerAll(input[start..colon]))
  {
    var name := input[start..colon];
    assert forall k :: start <= k < colon ==> input[k] == name[k - start];
    assert HasOws(name) <==> AnyOws(input, start, colon);
    assert !HasOws(name) ==> (AllToken(name) <==> !AnyBadName(input, start, colon));
  }

  lemma ContentIsTrimmed(input: Bytes, a: nat, b: nat, first: Option<nat>, last: nat)
    requires a <= b <= |input| && ContentIs(input, a, b, first, last)
    ensures TrimOws(input[a..b]) == if first.Some? then input[first.value..last] else []
  {
    var value := input[a..b];
    assert forall k :: a <= k < b ==> input[k] == value[k - a];
    if first.Some? {
      TrimOwsIs(value, first.value - a, last - a);
      assert value[first.value - a..last - a] == input[first.value..last];
    } else {
      TrimOwsIs(value, b - a, b - a);
    }
  }

  lemma ValueFacts(input: Bytes, at: nat, a: nat, b: nat, bad: bool, first: Option<nat>, last: nat)
    requires a <= b <= |input| && (bad <==> AnyBadValue(input, a, b))
    requires !bad ==> ContentIs(input, a, b, first, last)
    ensures bad ==> ValueOf(input[a..b], at) == Err(InvalidHeader(at, InvalidValueByte))
    ensures !bad ==>
      var content := if first.Some? then input[first.value..last] else [];
      ValueOf(input[a..b], at) ==
        if |content| > VALUE_MAX then Err(LimitExceeded(HeaderValueBytes, VALUE_MAX, |content|)) else Ok(content)
  {
    var value := input[a..b];
    assert forall k :: a <= k < b ==> input[k] == value[k - a];
    assert AllFieldValue(value) <==> !AnyBadValue(input, a, b);
    if !bad { ContentIsTrimmed(input, a, b, first, last); }
  }

  lemma LineSplits(input: Bytes, start: nat, end: nat, colon: nat, at: nat)
    requires start < end && FirstColon(input, start, end, colon)
    ensures FieldOf(input[start..end], at) ==
      if IsOws(input[start]) then Err(InvalidHeader(at, ObsFold))
      else if colon == end then Err(InvalidHeader(at, InvalidName))
      else
        var name := NameOf(input[start..colon], at);
        var value := ValueOf(input[colon + 1..end], at);
        if name.Err? then Err(name.error) else if value.Err? then Err(value.error)
        else Ok(HeaderField(name.value, value.value))
  {
    var line := input[start..end];
    IndexOfUnique(line, ':', colon - start);
    if colon < end {
      assert line[..colon - start] == input[start..colon] && line[colon - start + 1..] == input[colon + 1..end];
    }
  }
}
