/** The header parser that records facts about each byte of a line and decides each line once, from a table. */
module HeaderDecisionTable {
  import opened Bytes
  import opened Http
  import opened HeaderSection
  import opened HeaderFacts

  datatype FieldPart = InName | InValue

  datatype WireByte = Colon | Ows | TokenByte | ValueOnly | Forbidden

  datatype LineFacts = LineFacts(
    colon: Option<nat>,
    nameHasWhitespace: bool,
    nameHasInvalidByte: bool,
    valueHasInvalidByte: bool,
    firstValueContent: Option<nat>,
    lastValueContent: nat)

  datatype LineDecision = Accept(layout: FieldLayout) | Reject(reason: Reason) | NameLimit(actual: nat) | ValueLimit(actual: nat)

  function Classify(byte: Byte): WireByte {
    if byte == ':' then Colon
    else if byte == ' ' || byte == '\t' then Ows
    else if IsToken(byte) then TokenByte
    else if '!' <= byte <= '~' || byte as int >= 128 then ValueOnly
    else Forbidden
  }

  function ObserveByte(part: FieldPart, byte: WireByte, index: nat, facts: LineFacts): LineFacts {
    match (part, byte)
    case (InName, Colon) => facts.(colon := Some(index))
    case (InName, Ows) => facts.(nameHasWhitespace := true)
    case (InName, TokenByte) => facts
    case (InName, _) => facts.(nameHasInvalidByte := true)
    case (InValue, Forbidden) => facts.(valueHasInvalidByte := true)
    case (InValue, Ows) => facts
    case (InValue, _) =>
      facts.(firstValueContent := if facts.firstValueContent.Some? then facts.firstValueContent else Some(index),
             lastValueContent := index + 1)
  }

  // ---------- what the facts say about the bytes seen so far ----------

  function Least(a: nat, b: nat): nat { if a < b then a else b }

  ghost predicate FactsHold(input: Bytes, start: nat, colon: nat, i: nat, part: FieldPart, facts: LineFacts)
    requires i <= |input|
  {
    && part == (if colon < i then InValue else InName)
    && facts.colon == (if colon < i then Some(colon) else None)
    && (facts.nameHasWhitespace <==> AnyOws(input, start, Least(i, colon)))
    && (facts.nameHasInvalidByte <==> AnyBadName(input, start, Least(i, colon)))
    && (facts.valueHasInvalidByte <==> AnyBadValue(input, colon + 1, i))
    && (facts.firstValueContent.Some? ==> facts.firstValueContent.value < facts.lastValueContent <= i)
    && (!facts.valueHasInvalidByte ==> ContentIs(input, colon + 1, i, facts.firstValueContent, facts.lastValueContent))
  }

  lemma ClassesAgree(byte: Byte)
    ensures Classify(byte) == Ows <==> IsOws(byte)
    ensures Classify(byte) == Forbidden <==> !IsFieldValue(byte)
    ensures byte != ':' ==> (Classify(byte) == TokenByte <==> IsToken(byte))
  {
  }

  lemma ObserveName(input: Bytes, start: nat, end: nat, colon: nat, i: nat, facts: LineFacts)
    requires FirstColon(input, start, end, colon) && start <= i < colon
    requires FactsHold(input, start, colon, i, InName, facts)
    ensures FactsHold(input, start, colon, i + 1, InName, ObserveByte(InName, Classify(input[i]), i, facts))
  {
    ClassesAgree(input[i]);
    assert AnyOws(input, start, i + 1) <==> AnyOws(input, start, i) || IsOws(input[i]);
    assert AnyBadName(input, start, i + 1) <==> AnyBadName(input, start, i) || (!IsOws(input[i]) && !IsToken(input[i]));
  }

  lemma ObserveValue(input: Bytes, start: nat, end: nat, colon: nat, i: nat, facts: LineFacts)
    requires FirstColon(input, start, end, colon) && colon < i < end
    requires FactsHold(input, start, colon, i, InValue, facts)
    ensures FactsHold(input, start, colon, i + 1, InValue, ObserveByte(InValue, Classify(input[i]), i, facts))
  {
    ClassesAgree(input[i]);
    assert AnyBadValue(input, colon + 1, i + 1) <==> AnyBadValue(input, colon + 1, i) || !IsFieldValue(input[i]);
  }

  function NextPart(part: FieldPart, byte: WireByte): FieldPart {
    if part.InName? && byte.Colon? then InValue else part
  }

  lemma ObserveNext(input: Bytes, start: nat, end: nat, colon: nat, i: nat, part: FieldPart, facts: LineFacts)
    requires FirstColon(input, start, end, colon) && start <= i < end
    requires FactsHold(input, start, colon, i, part, facts)
    ensures FactsHold(input, start, colon, i + 1, NextPart(part, Classify(input[i])),
                      ObserveByte(part, Classify(input[i]), i, facts))
  {
    if i < colon {
      ObserveName(input, start, end, colon, i, facts);
    } else if i > colon {
      ObserveValue(input, start, end, colon, i, facts);
    }
  }

  /** The table: one row per outcome, first match wins. */
  function Decide(beginsWithOws: bool, facts: LineFacts, start: nat, end: nat): LineDecision
    requires facts.colon.Some? ==> start <= facts.colon.value
    requires facts.firstValueContent.Some? ==> facts.firstValueContent.value <= facts.lastValueContent
  {
    var valueStart := if facts.firstValueContent.Some? then facts.firstValueContent.value else end;
    var valueEnd := if facts.firstValueContent.Some? then facts.lastValueContent else end;
    if beginsWithOws then Reject(ObsFold)
    else if facts.colon.None? then Reject(InvalidName)
    else if facts.colon.value == start then Reject(InvalidName)
    else if facts.colon.value - start > NAME_MAX then NameLimit(facts.colon.value - start)
    else if facts.nameHasWhitespace then Reject(WhitespaceBeforeColon)
    else if facts.nameHasInvalidByte then Reject(InvalidName)
    else if facts.valueHasInvalidByte then Reject(InvalidValueByte)
    else if valueEnd - valueStart > VALUE_MAX then ValueLimit(valueEnd - valueStart)
    else Accept(FieldLayout(start, facts.colon.value, valueStart, valueEnd))
  }

  /** A decision stands for what the line means. */
  ghost predicate Decides(input: Bytes, start: nat, decision: LineDecision, field: Result<HeaderField>) {
    match decision
    case Accept(layout) => LayoutOk(input, layout) && field.Ok? && field.value == LayoutField(input, layout)
    case Reject(reason) => field == Err(InvalidHeader(start, reason))
    case NameLimit(actual) => field == Err(LimitExceeded(HeaderNameBytes, NAME_MAX, actual))
    case ValueLimit(actual) => field == Err(LimitExceeded(HeaderValueBytes, VALUE_MAX, actual))
  }

  /** The table's row for these facts is the outcome of checking the name and then the value. */
  lemma RowsMatch(input: Bytes, start: nat, end: nat, facts: LineFacts, name: Result<Bytes>, value: Result<Bytes>,
                  content: Bytes, field: Result<HeaderField>)
    requires start < end <= |input| && facts.colon.Some? && start <= facts.colon.value < end
    requires facts.firstValueContent.Some? ==> facts.firstValueContent.value < facts.lastValueContent <= end
    requires content == if facts.firstValueContent.Some? then input[facts.firstValueContent.value..facts.lastValueContent] else []
    requires var n := facts.colon.value - start;
      name ==
        if n == 0 then Err(InvalidHeader(start, InvalidName))
        else if n > NAME_MAX then Err(LimitExceeded(HeaderNameBytes, NAME_MAX, n))
        else if facts.nameHasWhitespace then Err(InvalidHeader(start, WhitespaceBeforeColon))
        else if facts.nameHasInvalidByte then Err(InvalidHeader(start, InvalidName))
        else Ok(LowerAll(input[start..facts.colon.value]))
    requires facts.valueHasInvalidByte ==> value == Err(InvalidHeader(start, InvalidValueByte))
    requires !facts.valueHasInvalidByte ==>
      value == if |content| > VALUE_MAX then Err(LimitExceeded(HeaderValueBytes, VALUE_MAX, |content|)) else Ok(content)
    requires field ==
      if IsOws(input[start]) then Err(InvalidHeader(start, ObsFold))
      else if name.Err? then Err(name.error) else if value.Err? then Err(value.error)
      else Ok(HeaderField(name.value, value.value))
    ensures Decides(input, start, Decide(IsOws(input[start]), facts, start, end), field)
  {
    assert input[end..end] == [];
  }

  lemma FactsDecide(input: Bytes, start: nat, end: nat, colon: nat, part: FieldPart, facts: LineFacts)
    requires start < end && FirstColon(input, start, end, colon) && FactsHold(input, start, colon, end, part, facts)
    ensures Decides(input, start, Decide(IsOws(input[start]), facts, start, end), FieldOf(input[start..end], start))
  {
    LineSplits(input, start, end, colon, start);
    if colon < end {
      NameFacts(input, start, colon, start);
      ValueFacts(input, start, colon + 1, end, facts.valueHasInvalidByte, facts.firstValueContent, facts.lastValueContent);
      var content := if facts.firstValueContent.Some? then input[facts.firstValueContent.value..facts.lastValueContent] else [];
      RowsMatch(input, start, end, facts, NameOf(input[start..colon], start), ValueOf(input[colon + 1..end], start),
                content, FieldOf(input[start..end], start));
    }
  }

  method DecideLine(input: Bytes, start: nat, end: nat) returns (decision: LineDecision)
    requires start < end <= |input|
    ensures Decides(input, start, decision, FieldOf(input[start..end], start))
  {
    var beginsWithOws := IsOws(input[start]);
    var part := InName;
    var facts := LineFacts(None, false, false, false, None, start);
    ghost var colon := start + IndexOf(input[start..end], ':');
    assert FirstColon(input, start, end, colon) by {
      IndexOfFirst(input[start..end], ':');
      assert forall k :: start <= k < end ==> input[k] == input[start..end][k - start];
    }
    for index := start to end
      invariant FactsHold(input, start, colon, index, part, facts)
    {
      var class_ := Classify(input[index]);
      ObserveNext(input, start, end, colon, index, part, facts);
      facts := ObserveByte(part, class_, index, facts);
      part := NextPart(part, class_);
    }
    FactsDecide(input, start, end, colon, part, facts);
    decision := Decide(beginsWithOws, facts, start, end);
  }

  method FindCrlf(input: Bytes, lineStart: nat) returns (r: Result<nat>)
    requires lineStart <= |input| && lineStart <= SECTION_MAX
    ensures r == LineEnd(input, lineStart)
  {
    var index := lineStart;
    while true
      invariant lineStart <= index <= |input| && index <= SECTION_MAX
      invariant forall k :: lineStart <= k < index ==> !IsBreak(input[k])
      decreases |input| - index
    {
      if index == SECTION_MAX || index == |input| || IsBreak(input[index]) {
        if index < SECTION_MAX || index == |input| { LineBreakIs(input, lineStart, index); }
        LineBreakFirst(input, lineStart);
      }
      if index == SECTION_MAX {
        return if index == |input| then Err(Incomplete)
               else Err(LimitExceeded(HeaderSectionBytes, SECTION_MAX, SECTION_MAX + 1));
      }
      if index == |input| { return Err(Incomplete); }
      if input[index] == '\n' { return Err(InvalidHeader(lineStart, BareLineEnding)); }
      if input[index] == '\r' {
        if index + 1 >= |input| || input[index + 1] != '\n' {
          return Err(InvalidHeader(lineStart, BareLineEnding));
        }
        var next := index + 2;
        if next > SECTION_MAX { return Err(LimitExceeded(HeaderSectionBytes, SECTION_MAX, next)); }
        return Ok(index);
      }
      index := index + 1;
    }
  }

  /** The first rows of the table stand for the fields read so far. */
  ghost predicate TableHolds(input: Bytes, layouts: array<FieldLayout>, fields: seq<HeaderField>)
    reads layouts
  {
    |fields| <= layouts.Length && forall i :: 0 <= i < |fields| ==> StandsFor(input, layouts[i], fields[i])
  }

  /** Layouts fill a fixed table while the section is validated; fields are built only at the end. */
  method ParseByTable(input: Bytes) returns (r: Result<HeaderBlock>)
    ensures r == ParseSection(input)
  {
    var layouts := new FieldLayout[FIELD_MAX](_ => FieldLayout(0, 0, 0, 0));
    var count := 0;
    var lineStart := 0;
    ghost var fields: seq<HeaderField> := [];
    while true
      invariant count == |fields| <= FIELD_MAX && lineStart <= |input| && lineStart <= SECTION_MAX
      invariant TableHolds(input, layouts, fields)
      invariant ParseFrom(input, lineStart, fields) == ParseSection(input)
      decreases |input| - lineStart
    {
      var lineEnd := FindCrlf(input, lineStart);
      if lineEnd.Err? { return Err(lineEnd.error); }
      var end := lineEnd.value;
      if end == lineStart {
        var built := BuildFields(input, layouts, count, fields);
        return Ok(HeaderBlock(built, end + 2));
      }
      if count == FIELD_MAX { return Err(TooManyHeaders); }
      var refused := StoreLine(input, layouts, lineStart, end, count, fields);
      if refused.Some? { return Err(refused.value); }
      ghost var field := FieldOf(input[lineStart..end], lineStart).value;
      ParseStep(input, lineStart, fields, end, field);
      fields := fields + [field];
      count := count + 1;
      lineStart := end + 2;
    }
  }

  /** Decides one line and, when it is a field, stores its layout. */
  method StoreLine(input: Bytes, layouts: array<FieldLayout>, start: nat, end: nat, count: nat, ghost fields: seq<HeaderField>)
    returns (refused: Option<PolyguardError>)
    requires start < end <= |input| && count == |fields| < layouts.Length && TableHolds(input, layouts, fields)
    modifies layouts
    ensures refused.Some? ==> FieldOf(input[start..end], start) == Err(refused.value)
    ensures refused.None? ==>
      && FieldOf(input[start..end], start).Ok?
      && TableHolds(input, layouts, fields + [FieldOf(input[start..end], start).value])
  {
    var decision := DecideLine(input, start, end);
    match decision
    case Accept(layout) =>
      layouts[count] := layout;
      return None;
    case Reject(reason) => return Some(InvalidHeader(start, reason));
    case NameLimit(actual) => return Some(LimitExceeded(HeaderNameBytes, NAME_MAX, actual));
    case ValueLimit(actual) => return Some(LimitExceeded(HeaderValueBytes, VALUE_MAX, actual));
  }

  method BuildFields(input: Bytes, layouts: array<FieldLayout>, count: nat, ghost fields: seq<HeaderField>)
    returns (built: seq<HeaderField>)
    requires count == |fields| && TableHolds(input, layouts, fields)
    ensures built == fields
  {
    built := [];
    for i := 0 to count
      invariant built == fields[..i]
    {
      assert StandsFor(input, layouts[i], fields[i]);
      built := built + [LayoutField(input, layouts[i])];
    }
  }
}
