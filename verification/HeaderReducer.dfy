/** The two-phase header parser written as two reductions: a framing machine over bytes and a fold over each line. */
module HeaderReducer {
  import opened Bytes
  import opened Http
  import opened HeaderSection
  import opened HeaderFacts
  import opened HeaderPhases

  // ---------- the framing machine ----------

  datatype FramingState =
    | AtStart(offset: nat)
    | LineData(offset: nat)
    | AfterCarriageReturn(offset: nat, empty: bool)

  datatype FramingTransition = Continue(next: FramingState) | Complete | Stray

  function FramingStep(state: FramingState, index: nat, byte: Byte): FramingTransition {
    match state
    case AtStart(offset) =>
      if byte == '\r' then Continue(AfterCarriageReturn(offset, true))
      else if byte == '\n' then Stray
      else Continue(LineData(offset))
    case LineData(offset) =>
      if byte == '\r' then Continue(AfterCarriageReturn(offset, false))
      else if byte == '\n' then Stray
      else Continue(LineData(offset))
    case AfterCarriageReturn(offset, empty) =>
      if byte != '\n' then Stray
      else if empty then Complete
      else Continue(AtStart(index + 1))
  }

  /** How many lines come before the empty one. */
  function LineCount(input: Bytes, start: nat): nat
    requires start <= |input|
    decreases |input| - start
  {
    var end := LineEnd(input, start);
    if end.Err? || end.value == start then 0 else 1 + LineCount(input, end.value + 2)
  }

  ghost predicate Framed(input: Bytes, cursor: nat, state: FramingState)
    requires cursor <= |input|
  {
    match state
    case AtStart(offset) => offset == cursor
    case LineData(offset) => offset < cursor && forall k :: offset <= k < cursor ==> !IsBreak(input[k])
    case AfterCarriageReturn(offset, empty) =>
      && offset < cursor && input[cursor - 1] == '\r' && (empty <==> offset == cursor - 1)
      && forall k :: offset <= k < cursor - 1 ==> !IsBreak(input[k])
  }

  datatype SectionEnvelope = SectionEnvelope(bytesConsumed: nat, fieldCount: nat)

  /** A CR as the last byte within the limit, followed by something that is not LF. */
  ghost predicate StrayAtLimit(input: Bytes) {
    |input| > SECTION_MAX && input[SECTION_MAX - 1] == '\r' && input[SECTION_MAX] != '\n'
  }

  /** One verdict on where the section ends, and one more way to phrase a refusal at the limit. */
  ghost predicate FramingVerdict(input: Bytes, r: Result<SectionEnvelope>) {
    match r
    case Ok(envelope) =>
      BoundaryFrom(input, 0) == Ok(envelope.bytesConsumed) && envelope.fieldCount == LineCount(input, 0)
    case Err(error) =>
      BoundaryFrom(input, 0).Err? && (BoundaryFrom(input, 0) == Err(error) || StrayAtLimit(input))
  }

  lemma OutOfBytes(input: Bytes, cursor: nat, state: FramingState)
    requires cursor == |input| <= SECTION_MAX && Framed(input, cursor, state)
    ensures BoundaryFrom(input, state.offset) ==
      Err(if state.AfterCarriageReturn? then InvalidHeader(state.offset, BareLineEnding) else Incomplete)
  {
    LineBreakIs(input, state.offset, if state.AfterCarriageReturn? then cursor - 1 else cursor);
  }

  lemma OverTheLimit(input: Bytes, state: FramingState)
    requires SECTION_MAX < |input| && Framed(input, SECTION_MAX, state)
    ensures var refused := BoundaryFrom(input, state.offset);
      && refused.Err?
      && (refused == Err(LimitExceeded(HeaderSectionBytes, SECTION_MAX, SECTION_MAX + 1)) || StrayAtLimit(input))
  {
    LineBreakFirst(input, state.offset);
    if state.AfterCarriageReturn? { LineBreakIs(input, state.offset, SECTION_MAX - 1); }
  }

  lemma StrayByte(input: Bytes, cursor: nat, state: FramingState)
    requires cursor < |input| && cursor < SECTION_MAX && Framed(input, cursor, state)
    requires FramingStep(state, cursor, input[cursor]).Stray?
    ensures BoundaryFrom(input, state.offset) == Err(InvalidHeader(state.offset, BareLineEnding))
  {
    LineBreakIs(input, state.offset, if state.AfterCarriageReturn? then cursor - 1 else cursor);
  }

  /** A line feed after a carriage return ends a line, and after an empty line the section. */
  lemma LineFeed(input: Bytes, cursor: nat, state: FramingState)
    requires cursor < |input| && cursor < SECTION_MAX && Framed(input, cursor, state)
    requires state.AfterCarriageReturn? && input[cursor] == '\n'
    ensures LineEnd(input, state.offset) == Ok(cursor - 1)
  {
    LineBreakIs(input, state.offset, cursor - 1);
  }

  method ValidateFraming(input: Bytes) returns (r: Result<SectionEnvelope>)
    ensures FramingVerdict(input, r)
  {
    var state := AtStart(0);
    var cursor := 0;
    var fieldCount := 0;
    while true
      invariant cursor <= |input| && cursor <= SECTION_MAX && state.offset <= cursor && Framed(input, cursor, state)
      invariant BoundaryFrom(input, state.offset) == BoundaryFrom(input, 0)
      invariant fieldCount + LineCount(input, state.offset) == LineCount(input, 0)
      decreases |input| - cursor
    {
      if cursor == SECTION_MAX {
        if cursor < |input| {
          OverTheLimit(input, state);
          return Err(LimitExceeded(HeaderSectionBytes, SECTION_MAX, SECTION_MAX + 1));
        }
        OutOfBytes(input, cursor, state);
        return Err(if state.AfterCarriageReturn? then InvalidHeader(state.offset, BareLineEnding) else Incomplete);
      }
      if cursor == |input| {
        OutOfBytes(input, cursor, state);
        return Err(if state.AfterCarriageReturn? then InvalidHeader(state.offset, BareLineEnding) else Incomplete);
      }
      if state.AfterCarriageReturn? && input[cursor] == '\n' { LineFeed(input, cursor, state); }
      var transition := FramingStep(state, cursor, input[cursor]);
      match transition
      case Continue(next) =>
        if state.AfterCarriageReturn? && !state.empty && next.AtStart? {
          fieldCount := fieldCount + 1;
        }
        state := next;
        cursor := cursor + 1;
      case Complete => return Ok(SectionEnvelope(cursor + 1, fieldCount));
      case Stray =>
        StrayByte(input, cursor, state);
        return Err(InvalidHeader(state.offset, BareLineEnding));
    }
  }

  // ---------- reducing one line ----------

  datatype NameFold = NameFold(length: nat, hasWhitespace: bool, hasInvalid: bool)

  datatype ValueFold = ValueFold(name: NameFold, colon: nat, firstContent: Option<nat>, contentEnd: nat, hasInvalid: bool)

  datatype FieldState = NamePart(name: NameFold) | ValuePart(value: ValueFold)

  const INITIAL := NamePart(NameFold(0, false, false))

  function FieldStep(state: FieldState, index: nat, byte: Byte): FieldState {
    var isOws := byte == ' ' || byte == '\t';
    match state
    case NamePart(facts) =>
      if byte == ':' then ValuePart(ValueFold(facts, index, None, index + 1, false))
      else NamePart(NameFold(facts.length + 1, facts.hasWhitespace || isOws, facts.hasInvalid || !IsToken(byte)))
    case ValuePart(facts) =>
      ValuePart(facts.(
        firstContent := if facts.firstContent.Some? then facts.firstContent else if isOws then None else Some(index),
        contentEnd := if isOws then facts.contentEnd else index + 1,
        hasInvalid := facts.hasInvalid || !IsFieldValue(byte)))
  }

  /** The fold of the step over the first `n` bytes. */
  function Folded(line: Bytes, n: nat): FieldState
    requires n <= |line|
  {
    if n == 0 then INITIAL else FieldStep(Folded(line, n - 1), n - 1, line[n - 1])
  }

  function DecideField(state: FieldState, lineStart: nat, length: nat): Result<FieldLayout> {
    if state.NamePart? || state.value.colon == 0 then Err(InvalidHeader(lineStart, InvalidName))
    else
      var facts := state.value;
      var first := if facts.firstContent.Some? then facts.firstContent.value else length;
      var last := if facts.firstContent.Some? then facts.contentEnd else length;
      if facts.name.length > NAME_MAX then Err(LimitExceeded(HeaderNameBytes, NAME_MAX, facts.name.length))
      else if facts.name.hasWhitespace then Err(InvalidHeader(lineStart, WhitespaceBeforeColon))
      else if facts.name.hasInvalid then Err(InvalidHeader(lineStart, InvalidName))
      else if facts.hasInvalid then Err(InvalidHeader(lineStart, InvalidValueByte))
      else if last - first > VALUE_MAX then Err(LimitExceeded(HeaderValueBytes, VALUE_MAX, last - first))
      else Ok(FieldLayout(lineStart, lineStart + facts.colon, lineStart + first, lineStart + last))
  }

  function ReduceField(line: Bytes, lineStart: nat): Result<FieldLayout> {
    if line != [] && IsOws(line[0]) then Err(InvalidHeader(lineStart, ObsFold))
    else DecideField(Folded(line, |line|), lineStart, |line|)
  }

  ghost predicate NameFolded(line: Bytes, n: nat, facts: NameFold)
    requires n <= |line|
  {
    && facts.length == n && (facts.hasWhitespace <==> AnyOws(line, 0, n))
    && (facts.hasInvalid <==> AnyOws(line, 0, n) || AnyBadName(line, 0, n))
  }

  /** What the fold has learned from the first `n` bytes of a line whose first colon is at `colon`. */
  ghost predicate FoldHolds(line: Bytes, colon: nat, n: nat, state: FieldState)
    requires n <= |line| && colon <= |line|
  {
    if n <= colon then state.NamePart? && NameFolded(line, n, state.name)
    else
      && state.ValuePart? && state.value.colon == colon && NameFolded(line, colon, state.value.name)
      && (state.value.hasInvalid <==> AnyBadValue(line, colon + 1, n))
      && ContentIs(line, colon + 1, n, state.value.firstContent, state.value.contentEnd)
  }

  lemma NameStep(line: Bytes, n: nat, facts: NameFold)
    requires n < |line| && line[n] != ':' && NameFolded(line, n, facts)
    ensures FieldStep(NamePart(facts), n, line[n]).NamePart?
    ensures NameFolded(line, n + 1, FieldStep(NamePart(facts), n, line[n]).name)
  {
    assert AnyOws(line, 0, n + 1) <==> AnyOws(line, 0, n) || IsOws(line[n]);
    assert AnyBadName(line, 0, n + 1) <==> AnyBadName(line, 0, n) || (!IsOws(line[n]) && !IsToken(line[n]));
  }

  lemma ValueStep(line: Bytes, colon: nat, n: nat, state: FieldState)
    requires colon < n < |line| && FoldHolds(line, colon, n, state)
    ensures FoldHolds(line, colon, n + 1, FieldStep(state, n, line[n]))
  {
    assert AnyBadValue(line, colon + 1, n + 1) <==> AnyBadValue(line, colon + 1, n) || !IsFieldValue(line[n]);
  }

  lemma {:induction false} FoldLearns(line: Bytes, colon: nat, n: nat)
    requires n <= |line| && FirstColon(line, 0, |line|, colon)
    ensures FoldHolds(line, colon, n, Folded(line, n))
  {
    if n > 0 {
      FoldLearns(line, colon, n - 1);
      if n - 1 < colon {
        NameStep(line, n - 1, Folded(line, n - 1).name);
      } else if n - 1 > colon {
        ValueStep(line, colon, n - 1, Folded(line, n - 1));
      }
    }
  }

  /** The decision made from a fold, against the outcomes of the name and of the value. */
  lemma DecisionMatches(line: Bytes, lineStart: nat, facts: ValueFold, name: Result<Bytes>, value: Result<Bytes>)
    requires facts.colon < |line| && facts.name.length == facts.colon
    requires name ==
      if facts.colon == 0 then Err(InvalidHeader(lineStart, InvalidName))
      else if facts.colon > NAME_MAX then Err(LimitExceeded(HeaderNameBytes, NAME_MAX, facts.colon))
      else if facts.name.hasWhitespace then Err(InvalidHeader(lineStart, WhitespaceBeforeColon))
      else if facts.name.hasInvalid then Err(InvalidHeader(lineStart, InvalidName))
      else Ok(LowerAll(line[..facts.colon]))
    requires facts.firstContent.Some? ==> facts.firstContent.value < facts.contentEnd <= |line|
    requires var content := if facts.firstContent.Some? then line[facts.firstContent.value..facts.contentEnd] else [];
      value ==
        if facts.hasInvalid then Err(InvalidHeader(lineStart, InvalidValueByte))
        else if |content| > VALUE_MAX then Err(LimitExceeded(HeaderValueBytes, VALUE_MAX, |content|))
        else Ok(content)
    ensures var plan := DecideField(ValuePart(facts), lineStart, |line|);
      if name.Err? then plan == Err(name.error)
      else if value.Err? then plan == Err(value.error)
      else
        && plan.Ok? && plan.value.nameStart == lineStart && plan.value.nameEnd == lineStart + facts.colon
        && lineStart <= plan.value.valueStart <= plan.value.valueEnd <= lineStart + |line|
        && name.value == LowerAll(line[..facts.colon])
        && value.value == line[plan.value.valueStart - lineStart..plan.value.valueEnd - lineStart]
  {
    assert line[|line|..|line|] == [];
  }

  /** A plan in offsets that start at `lineStart`, and the field it cuts out of the line. */
  ghost predicate Cuts(line: Bytes, lineStart: nat, plan: FieldLayout, field: HeaderField) {
    && plan.nameStart == lineStart <= plan.nameEnd <= lineStart + |line|
    && lineStart <= plan.valueStart <= plan.valueEnd <= lineStart + |line|
    && field.name == LowerAll(line[..plan.nameEnd - lineStart])
    && field.value == line[plan.valueStart - lineStart..plan.valueEnd - lineStart]
  }

  lemma FoldedLineDecides(line: Bytes, lineStart: nat, colon: nat, facts: ValueFold)
    requires FirstColon(line, 0, |line|, colon) && colon < |line| && FoldHolds(line, colon, |line|, ValuePart(facts))
    ensures var plan := DecideField(ValuePart(facts), lineStart, |line|);
      var name, value := NameOf(line[0..colon], lineStart), ValueOf(line[colon + 1..|line|], lineStart);
      if name.Err? then plan == Err(name.error)
      else if value.Err? then plan == Err(value.error)
      else plan.Ok? && Cuts(line, lineStart, plan.value, HeaderField(name.value, value.value))
  {
    var name, value := NameOf(line[0..colon], lineStart), ValueOf(line[colon + 1..|line|], lineStart);
    NameFacts(line, 0, colon, lineStart);
    ValueFacts(line, lineStart, colon + 1, |line|, facts.hasInvalid, facts.firstContent, facts.contentEnd);
    assert line[0..colon] == line[..colon];
    DecisionMatches(line, lineStart, facts, name, value);
  }

  lemma ReduceFieldCuts(line: Bytes, lineStart: nat)
    requires line != []
    ensures var plan, field := ReduceField(line, lineStart), FieldOf(line, lineStart);
      if field.Err? then plan == Err(field.error) else plan.Ok? && Cuts(line, lineStart, plan.value, field.value)
  {
    var colon := IndexOf(line, ':');
    IndexOfFirst(line, ':');
    assert FoldHolds(line, colon, |line|, Folded(line, |line|)) by { FoldLearns(line, colon, |line|); }
    assert line[0..|line|] == line;
    LineSplits(line, 0, |line|, colon, lineStart);
    if colon < |line| && !IsOws(line[0]) {
      FoldedLineDecides(line, lineStart, colon, Folded(line, |line|).value);
    }
  }

  lemma CutsStandFor(input: Bytes, start: nat, end: nat, plan: FieldLayout, field: HeaderField)
    requires start < end <= |input| && Cuts(input[start..end], start, plan, field)
    ensures StandsFor(input, plan, field)
  {
    var line := input[start..end];
    assert input[start..plan.nameEnd] == line[..plan.nameEnd - start];
    assert input[plan.valueStart..plan.valueEnd] == line[plan.valueStart - start..plan.valueEnd - start];
  }

  /** Reducing a line refuses what reading it refuses, with the same error, and otherwise plans the field. */
  lemma ReduceFieldPlans(input: Bytes, start: nat, end: nat)
    requires start < end <= |input|
    ensures var plan, field := ReduceField(input[start..end], start), FieldOf(input[start..end], start);
      if field.Err? then plan == Err(field.error) else plan.Ok? && StandsFor(input, plan.value, field.value)
  {
    var plan, field := ReduceField(input[start..end], start), FieldOf(input[start..end], start);
    assert if field.Err? then plan == Err(field.error) else plan.Ok? && Cuts(input[start..end], start, plan.value, field.value) by {
      ReduceFieldCuts(input[start..end], start);
    }
    if field.Ok? { CutsStandFor(input, start, end, plan.value, field.value); }
  }

  // ---------- the whole section ----------

  lemma NextLineFeed(input: Bytes, start: nat, end: nat, consumed: nat)
    requires OnLine(input, start, end, consumed) && end != start
    ensures IndexFrom(input[..consumed - 2], '\n', start) == end + 1
  {
    var fieldBytes := input[..consumed - 2];
    IndexFromFirst(fieldBytes, '\n', start);
    LineBreakFirst(input, start);
    assert fieldBytes[end] == '\r' && fieldBytes[end + 1] == '\n';
    forall k | start <= k < end ensures fieldBytes[k] != '\n' {
      assert !IsBreak(input[k]);
    }
  }

  method ValidateFields(input: Bytes, envelope: SectionEnvelope) returns (r: Result<seq<FieldLayout>>)
    requires InSection(input, 0, envelope.bytesConsumed) && envelope.fieldCount == LineCount(input, 0)
    ensures r.Err? ==> ParseSection(input) == Err(r.error)
    ensures r.Ok? ==>
      && ParseSection(input).Ok? && Planned(input, r.value, ParseSection(input).value.fields)
      && |r.value| == envelope.fieldCount
  {
    hide ParseSection;
    hide ParseFrom;
    hide FieldOf;
    hide StandsFor;
    ghost var consumed := envelope.bytesConsumed;
    var fieldBytes := input[..envelope.bytesConsumed - 2];
    var plans: seq<FieldLayout> := [];
    var lineStart := 0;
    LineInSection(input, 0, consumed);
    ghost var end := LineEnd(input, 0).value;
    ghost var starts: seq<nat> := [0];
    while lineStart < |fieldBytes|
      invariant OnLine(input, lineStart, end, consumed) && lineStart <= |fieldBytes|
      invariant LinesRead(input, starts, plans) && lineStart == starts[|plans|]
      invariant |plans| + LineCount(input, lineStart) == envelope.fieldCount
    {
      if |plans| == FIELD_MAX {
        OneLineTooMany(input, starts, plans, lineStart, end);
        return Err(TooManyHeaders);
      }
      var length, plan := ReduceNext(input, fieldBytes, lineStart, end, consumed);
      if plan.Err? {
        RefusedLine(input, starts, plans, lineStart, end);
        return Err(plan.error);
      }
      LineIsDone(input, starts, plans, lineStart, end, consumed, plan.value);
      plans := plans + [plan.value];
      lineStart := lineStart + length;
      end := LineEnd(input, lineStart).value;
      starts := starts + [lineStart];
    }
    EmptyLine(input, starts, plans, lineStart);
    return Ok(plans);
  }

  /** The next line up to and including its line feed, reduced. */
  method ReduceNext(input: Bytes, fieldBytes: Bytes, lineStart: nat, ghost end: nat, ghost consumed: nat)
    returns (length: nat, plan: Result<FieldLayout>)
    requires OnLine(input, lineStart, end, consumed) && end != lineStart && fieldBytes == input[..consumed - 2]
    ensures length == end + 2 - lineStart
    ensures var field := FieldOf(input[lineStart..end], lineStart);
      if field.Err? then plan == Err(field.error) else plan.Ok? && StandsFor(input, plan.value, field.value)
  {
    NextLineFeed(input, lineStart, end, consumed);
    var framed := fieldBytes[lineStart..IndexFrom(fieldBytes, '\n', lineStart) + 1];
    var line := framed[..|framed| - 2];
    assert framed == input[lineStart..end + 2] && line == input[lineStart..end];
    ReduceFieldPlans(input, lineStart, end);
    return |framed|, ReduceField(line, lineStart);
  }

  /** The reducer accepts the same sections with the same blocks; once the envelope is well formed even its errors
      are those of the one-pass parsers. */
  method ParseByReduction(input: Bytes) returns (r: Result<HeaderBlock>)
    ensures r.Accepted() == ParseSection(input).Accepted()
    ensures BoundaryFrom(input, 0).Ok? ==> r == ParseSection(input)
    ensures BoundaryFrom(input, 0).Err? ==> r.Err? && (r == Err(BoundaryFrom(input, 0).error) || StrayAtLimit(input))
  {
    if ParseSection(input).Ok? { BoundaryOfAccepted(input, 0, []); }
    var envelope := ValidateFraming(input);
    if envelope.Err? { return Err(envelope.error); }
    var plans := ValidateFields(input, envelope.value);
    if plans.Err? { return Err(plans.error); }
    var fields := Materialize(input, plans.value, ParseSection(input).value.fields);
    return Ok(HeaderBlock(fields, envelope.value.bytesConsumed));
  }
}
