/** The two-phase header parser: prove where the section ends, then run a lexer over it. */
module HeaderPhases {
  import opened Bytes
  import opened Http
  import opened HeaderSection
  import opened HeaderFacts

  // ---------- phase one: where the section ends ----------

  /** What the first phase establishes: every line up to the empty one is well delimited. */
  function BoundaryFrom(input: Bytes, start: nat): (end: Result<nat>)
    requires start <= |input|
    ensures end.Ok? ==> start + 2 <= end.value <= |input|
    decreases |input| - start
  {
    var line := LineEnd(input, start);
    if line.Err? then Err(line.error)
    else if line.value == start then Ok(start + 2)
    else BoundaryFrom(input, line.value + 2)
  }

  /** A section that is accepted as a whole has the boundary the first phase finds. */
  lemma {:induction false} BoundaryOfAccepted(input: Bytes, start: nat, fields: seq<HeaderField>)
    requires start <= |input| && ParseFrom(input, start, fields).Ok?
    ensures BoundaryFrom(input, start) == Ok(ParseFrom(input, start, fields).value.bytesConsumed)
    decreases |input| - start
  {
    var end := LineEnd(input, start).value;
    if end != start {
      BoundaryOfAccepted(input, end + 2, fields + [FieldOf(input[start..end], start).value]);
    }
  }

  datatype BoundaryState = AtLineStart(offset: nat) | InLineBody(offset: nat)

  method ProveSectionBoundary(input: Bytes) returns (r: Result<nat>)
    ensures r == BoundaryFrom(input, 0)
  {
    var state := AtLineStart(0);
    var cursor := 0;
    while cursor < |input|
      invariant state.offset <= cursor <= |input| && cursor <= SECTION_MAX
      invariant state.AtLineStart? <==> cursor == state.offset
      invariant forall k :: state.offset <= k < cursor ==> !IsBreak(input[k])
      invariant BoundaryFrom(input, state.offset) == BoundaryFrom(input, 0)
    {
      if cursor == SECTION_MAX {
        LineBreakFirst(input, state.offset);
        return Err(LimitExceeded(HeaderSectionBytes, SECTION_MAX, SECTION_MAX + 1));
      }
      var lineStart := state.offset;
      if IsBreak(input[cursor]) { LineBreakIs(input, lineStart, cursor); }
      if input[cursor] == '\n' {
        return Err(InvalidHeader(lineStart, BareLineEnding));
      } else if input[cursor] == '\r' {
        if cursor + 1 >= |input| || input[cursor + 1] != '\n' {
          return Err(InvalidHeader(lineStart, BareLineEnding));
        }
        var next := cursor + 2;
        if next > SECTION_MAX {
          return Err(LimitExceeded(HeaderSectionBytes, SECTION_MAX, next));
        }
        if state.AtLineStart? { return Ok(next); }
        state := AtLineStart(next);
        cursor := next;
      } else {
        state := InLineBody(lineStart);
        cursor := cursor + 1;
      }
    }
    LineBreakIs(input, state.offset, cursor);
    return Err(Incomplete);
  }

  // ---------- phase two: the lexer ----------

  datatype NameClass = OnlyToken | ContainsWhitespace | Invalid

  datatype LexState =
    | LineStart
    | Name(lineStart: nat, nameStart: nat, class_: NameClass)
    | Value(lineStart: nat, nameStart: nat, nameEnd: nat, valueStart: Option<nat>, valueEnd: nat)

  function ClassifyNameByte(byte: Byte): NameClass {
    if IsToken(byte) then OnlyToken else if byte == ' ' || byte == '\t' then ContainsWhitespace else Invalid
  }

  function AdvanceNameClass(class_: NameClass, byte: Byte): NameClass {
    var here := ClassifyNameByte(byte);
    if class_.ContainsWhitespace? || here.ContainsWhitespace? then ContainsWhitespace
    else if class_.Invalid? || here.Invalid? then Invalid
    else OnlyToken
  }

  function ValidateName(length: nat, class_: NameClass, lineStart: nat): Option<PolyguardError> {
    if length > NAME_MAX then Some(LimitExceeded(HeaderNameBytes, NAME_MAX, length))
    else match class_
      case OnlyToken => None
      case ContainsWhitespace => Some(InvalidHeader(lineStart, WhitespaceBeforeColon))
      case Invalid => Some(InvalidHeader(lineStart, InvalidName))
  }

  ghost predicate TokensOnly(input: Bytes, a: nat, b: nat)
    requires b <= |input|
  {
    forall k :: a <= k < b ==> IsToken(input[k])
  }

  /** What the lexer knows about the line that starts at `start` and ends at `end`. */
  ghost predicate Lexed(input: Bytes, start: nat, end: nat, state: LexState, cursor: nat)
    requires start <= end <= |input|
  {
    match state
    case LineStart => cursor == start
    case Name(lineStart, nameStart, class_) =>
      && lineStart == nameStart == start < cursor <= end && !IsOws(input[start])
      && (forall k :: start < k < cursor ==> input[k] != ':')
      && (class_.OnlyToken? <==> TokensOnly(input, start, cursor))
    case Value(lineStart, nameStart, nameEnd, valueStart, valueEnd) =>
      && lineStart == nameStart == start < nameEnd < cursor <= end
      && input[nameEnd] == ':' && nameEnd - start <= NAME_MAX && TokensOnly(input, start, nameEnd)
      && !AnyBadValue(input, nameEnd + 1, cursor)
      && ContentIs(input, nameEnd + 1, cursor, valueStart, valueEnd)
  }

  lemma NameIsRefused(input: Bytes, start: nat, end: nat, cursor: nat)
    requires start < cursor <= end <= |input|
    requires forall k :: start < k < cursor ==> input[k] != ':'
    requires cursor == end || (input[cursor] == ':' && (cursor - start > NAME_MAX || !TokensOnly(input, start, cursor)))
    ensures FieldOf(input[start..end], start).Err?
  {
    if input[start] == ':' {
      LineSplits(input, start, end, start, start);
      NameFacts(input, start, start, start);
    } else {
      LineSplits(input, start, end, cursor, start);
      NameFacts(input, start, cursor, start);
    }
  }

  lemma NameIsAccepted(input: Bytes, start: nat, end: nat, colon: nat)
    requires start < colon < end <= |input| && input[colon] == ':'
    requires colon - start <= NAME_MAX && TokensOnly(input, start, colon)
    ensures var value := ValueOf(input[colon + 1..end], start);
      FieldOf(input[start..end], start) ==
        if value.Err? then Err(value.error) else Ok(HeaderField(LowerAll(input[start..colon]), value.value))
  {
    LineSplits(input, start, end, colon, start);
    NameFacts(input, start, colon, start);
  }

  lemma ValueIsRefused(input: Bytes, start: nat, end: nat, colon: nat, bad: nat)
    requires start < colon < bad < end <= |input| && input[colon] == ':'
    requires colon - start <= NAME_MAX && TokensOnly(input, start, colon) && !IsFieldValue(input[bad])
    ensures FieldOf(input[start..end], start).Err?
  {
    NameIsAccepted(input, start, end, colon);
    ValueFacts(input, start, colon + 1, end, true, None, 0);
  }

  /** At the end of a line the plan is the field, unless the value is too long. */
  lemma LineIsPlanned(input: Bytes, start: nat, end: nat, colon: nat, first: Option<nat>, last: nat)
    requires start < colon < end <= |input| && input[colon] == ':'
    requires colon - start <= NAME_MAX && TokensOnly(input, start, colon)
    requires !AnyBadValue(input, colon + 1, end) && ContentIs(input, colon + 1, end, first, last)
    ensures var (a, b) := (if first.Some? then first.value else end, if first.Some? then last else end);
      && a <= b
      && (b - a > VALUE_MAX ==> FieldOf(input[start..end], start).Err?)
      && (b - a <= VALUE_MAX ==>
            && FieldOf(input[start..end], start).Ok?
            && StandsFor(input, FieldLayout(start, colon, a, b), FieldOf(input[start..end], start).value))
  {
    var (a, b) := (if first.Some? then first.value else end, if first.Some? then last else end);
    var value := ValueOf(input[colon + 1..end], start);
    assert value == if b - a > VALUE_MAX then Err(LimitExceeded(HeaderValueBytes, VALUE_MAX, b - a)) else Ok(input[a..b]) by {
      ValueFacts(input, start, colon + 1, end, false, first, last);
      assert input[end..end] == [];
    }
    NameIsAccepted(input, start, end, colon);
  }

  /** Where the lexer stands: in a line whose end is known, before the empty line that closes the section. */
  ghost predicate InSection(input: Bytes, start: nat, consumed: nat) {
    start <= |input| && BoundaryFrom(input, start) == Ok(consumed)
  }

  /** The line that starts at `start` ends at `end`, within the section. */
  ghost predicate OnLine(input: Bytes, start: nat, end: nat, consumed: nat) {
    && start <= end && end + 2 <= consumed <= |input| && LineEnd(input, start) == Ok(end)
    && (end == start <==> start == consumed - 2)
    && (end != start ==> end + 4 <= consumed && InSection(input, end + 2, consumed))
  }

  lemma LineInSection(input: Bytes, start: nat, consumed: nat)
    requires InSection(input, start, consumed)
    ensures LineEnd(input, start).Ok? && OnLine(input, start, LineEnd(input, start).value, consumed)
  {
  }

  ghost predicate Planned(input: Bytes, plans: seq<FieldLayout>, fields: seq<HeaderField>) {
    |plans| == |fields| && forall i :: 0 <= i < |plans| ==> StandsFor(input, plans[i], fields[i])
  }

  /** The line from `a` up to the start `b` of the next one holds the planned field. */
  ghost predicate LineRead(input: Bytes, a: nat, b: nat, plan: FieldLayout) {
    && a + 2 < b <= |input| && LineEnd(input, a) == Ok(b - 2)
    && FieldOf(input[a..b - 2], a).Ok? && StandsFor(input, plan, FieldOf(input[a..b - 2], a).value)
  }

  /** The lines read so far begin at `starts`; the last start is where reading goes on. */
  ghost predicate LinesRead(input: Bytes, starts: seq<nat>, plans: seq<FieldLayout>) {
    && |starts| == |plans| + 1 && |plans| <= FIELD_MAX && starts[0] == 0
    && forall i :: 0 <= i < |plans| ==> LineRead(input, starts[i], starts[i + 1], plans[i])
  }

  /** The fields of the lines read. */
  ghost function FieldsRead(input: Bytes, starts: seq<nat>, plans: seq<FieldLayout>): (fields: seq<HeaderField>)
    requires LinesRead(input, starts, plans)
    ensures |fields| == |plans|
    decreases |plans|
  {
    if plans == [] then []
    else
      var n := |plans| - 1;
      assert LineRead(input, starts[n], starts[n + 1], plans[n]);
      FieldsRead(input, starts[..n + 1], plans[..n]) + [FieldOf(input[starts[n]..starts[n + 1] - 2], starts[n]).value]
  }

  lemma {:induction false} FieldsArePlanned(input: Bytes, starts: seq<nat>, plans: seq<FieldLayout>, i: nat)
    requires LinesRead(input, starts, plans) && i < |plans|
    ensures StandsFor(input, plans[i], FieldsRead(input, starts, plans)[i])
    decreases |plans|
  {
    var n := |plans| - 1;
    assert LineRead(input, starts[n], starts[n + 1], plans[n]);
    if i < n { FieldsArePlanned(input, starts[..n + 1], plans[..n], i); }
  }

  /** Reading on after these lines is what is left of reading the whole section. */
  lemma {:induction false} LinesAreParsed(input: Bytes, starts: seq<nat>, plans: seq<FieldLayout>)
    requires LinesRead(input, starts, plans)
    ensures starts[|plans|] <= |input|
    ensures ParseFrom(input, starts[|plans|], FieldsRead(input, starts, plans)) == ParseSection(input)
    decreases |plans|
  {
    if plans == [] {
      assert FieldsRead(input, starts, plans) == [];
    } else {
      var n := |plans| - 1;
      assert LineRead(input, starts[n], starts[n + 1], plans[n]);
      var a, end := starts[n], starts[n + 1] - 2;
      var before, field := FieldsRead(input, starts[..n + 1], plans[..n]), FieldOf(input[a..end], a).value;
      assert FieldsRead(input, starts, plans) == before + [field];
      assert ParseFrom(input, a, before) == ParseSection(input) by {
        LinesAreParsed(input, starts[..n + 1], plans[..n]);
      }
      assert ParseFrom(input, a, before) == ParseFrom(input, end + 2, before + [field]) by {
        ParseStep(input, a, before, end, field);
      }
    }
  }

  lemma RefusedLine(input: Bytes, starts: seq<nat>, plans: seq<FieldLayout>, start: nat, end: nat)
    requires LinesRead(input, starts, plans) && start == starts[|plans|] < end <= |input|
    requires LineEnd(input, start) == Ok(end) && |plans| < FIELD_MAX && FieldOf(input[start..end], start).Err?
    ensures ParseSection(input) == Err(FieldOf(input[start..end], start).error)
  {
    LinesAreParsed(input, starts, plans);
  }

  lemma OneLineTooMany(input: Bytes, starts: seq<nat>, plans: seq<FieldLayout>, start: nat, end: nat)
    requires LinesRead(input, starts, plans) && start == starts[|plans|] < end <= |input|
    requires LineEnd(input, start) == Ok(end) && |plans| == FIELD_MAX
    ensures ParseSection(input) == Err(TooManyHeaders)
  {
    LinesAreParsed(input, starts, plans);
  }

  lemma EmptyLine(input: Bytes, starts: seq<nat>, plans: seq<FieldLayout>, start: nat)
    requires LinesRead(input, starts, plans) && start == starts[|plans|] <= |input| && LineEnd(input, start) == Ok(start)
    ensures ParseSection(input).Ok? && Planned(input, plans, ParseSection(input).value.fields)
  {
    LinesAreParsed(input, starts, plans);
    forall i | 0 <= i < |plans| ensures StandsFor(input, plans[i], FieldsRead(input, starts, plans)[i]) {
      FieldsArePlanned(input, starts, plans, i);
    }
  }

  lemma LineIsDone(input: Bytes, starts: seq<nat>, plans: seq<FieldLayout>, start: nat, end: nat, consumed: nat, plan: FieldLayout)
    requires LinesRead(input, starts, plans) && start == starts[|plans|] && |plans| < FIELD_MAX
    requires OnLine(input, start, end, consumed) && end != start
    requires FieldOf(input[start..end], start).Ok? && StandsFor(input, plan, FieldOf(input[start..end], start).value)
    ensures LineEnd(input, end + 2).Ok? && OnLine(input, end + 2, LineEnd(input, end + 2).value, consumed)
    ensures LinesRead(input, starts + [end + 2], plans + [plan])
  {
    LineInSection(input, end + 2, consumed);
    assert LineRead(input, start, end + 2, plan);
  }

  /** One byte inside a line: the next state, the plan of a finished line, or a refusal. */
  datatype LexStep = Stay(state: LexState) | Finished(plan: FieldLayout) | Refused(error: PolyguardError)

  ghost predicate FramedLine(input: Bytes, start: nat, end: nat) {
    start < end && end + 1 < |input| && LineEnd(input, start) == Ok(end)
  }

  /** A step is sound: a finished line has the planned field, a refused one has none. */
  ghost predicate Sound(input: Bytes, start: nat, end: nat, cursor: nat, step: LexStep)
    requires FramedLine(input, start, end)
  {
    match step
    case Stay(next) => cursor < end && !next.LineStart? && Lexed(input, start, end, next, cursor + 1)
    case Finished(plan) =>
      && cursor == end && FieldOf(input[start..end], start).Ok?
      && StandsFor(input, plan, FieldOf(input[start..end], start).value)
    case Refused(_) => FieldOf(input[start..end], start).Err?
  }

  method LexName(input: Bytes, state: LexState, cursor: nat, ghost start: nat, ghost end: nat) returns (step: LexStep)
    requires FramedLine(input, start, end) && cursor <= end && state.Name? && Lexed(input, start, end, state, cursor)
    ensures Sound(input, start, end, cursor, step)
  {
    LineBreakFirst(input, start);
    var byte := input[cursor];
    if byte == ':' {
      var refused := ValidateName(cursor - state.nameStart, state.class_, state.lineStart);
      if refused.Some? {
        NameIsRefused(input, start, end, cursor);
        return Refused(refused.value);
      }
      return Stay(Value(state.lineStart, state.nameStart, cursor, None, cursor + 1));
    } else if byte == '\r' {
      NameIsRefused(input, start, end, cursor);
      return Refused(InvalidHeader(state.lineStart, InvalidName));
    } else {
      return Stay(state.(class_ := AdvanceNameClass(state.class_, byte)));
    }
  }

  method LexValue(input: Bytes, state: LexState, cursor: nat, ghost start: nat, ghost end: nat) returns (step: LexStep)
    requires FramedLine(input, start, end) && cursor <= end && state.Value? && Lexed(input, start, end, state, cursor)
    ensures Sound(input, start, end, cursor, step)
  {
    LineBreakFirst(input, start);
    var byte := input[cursor];
    if byte == '\r' {
      LineIsPlanned(input, start, end, state.nameEnd, state.valueStart, state.valueEnd);
      var first := if state.valueStart.Some? then state.valueStart.value else cursor;
      var last := if state.valueStart.Some? then state.valueEnd else cursor;
      if last - first > VALUE_MAX {
        return Refused(LimitExceeded(HeaderValueBytes, VALUE_MAX, last - first));
      }
      return Finished(FieldLayout(state.nameStart, state.nameEnd, first, last));
    } else {
      if !IsFieldValue(byte) {
        ValueIsRefused(input, start, end, state.nameEnd, cursor);
        return Refused(InvalidHeader(state.lineStart, InvalidValueByte));
      }
      var isContent := byte != ' ' && byte != '\t';
      var nextStart := if state.valueStart.Some? then state.valueStart else if isContent then Some(cursor) else None;
      return Stay(state.(valueStart := nextStart, valueEnd := if isContent then cursor + 1 else state.valueEnd));
    }
  }

  method LexByte(input: Bytes, state: LexState, cursor: nat, ghost start: nat, ghost end: nat) returns (step: LexStep)
    requires FramedLine(input, start, end) && cursor <= end && Lexed(input, start, end, state, cursor)
    ensures Sound(input, start, end, cursor, step)
  {
    match state
    case LineStart =>
      if input[cursor] == ' ' || input[cursor] == '\t' {
        return Refused(InvalidHeader(cursor, ObsFold));
      }
      return Stay(Name(cursor, cursor, ClassifyNameByte(input[cursor])));
    case Name(_, _, _) => step := LexName(input, state, cursor, start, end);
    case Value(_, _, _, _, _) => step := LexValue(input, state, cursor, start, end);
  }

  /** The state of the whole run: the lines already read, and what is known of the line under the cursor. */
  ghost predicate Lexing(input: Bytes, consumed: nat, starts: seq<nat>, end: nat, plans: seq<FieldLayout>,
                         state: LexState, cursor: nat) {
    && LinesRead(input, starts, plans)
    && var start := starts[|plans|];
       && OnLine(input, start, end, consumed) && start <= cursor <= consumed - 2
       && Lexed(input, start, end, state, cursor)
       && (!state.LineStart? ==> |plans| < FIELD_MAX && end != start)
  }

  /** What a step from here means for the whole run. */
  ghost predicate LexedOn(input: Bytes, consumed: nat, starts: seq<nat>, end: nat, plans: seq<FieldLayout>, cursor: nat,
                          step: LexStep)
  {
    match step
    case Stay(next) => Lexing(input, consumed, starts, end, plans, next, cursor + 1)
    case Finished(plan) =>
      && cursor == end && end + 2 <= |input| && LineEnd(input, end + 2).Ok?
      && Lexing(input, consumed, starts + [end + 2], LineEnd(input, end + 2).value, plans + [plan], LineStart, end + 2)
    case Refused(_) => ParseSection(input).Err?
  }

  method LexNext(input: Bytes, state: LexState, cursor: nat, ghost consumed: nat, ghost starts: seq<nat>, ghost end: nat,
                 plans: seq<FieldLayout>) returns (step: LexStep)
    requires Lexing(input, consumed, starts, end, plans, state, cursor) && cursor < consumed - 2
    ensures LexedOn(input, consumed, starts, end, plans, cursor, step)
  {
    ghost var start := starts[|plans|];
    if state.LineStart? && |plans| == FIELD_MAX {
      OneLineTooMany(input, starts, plans, start, end);
      return Refused(TooManyHeaders);
    }
    step := LexByte(input, state, cursor, start, end);
    if step.Finished? { LineIsDone(input, starts, plans, start, end, consumed, step.plan); }
    if step.Refused? { RefusedLine(input, starts, plans, start, end); }
  }

  lemma LexingEnds(input: Bytes, consumed: nat, starts: seq<nat>, end: nat, plans: seq<FieldLayout>, state: LexState, cursor: nat)
    requires Lexing(input, consumed, starts, end, plans, state, cursor) && cursor >= consumed - 2
    ensures ParseSection(input).Ok? && Planned(input, plans, ParseSection(input).value.fields)
  {
    EmptyLine(input, starts, plans, starts[|plans|]);
  }

  method ValidateFieldGrammar(input: Bytes, consumed: nat) returns (r: Result<seq<FieldLayout>>)
    requires InSection(input, 0, consumed)
    ensures r.Err? ==> ParseSection(input).Err?
    ensures r.Ok? ==>
      && ParseSection(input).Ok? && Planned(input, r.value, ParseSection(input).value.fields)
  {
    var fieldsEnd := consumed - 2;
    var plans: seq<FieldLayout> := [];
    var state := LineStart;
    var cursor := 0;
    LineInSection(input, 0, consumed);
    ghost var starts: seq<nat>, end: nat := [0], LineEnd(input, 0).value;
    while cursor < fieldsEnd
      invariant Lexing(input, consumed, starts, end, plans, state, cursor)
      decreases fieldsEnd - cursor
    {
      var step := LexNext(input, state, cursor, consumed, starts, end, plans);
      match step
      case Refused(error) => return Err(error);
      case Stay(next) =>
        state := next;
        cursor := cursor + 1;
      case Finished(plan) =>
        plans := plans + [plan];
        state := LineStart;
        cursor := cursor + 2;
        starts, end := starts + [cursor], LineEnd(input, cursor).value;
    }
    LexingEnds(input, consumed, starts, end, plans, state, cursor);
    return Ok(plans);
  }

  method Materialize(input: Bytes, plans: seq<FieldLayout>, ghost fields: seq<HeaderField>) returns (built: seq<HeaderField>)
    requires Planned(input, plans, fields)
    ensures built == fields
  {
    built := [];
    for i := 0 to |plans|
      invariant built == fields[..i]
    {
      assert StandsFor(input, plans[i], fields[i]);
      built := built + [LayoutField(input, plans[i])];
    }
  }

  /** The same sections are accepted, with the same blocks; a badly delimited section is refused before any field is. */
  method ParseByPhases(input: Bytes) returns (r: Result<HeaderBlock>)
    ensures r.Accepted() == ParseSection(input).Accepted()
    ensures BoundaryFrom(input, 0).Err? ==> r == Err(BoundaryFrom(input, 0).error)
  {
    if ParseSection(input).Ok? { BoundaryOfAccepted(input, 0, []); }
    var boundary := ProveSectionBoundary(input);
    if boundary.Err? { return Err(boundary.error); }
    var plans := ValidateFieldGrammar(input, boundary.value);
    if plans.Err? { return Err(plans.error); }
    var fields := Materialize(input, plans.value, ParseSection(input).value.fields);
    return Ok(HeaderBlock(fields, boundary.value));
  }
}
