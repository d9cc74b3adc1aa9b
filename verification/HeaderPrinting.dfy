/** What accepted header sections look like, and reading printed fields back. */
module HeaderPrinting {
  import opened Bytes
  import opened Http
  import opened HeaderSection

  type FieldParser = (Bytes, nat) -> Result<HeaderField>

  /** The section parser over any line parser; only where lines end is fixed. */
  function ParseLines(parse: FieldParser, input: Bytes, start: nat, fields: seq<HeaderField>): Result<HeaderBlock>
    requires start <= |input|
    decreases |input| - start
  {
    var end := LineEnd(input, start);
    if end.Err? then Err(end.error)
    else if end.value == start then Ok(HeaderBlock(fields, start + 2))
    else if |fields| == FIELD_MAX then Err(TooManyHeaders)
    else
      var field := parse(input[start..end.value], start);
      if field.Err? then Err(field.error)
      else ParseLines(parse, input, end.value + 2, fields + [field.value])
  }

  lemma {:induction false} ParseLinesIsParseFrom(input: Bytes, start: nat, fields: seq<HeaderField>)
    requires start <= |input|
    ensures ParseLines(FieldOf, input, start, fields) == ParseFrom(input, start, fields)
    decreases |input| - start
  {
    var end := LineEnd(input, start);
    if end.Ok? && end.value != start && |fields| != FIELD_MAX {
      var field := FieldOf(input[start..end.value], start);
      if field.Ok? { ParseLinesIsParseFrom(input, end.value + 2, fields + [field.value]); }
    }
  }

  lemma ParseLinesStep(parse: FieldParser, input: Bytes, start: nat, fields: seq<HeaderField>, end: nat, field: HeaderField)
    requires start <= |input| && LineEnd(input, start) == Ok(end) && end != start
    requires |fields| < FIELD_MAX && parse(input[start..end], start) == Ok(field)
    ensures ParseLines(parse, input, start, fields) == ParseLines(parse, input, end + 2, fields + [field])
  {
  }

  // ---------- what an accepted block looks like ----------

  predicate CanonicalField(field: HeaderField) {
    && 1 <= |field.name| <= NAME_MAX && AllToken(field.name) && NoUpper(field.name)
    && |field.value| <= VALUE_MAX && AllFieldValue(field.value) && NoEdgeOws(field.value)
  }

  lemma AcceptedFieldIsCanonical(line: Bytes, lineStart: nat)
    requires FieldOf(line, lineStart).Ok?
    ensures CanonicalField(FieldOf(line, lineStart).value)
  {
    var colon := IndexOf(line, ':');
    var value := line[colon + 1..];
    TrimOwsHasNoEdgeOws(value);
    var i, j := TrimOwsResult(value);
    assert forall k :: 0 <= k < j - i ==> value[i..j][k] == value[i + k];
    assert FieldOf(line, lineStart).value.name == LowerAll(line[..colon]);
  }

  predicate AllCanonical(fields: seq<HeaderField>) {
    forall i :: 0 <= i < |fields| ==> CanonicalField(fields[i])
  }

  ghost predicate AllFields(ok: HeaderField -> bool, fields: seq<HeaderField>) {
    forall i :: 0 <= i < |fields| ==> ok(fields[i])
  }

  ghost predicate YieldsOnly(parse: FieldParser, ok: HeaderField -> bool) {
    forall line, start :: parse(line, start).Ok? ==> ok(parse(line, start).value)
  }

  lemma {:induction false} AcceptedBlock(parse: FieldParser, ok: HeaderField -> bool, input: Bytes, start: nat,
                                         fields: seq<HeaderField>)
    requires start <= |input| && |fields| <= FIELD_MAX
    requires YieldsOnly(parse, ok) && AllFields(ok, fields)
    requires ParseLines(parse, input, start, fields).Ok?
    ensures var block := ParseLines(parse, input, start, fields).value;
      && |block.fields| <= FIELD_MAX && AllFields(ok, block.fields)
      && start + 2 <= block.bytesConsumed <= SECTION_MAX && block.bytesConsumed <= |input|
      && CrlfAt(input, block.bytesConsumed - 2)
      && (block.bytesConsumed > start + 2 ==> block.bytesConsumed >= start + 4 && CrlfAt(input, block.bytesConsumed - 4))
    decreases |input| - start
  {
    var end := LineEnd(input, start).value;
    if end != start {
      AcceptedBlock(parse, ok, input, end + 2, fields + [parse(input[start..end], start).value]);
    }
  }

  lemma FieldsParsedAreCanonical()
    ensures YieldsOnly(FieldOf, CanonicalField)
  {
    forall line, start: nat | FieldOf(line, start).Ok? ensures CanonicalField(FieldOf(line, start).value) {
      AcceptedFieldIsCanonical(line, start);
    }
  }

  /** Accepted blocks are bounded and canonical, and end with the empty line that closes the section. */
  lemma AcceptedSection(input: Bytes)
    requires ParseSection(input).Ok?
    ensures var block := ParseSection(input).value;
      && |block.fields| <= FIELD_MAX && AllCanonical(block.fields)
      && 2 <= block.bytesConsumed <= SECTION_MAX && block.bytesConsumed <= |input|
      && CrlfAt(input, block.bytesConsumed - 2)
      && (block.bytesConsumed > 2 ==> block.bytesConsumed >= 4 && CrlfAt(input, block.bytesConsumed - 4))
  {
    FieldsParsedAreCanonical();
    ParseLinesIsParseFrom(input, 0, []);
    AcceptedBlock(FieldOf, CanonicalField, input, 0, []);
  }

  // ---------- printing fields and reading them back ----------

  function LineText(field: HeaderField): (line: Bytes)
    ensures |line| == |field.name| + 2 + |field.value|
  {
    field.name + ": " + field.value
  }

  function FieldLine(field: HeaderField): Bytes {
    LineText(field) + CRLF
  }

  function RenderFields(fields: seq<HeaderField>): Bytes {
    if fields == [] then [] else FieldLine(fields[0]) + RenderFields(fields[1..])
  }

  /** A field as a printer may spell it: any case in the name, nothing to trim around the value. */
  predicate Printable(field: HeaderField) {
    && 1 <= |field.name| <= NAME_MAX && AllToken(field.name)
    && |field.value| <= VALUE_MAX && AllFieldValue(field.value) && NoEdgeOws(field.value)
  }

  function Lowered(fields: seq<HeaderField>): (r: seq<HeaderField>)
    ensures |r| == |fields|
  {
    if fields == [] then []
    else [HeaderField(LowerAll(fields[0].name), fields[0].value)] + Lowered(fields[1..])
  }

  lemma PrintedLineParses(field: HeaderField, lineStart: nat)
    requires Printable(field)
    ensures FieldOf(LineText(field), lineStart) == Ok(HeaderField(LowerAll(field.name), field.value))
  {
    var line := LineText(field);
    var n := |field.name|;
    TokenIsPlain(field.name);
    assert line[n] == ':' && line[0] == field.name[0];
    IndexOfUnique(line, ':', n);
    assert line[..n] == field.name;
    PrintedValueParses(field.value, lineStart);
    assert line[n + 1..] == [' '] + field.value;
  }

  lemma PrintedValueParses(value: Bytes, lineStart: nat)
    requires |value| <= VALUE_MAX && AllFieldValue(value) && NoEdgeOws(value)
    ensures ValueOf([' '] + value, lineStart) == Ok(value)
  {
    var spaced := [' '] + value;
    assert spaced[1..] == value;
    assert AllFieldValue(spaced);
    if value == [] {
      TrimOwsIs(spaced, 1, 1);
    } else {
      TrimOwsIs(spaced, 1, |spaced|);
      assert spaced[1..|spaced|] == value;
    }
  }

  lemma PrintedLineIsOneLine(field: HeaderField)
    requires Printable(field)
    ensures forall k :: 0 <= k < |LineText(field)| ==> !IsBreak(LineText(field)[k])
  {
    TokenIsPlain(field.name);
    var line := LineText(field);
    forall k | 0 <= k < |line| ensures !IsBreak(line[k]) {
      if k >= |field.name| + 2 { assert IsFieldValue(field.value[k - |field.name| - 2]); }
    }
  }

  /** A line inside a longer input is found where it was put. */
  lemma LineInPlace(input: Bytes, start: nat, line: Bytes, more: Bytes)
    requires start <= |input| && input[start..] == line + CRLF + more
    requires forall k :: 0 <= k < |line| ==> !IsBreak(line[k])
    ensures var end := start + |line|;
      && end + 2 <= |input| && input[start..end] == line && input[end + 2..] == more
      && (LineEnd(input, start) == Ok(end) || (LineEnd(input, start).Err? && end + 2 > SECTION_MAX))
      && (end + 2 <= SECTION_MAX ==> LineEnd(input, start) == Ok(end))
  {
    var tail, end := input[start..], start + |line|;
    assert tail[..|line|] == line && tail[|line| + 2..] == more;
    assert tail[|line|] == '\r' && tail[|line| + 1] == '\n';
    assert input[start..end] == tail[..|line|] && input[end + 2..] == tail[|line| + 2..];
    assert input[end] == tail[|line|] && input[end + 1] == tail[|line| + 1];
    forall k | start <= k < end ensures !IsBreak(input[k]) {
      assert input[k] == input[start..end][k - start];
    }
    LineBreakIs(input, start, end);
  }

  lemma RenderCons(fields: seq<HeaderField>, rest: Bytes)
    requires fields != []
    ensures RenderFields(fields) + CRLF + rest == LineText(fields[0]) + CRLF + (RenderFields(fields[1..]) + CRLF + rest)
    ensures |RenderFields(fields)| == |LineText(fields[0])| + 2 + |RenderFields(fields[1..])|
  {
    var line, others := FieldLine(fields[0]), RenderFields(fields[1..]);
    ConcatAssociates(line, others, CRLF);
    ConcatAssociates(line, others + CRLF, rest);
  }

  lemma LoweredCons(fields: seq<HeaderField>, parsed: seq<HeaderField>)
    requires fields != []
    ensures parsed + Lowered(fields) ==
            parsed + [HeaderField(LowerAll(fields[0].name), fields[0].value)] + Lowered(fields[1..])
  {
  }

  /** `parse` reads printed lines back. */
  ghost predicate ReadsBack(parse: FieldParser, fields: seq<HeaderField>) {
    forall i, start :: 0 <= i < |fields| ==>
      parse(LineText(fields[i]), start) == Ok(HeaderField(LowerAll(fields[i].name), fields[i].value))
  }

  predicate AllPrintable(fields: seq<HeaderField>) {
    forall i :: 0 <= i < |fields| ==> Printable(fields[i])
  }

  /** From `start` on, the input is these fields as printed, the empty line and `rest`. */
  ghost predicate PrintedAt(input: Bytes, start: nat, fields: seq<HeaderField>, rest: Bytes) {
    start <= |input| && input[start..] == RenderFields(fields) + CRLF + rest
  }

  function AfterFirst(fields: seq<HeaderField>, rest: Bytes): Bytes
    requires fields != []
  {
    RenderFields(fields[1..]) + CRLF + rest
  }

  lemma OthersFollow(input: Bytes, start: nat, fields: seq<HeaderField>, rest: Bytes)
    requires fields != [] && PrintedAt(input, start, fields, rest)
    ensures start <= |input| && input[start..] == LineText(fields[0]) + CRLF + AfterFirst(fields, rest)
    ensures |RenderFields(fields)| == |LineText(fields[0])| + 2 + |RenderFields(fields[1..])|
  {
    RenderCons(fields, rest);
  }

  /** The first printed line is found, and the others follow it. */
  lemma FirstLine(input: Bytes, start: nat, fields: seq<HeaderField>, rest: Bytes)
    requires fields != [] && Printable(fields[0]) && PrintedAt(input, start, fields, rest)
    ensures var end := start + |LineText(fields[0])|;
      && start < end && end + 2 <= |input| && input[start..end] == LineText(fields[0])
      && PrintedAt(input, end + 2, fields[1..], rest)
      && start + |RenderFields(fields)| == end + 2 + |RenderFields(fields[1..])|
      && (LineEnd(input, start) == Ok(end) || (LineEnd(input, start).Err? && end + 2 > SECTION_MAX))
      && (end + 2 <= SECTION_MAX ==> LineEnd(input, start) == Ok(end))
  {
    hide PrintedAt;
    hide AfterFirst;
    hide RenderFields;
    hide LineText;
    hide LineEnd;
    hide Printable;
    hide IsBreak;
    var line := LineText(fields[0]);
    OthersFollow(input, start, fields, rest);
    PrintedLineIsOneLine(fields[0]);
    LineInPlace(input, start, line, AfterFirst(fields, rest));
    OthersPrinted(input, start + |line| + 2, fields, rest);
  }

  lemma OthersPrinted(input: Bytes, start: nat, fields: seq<HeaderField>, rest: Bytes)
    requires fields != [] && start <= |input| && input[start..] == AfterFirst(fields, rest)
    ensures PrintedAt(input, start, fields[1..], rest)
  {
  }

  lemma ReadableTail(parse: FieldParser, fields: seq<HeaderField>)
    requires fields != [] && AllPrintable(fields)
    ensures AllPrintable(fields[1..]) && Printable(fields[0])
    ensures ReadsBack(parse, fields) ==> ReadsBack(parse, fields[1..])
  {
    hide Printable;
    hide LineText;
  }

  /** After the last line comes the empty one. */
  lemma LastLine(input: Bytes, start: nat, rest: Bytes)
    requires PrintedAt(input, start, [], rest)
    ensures LineEnd(input, start) == Ok(start) || (LineEnd(input, start).Err? && start + 2 > SECTION_MAX)
    ensures start + 2 <= SECTION_MAX ==> LineEnd(input, start) == Ok(start)
  {
    assert input[start..] == [] + CRLF + rest;
    LineInPlace(input, start, [], rest);
  }

  lemma {:induction false} PrintedLinesParse(parse: FieldParser, input: Bytes, start: nat, fields: seq<HeaderField>,
                                             rest: Bytes, parsed: seq<HeaderField>)
    requires PrintedAt(input, start, fields, rest)
    requires AllPrintable(fields) && ReadsBack(parse, fields)
    requires |parsed| + |fields| <= FIELD_MAX && start + |RenderFields(fields)| + 2 <= SECTION_MAX
    ensures var r := ParseLines(parse, input, start, parsed);
      && r.Ok? && r.value.fields == parsed + Lowered(fields)
      && r.value.bytesConsumed == start + |RenderFields(fields)| + 2
    decreases |fields|
  {
    if fields == [] {
      LastLine(input, start, rest);
      assert parsed + Lowered(fields) == parsed;
    } else {
      ReadableTail(parse, fields);
      FirstLine(input, start, fields, rest);
      var end := start + |LineText(fields[0])|;
      var lowered := HeaderField(LowerAll(fields[0].name), fields[0].value);
      LoweredCons(fields, parsed);
      hide PrintedAt;
      hide RenderFields;
      hide LineEnd;
      hide LineText;
      hide Printable;
      hide Lowered;
      ParseLinesStep(parse, input, start, parsed, end, lowered);
      hide ParseLines;
      hide ReadsBack;
      hide AllPrintable;
      PrintedLinesParse(parse, input, end + 2, fields[1..], rest, parsed + [lowered]);
    }
  }

  /** A section that is accepted had room for every printed line. */
  lemma {:induction false} PrintedLinesFit(parse: FieldParser, input: Bytes, start: nat, fields: seq<HeaderField>,
                                           rest: Bytes, parsed: seq<HeaderField>)
    requires PrintedAt(input, start, fields, rest)
    requires AllPrintable(fields) && |parsed| <= FIELD_MAX && ParseLines(parse, input, start, parsed).Ok?
    ensures |parsed| + |fields| <= FIELD_MAX && start + |RenderFields(fields)| + 2 <= SECTION_MAX
    decreases |fields|
  {
    if fields == [] {
      LastLine(input, start, rest);
    } else {
      ReadableTail(parse, fields);
      FirstLine(input, start, fields, rest);
      var end := start + |LineText(fields[0])|;
      hide PrintedAt;
      hide RenderFields;
      hide LineEnd;
      hide LineText;
      hide Printable;
      var field := parse(input[start..end], start);
      ParseLinesGoesOn(parse, input, start, parsed, end);
      hide ParseLines;
      hide AllPrintable;
      PrintedLinesFit(parse, input, end + 2, fields[1..], rest, parsed + [field.value]);
    }
  }

  lemma ParseLinesGoesOn(parse: FieldParser, input: Bytes, start: nat, parsed: seq<HeaderField>, end: nat)
    requires start < end && end + 2 <= |input| && |parsed| <= FIELD_MAX && ParseLines(parse, input, start, parsed).Ok?
    requires LineEnd(input, start) == Ok(end) || LineEnd(input, start).Err?
    ensures LineEnd(input, start) == Ok(end) && |parsed| < FIELD_MAX
    ensures var field := parse(input[start..end], start);
      field.Ok? && ParseLines(parse, input, end + 2, parsed + [field.value]).Ok?
  {
    hide LineEnd;
  }

  /** Printed fields followed by an empty line read back as the same fields with lower-case names. */
  lemma PrintedFieldsParse(fields: seq<HeaderField>, rest: Bytes)
    requires AllPrintable(fields) && |fields| <= FIELD_MAX && |RenderFields(fields)| + 2 <= SECTION_MAX
    ensures var r := ParseSection(RenderFields(fields) + CRLF + rest);
      r.Ok? && r.value.fields == Lowered(fields) && r.value.bytesConsumed == |RenderFields(fields)| + 2
  {
    var input := RenderFields(fields) + CRLF + rest;
    forall i, start: nat | 0 <= i < |fields|
      ensures FieldOf(LineText(fields[i]), start) == Ok(HeaderField(LowerAll(fields[i].name), fields[i].value))
    {
      PrintedLineParses(fields[i], start);
    }
    assert input[0..] == input;
    ParseLinesIsParseFrom(input, 0, []);
    PrintedLinesParse(FieldOf, input, 0, fields, rest, []);
    assert [] + Lowered(fields) == Lowered(fields);
  }

  /** Printed fields are refused when they are too many or too long. */
  lemma OversizeRefused(fields: seq<HeaderField>, rest: Bytes)
    requires AllPrintable(fields) && (|fields| > FIELD_MAX || |RenderFields(fields)| + 2 > SECTION_MAX)
    ensures ParseSection(RenderFields(fields) + CRLF + rest).Err?
  {
    var input := RenderFields(fields) + CRLF + rest;
    assert input[0..] == input;
    ParseLinesIsParseFrom(input, 0, []);
    if ParseLines(FieldOf, input, 0, []).Ok? { PrintedLinesFit(FieldOf, input, 0, fields, rest, []); }
  }
}
