/** The header section: its meaning and the typed-cursor parser. */
module HeaderSection {
  import opened Bytes
  import opened Http

  const SECTION_MAX := 32_768
  const FIELD_MAX := 128
  const NAME_MAX := 128
  const VALUE_MAX := 8_192

  // ---------- lines ----------

  predicate IsBreak(c: Byte) { c == '\r' || c == '\n' }

  /** Where the next CR or LF is, or the end of the input. */
  function LineBreak(input: Bytes, start: nat): (i: nat)
    requires start <= |input|
    ensures start <= i <= |input|
    decreases |input| - start
  {
    if start == |input| || IsBreak(input[start]) then start else LineBreak(input, start + 1)
  }

  lemma {:induction false} LineBreakFirst(input: Bytes, start: nat)
    requires start <= |input|
    ensures forall k :: start <= k < LineBreak(input, start) ==> !IsBreak(input[k])
    ensures LineBreak(input, start) < |input| ==> IsBreak(input[LineBreak(input, start)])
    decreases |input| - start
  {
    if start < |input| && !IsBreak(input[start]) { LineBreakFirst(input, start + 1); }
  }

  lemma LineBreakIs(input: Bytes, start: nat, i: nat)
    requires start <= i <= |input| && (i < |input| ==> IsBreak(input[i]))
    requires forall k :: start <= k < i ==> !IsBreak(input[k])
    ensures LineBreak(input, start) == i
  {
    LineBreakFirst(input, start);
  }

  /** Where the line that begins at `start` ends; its CRLF must lie within the section limit. */
  function LineEnd(input: Bytes, start: nat): (end: Result<nat>)
    requires start <= |input|
    ensures end.Ok? ==> start <= end.value && end.value + 2 <= SECTION_MAX && CrlfAt(input, end.value)
  {
    var i := LineBreak(input, start);
    if i >= SECTION_MAX then
      if |input| > SECTION_MAX then Err(LimitExceeded(HeaderSectionBytes, SECTION_MAX, SECTION_MAX + 1))
      else Err(Incomplete)
    else if i == |input| then Err(Incomplete)
    else if !CrlfAt(input, i) then Err(InvalidHeader(start, BareLineEnding))
    else if i + 2 > SECTION_MAX then Err(LimitExceeded(HeaderSectionBytes, SECTION_MAX, i + 2))
    else Ok(i)
  }

  // ---------- fields ----------

  predicate HasOws(s: Bytes) { exists i :: 0 <= i < |s| && IsOws(s[i]) }

  function NameOf(s: Bytes, lineStart: nat): Result<Bytes> {
    if s == [] then Err(InvalidHeader(lineStart, InvalidName))
    else if |s| > NAME_MAX then Err(LimitExceeded(HeaderNameBytes, NAME_MAX, |s|))
    else if HasOws(s) then Err(InvalidHeader(lineStart, WhitespaceBeforeColon))
    else if !AllToken(s) then Err(InvalidHeader(lineStart, InvalidName))
    else Ok(LowerAll(s))
  }

  function ValueOf(s: Bytes, lineStart: nat): Result<Bytes> {
    if !AllFieldValue(s) then Err(InvalidHeader(lineStart, InvalidValueByte))
    else if |TrimOws(s)| > VALUE_MAX then Err(LimitExceeded(HeaderValueBytes, VALUE_MAX, |TrimOws(s)|))
    else Ok(TrimOws(s))
  }

  function FieldOf(line: Bytes, lineStart: nat): Result<HeaderField> {
    var colon := IndexOf(line, ':');
    if line != [] && IsOws(line[0]) then Err(InvalidHeader(lineStart, ObsFold))
    else if colon == |line| then Err(InvalidHeader(lineStart, InvalidName))
    else
      var name := NameOf(line[..colon], lineStart);
      var value := ValueOf(line[colon + 1..], lineStart);
      if name.Err? then Err(name.error)
      else if value.Err? then Err(value.error)
      else Ok(HeaderField(name.value, value.value))
  }

  function ParseFrom(input: Bytes, start: nat, fields: seq<HeaderField>): Result<HeaderBlock>
    requires start <= |input|
    decreases |input| - start
  {
    var end := LineEnd(input, start);
    if end.Err? then Err(end.error)
    else if end.value == start then Ok(HeaderBlock(fields, start + 2))
    else if |fields| == FIELD_MAX then Err(TooManyHeaders)
    else
      var field := FieldOf(input[start..end.value], start);
      if field.Err? then Err(field.error)
      else ParseFrom(input, end.value + 2, fields + [field.value])
  }

  lemma ParseStep(input: Bytes, start: nat, fields: seq<HeaderField>, end: nat, field: HeaderField)
    requires start <= |input| && LineEnd(input, start) == Ok(end) && end != start
    requires |fields| < FIELD_MAX && FieldOf(input[start..end], start) == Ok(field)
    ensures ParseFrom(input, start, fields) == ParseFrom(input, end + 2, fields + [field])
  {
  }

  /** The block a section stands for, or the first reason it is refused. */
  function ParseSection(input: Bytes): Result<HeaderBlock> {
    ParseFrom(input, 0, [])
  }

  // ---------- the typed cursor ----------

  datatype FramedLine = Field(bytes: Bytes, next: nat) | Terminator(next: nat)

  method FrameNextLine(input: Bytes, start: nat) returns (r: Result<FramedLine>)
    requires start <= |input| && start <= SECTION_MAX
    ensures r.Err? ==> LineEnd(input, start) == Err(r.error)
    ensures r.Ok? ==>
      && LineEnd(input, start).Ok?
      && var end := LineEnd(input, start).value;
         r.value == if end == start then Terminator(end + 2) else FramedLine.Field(input[start..end], end + 2)
  {
    var position := start;
    while true
      invariant start <= position <= |input|
      invariant position <= SECTION_MAX
      invariant forall k :: start <= k < position ==> !IsBreak(input[k])
      decreases |input| - position
    {
      if position == SECTION_MAX {
        if position < |input| {
          LineBreakFirst(input, start);
          return Err(LimitExceeded(HeaderSectionBytes, SECTION_MAX, SECTION_MAX + 1));
        }
        LineBreakIs(input, start, position);
        return Err(Incomplete);
      }
      if position == |input| {
        LineBreakIs(input, start, position);
        return Err(Incomplete);
      }
      var byte := input[position];
      if byte == '\n' {
        LineBreakIs(input, start, position);
        return Err(InvalidHeader(start, BareLineEnding));
      }
      if byte != '\r' {
        position := position + 1;
        continue;
      }
      LineBreakIs(input, start, position);
      if position + 1 >= |input| || input[position + 1] != '\n' {
        return Err(InvalidHeader(start, BareLineEnding));
      }
      var next := position + 2;
      if next > SECTION_MAX {
        return Err(LimitExceeded(HeaderSectionBytes, SECTION_MAX, next));
      }
      if position == start {
        return Ok(Terminator(next));
      }
      return Ok(FramedLine.Field(input[start..position], next));
    }
  }

  function CountLeadingOws(s: Bytes): nat { OwsEnd(s, 0) }

  function CountTrailingOws(s: Bytes): nat { |s| - OwsStart(s, 0, |s|) }

  /** Counting the whitespace at both ends, as the typed cursor does. */
  function TrimByCounts(s: Bytes): (t: Bytes)
    ensures t == TrimOws(s)
  {
    var leading, trailing := CountLeadingOws(s), CountTrailingOws(s);
    var length := if |s| >= leading + trailing then |s| - (leading + trailing) else 0;
    OwsEndAll(s, 0);
    OwsStartAll(s, 0, |s|);
    assert leading < |s| ==> |s| - trailing > leading;
    TrimOwsIs(s, leading, leading + length);
    s[leading..leading + length]
  }

  function TrimmedValue(bytes: Bytes, lineStart: nat): (r: Result<Bytes>)
    ensures r == ValueOf(bytes, lineStart)
  {
    if !AllFieldValue(bytes) then Err(InvalidHeader(lineStart, InvalidValueByte))
    else
      var trimmed := TrimByCounts(bytes);
      if |trimmed| > VALUE_MAX then Err(LimitExceeded(HeaderValueBytes, VALUE_MAX, |trimmed|)) else Ok(trimmed)
  }

  /** Splitting a framed line at its first colon and checking both sides. */
  function CursorField(bytes: Bytes, lineStart: nat): (r: Result<HeaderField>)
    ensures r == FieldOf(bytes, lineStart)
  {
    var colon := IndexOf(bytes, ':');
    if bytes != [] && IsOws(bytes[0]) then Err(InvalidHeader(lineStart, ObsFold))
    else if colon == |bytes| then Err(InvalidHeader(lineStart, InvalidName))
    else
      var name := NameOf(bytes[..colon], lineStart);
      if name.Err? then Err(name.error)
      else
        var value := TrimmedValue(bytes[colon + 1..], lineStart);
        if value.Err? then Err(value.error) else Ok(HeaderField(name.value, value.value))
  }

  method ParseByCursor(input: Bytes) returns (r: Result<HeaderBlock>)
    ensures r == ParseSection(input)
  {
    var cursor := 0;
    var fields: seq<HeaderField> := [];
    while true
      invariant cursor <= |input| && cursor <= SECTION_MAX
      invariant ParseFrom(input, cursor, fields) == ParseSection(input)
      decreases |input| - cursor
    {
      var lineStart := cursor;
      var framed := FrameNextLine(input, cursor);
      if framed.Err? { return Err(framed.error); }
      if framed.value.Terminator? { return Ok(HeaderBlock(fields, framed.value.next)); }
      var bytes, next := framed.value.bytes, framed.value.next;
      if |fields| == FIELD_MAX { return Err(TooManyHeaders); }
      var field := CursorField(bytes, lineStart);
      if field.Err? { return Err(field.error); }
      fields := fields + [field.value];
      cursor := next;
    }
  }
}
