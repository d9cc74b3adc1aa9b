/** The header parser that cuts complete lines off an unconsumed suffix. */
module HeaderAlgebraic {
  import opened Bytes
  import opened Http
  import opened HeaderSection

  /** The unconsumed suffix, with its offset in the original input. */
  datatype SectionTail = SectionTail(offset: nat, bytes: Bytes)

  datatype NextLine = Field(offset: nat, line: Bytes, tail: SectionTail) | End(bytesConsumed: nat)

  ghost predicate TailOf(tail: SectionTail, input: Bytes) {
    tail.offset <= |input| && tail.bytes == input[tail.offset..]
  }

  /** Where the first CR or LF is, or the length. */
  function FirstBreak(bytes: Bytes): nat { LineBreak(bytes, 0) }

  lemma BreakInSuffix(input: Bytes, start: nat)
    requires start <= |input|
    ensures LineBreak(input, start) == start + FirstBreak(input[start..])
  {
    LineBreakFirst(input[start..], 0);
    var i := FirstBreak(input[start..]);
    forall k | start <= k < start + i ensures !IsBreak(input[k]) {
      assert input[k] == input[start..][k - start];
    }
    LineBreakIs(input, start, start + i);
  }

  lemma CrlfOccurs(bytes: Bytes, i: nat)
    ensures OccursAt(bytes, CRLF, i) <==> CrlfAt(bytes, i)
  {
    if i + 2 <= |bytes| {
      assert bytes[i..i + 2] == [bytes[i], bytes[i + 1]];
    }
  }

  /** Searching for CRLF and then for a stray break finds what the first break of the line decides. */
  lemma DelimiterAndBreak(bytes: Bytes)
    ensures var delimiter, first := FindSequence(bytes, CRLF), FirstBreak(bytes);
      && (delimiter.Nowhere? ==> !CrlfAt(bytes, first))
      && (delimiter.At? ==>
            && delimiter.index + 2 <= |bytes| && first <= delimiter.index
            && (CrlfAt(bytes, first) <==> first == delimiter.index)
            && FirstBreak(bytes[..delimiter.index]) == first)
  {
    var delimiter, first := FindSequence(bytes, CRLF), FirstBreak(bytes);
    LineBreakFirst(bytes, 0);
    CrlfOccurs(bytes, first);
    if delimiter.At? {
      var line := bytes[..delimiter.index];
      CrlfOccurs(bytes, delimiter.index);
      assert forall k :: 0 <= k < delimiter.index ==> line[k] == bytes[k];
      LineBreakIs(line, 0, first);
    }
  }

  /** The same, in the offsets of the whole input. */
  lemma DelimiterInSuffix(input: Bytes, tail: SectionTail)
    requires TailOf(tail, input)
    ensures var delimiter, line := FindSequence(tail.bytes, CRLF), LineBreak(input, tail.offset);
      && (delimiter.Nowhere? ==> !CrlfAt(input, line) && FirstBreak(tail.bytes) == line - tail.offset)
      && (delimiter.At? ==>
            && delimiter.index + 2 <= |tail.bytes| && line <= tail.offset + delimiter.index
            && (CrlfAt(input, line) <==> line == tail.offset + delimiter.index)
            && FirstBreak(tail.bytes[..delimiter.index]) == line - tail.offset)
  {
    BreakInSuffix(input, tail.offset);
    DelimiterAndBreak(tail.bytes);
    var first := FirstBreak(tail.bytes);
    assert CrlfAt(input, tail.offset + first) <==> CrlfAt(tail.bytes, first);
  }

  method TakeCompleteLine(tail: SectionTail, ghost input: Bytes) returns (next: Result<NextLine>)
    requires TailOf(tail, input)
    ensures next.Err? ==> LineEnd(input, tail.offset) == Err(next.error)
    ensures next.Ok? ==>
      && LineEnd(input, tail.offset).Ok?
      && var end := LineEnd(input, tail.offset).value;
         if end == tail.offset then next.value == End(end + 2)
         else next.value == NextLine.Field(tail.offset, input[tail.offset..end], SectionTail(end + 2, input[end + 2..]))
  {
    DelimiterInSuffix(input, tail);
    var delimiter := FindSequence(tail.bytes, CRLF);
    if delimiter.Nowhere? {
      var control := FirstBreak(tail.bytes);
      if control < |tail.bytes| && tail.offset + control < SECTION_MAX {
        return Err(InvalidHeader(tail.offset, BareLineEnding));
      }
      if tail.offset + |tail.bytes| > SECTION_MAX {
        return Err(LimitExceeded(HeaderSectionBytes, SECTION_MAX, SECTION_MAX + 1));
      }
      return Err(Incomplete);
    }
    var length := delimiter.index;
    var embedded := FirstBreak(tail.bytes[..length]);
    if embedded < length && tail.offset + embedded < SECTION_MAX {
      return Err(InvalidHeader(tail.offset, BareLineEnding));
    }
    var nextOffset := tail.offset + length + 2;
    if nextOffset > SECTION_MAX {
      return Err(LimitExceeded(HeaderSectionBytes, SECTION_MAX, SECTION_MAX + 1));
    }
    if length == 0 { return Ok(End(nextOffset)); }
    assert tail.bytes[..length] == input[tail.offset..tail.offset + length];
    assert tail.bytes[length + 2..] == input[nextOffset..];
    return Ok(NextLine.Field(tail.offset, tail.bytes[..length], SectionTail(nextOffset, tail.bytes[length + 2..])));
  }

  /** From the first to the last byte that is not whitespace. */
  function TrimmedByEnds(bytes: Bytes): (t: Bytes)
    ensures t == TrimOws(bytes)
  {
    var first, last := OwsEnd(bytes, 0), OwsStart(bytes, 0, |bytes|);
    OwsEndAll(bytes, 0);
    OwsStartAll(bytes, 0, |bytes|);
    if first == |bytes| then
      TrimOwsIs(bytes, first, first);
      bytes[0..0]
    else
      TrimOwsIs(bytes, first, last);
      bytes[first..last]
  }

  method ParseField(offset: nat, line: Bytes) returns (r: Result<HeaderField>)
    ensures r == FieldOf(line, offset)
  {
    if line != [] && IsOws(line[0]) { return Err(InvalidHeader(offset, ObsFold)); }
    var colon := IndexOf(line, ':');
    if colon == |line| { return Err(InvalidHeader(offset, InvalidName)); }
    var name := NameOf(line[..colon], offset);
    if name.Err? { return Err(name.error); }
    var bytes := line[colon + 1..];
    if !AllFieldValue(bytes) { return Err(InvalidHeader(offset, InvalidValueByte)); }
    var trimmed := TrimmedByEnds(bytes);
    if |trimmed| > VALUE_MAX { return Err(LimitExceeded(HeaderValueBytes, VALUE_MAX, |trimmed|)); }
    return Ok(HeaderField(name.value, trimmed));
  }

  method ParseByLines(input: Bytes) returns (r: Result<HeaderBlock>)
    ensures r == ParseSection(input)
  {
    hide FieldOf;
    hide LineEnd;
    var tail := SectionTail(0, input);
    var fields: seq<HeaderField> := [];
    while true
      invariant TailOf(tail, input) && |fields| <= FIELD_MAX
      invariant ParseFrom(input, tail.offset, fields) == ParseSection(input)
      decreases |input| - tail.offset
    {
      ghost var start := tail.offset;
      var next := TakeCompleteLine(tail, input);
      if next.Err? { return Err(next.error); }
      ghost var end := LineEnd(input, start).value;
      if next.value.End? { return Ok(HeaderBlock(fields, next.value.bytesConsumed)); }
      if |fields| == FIELD_MAX { return Err(TooManyHeaders); }
      var field := ParseField(next.value.offset, next.value.line);
      assert field == FieldOf(input[start..end], start);
      if field.Err? { return Err(field.error); }
      ParseStep(input, start, fields, end, field.value);
      fields := fields + [field.value];
      tail := next.value.tail;
    }
  }
}
