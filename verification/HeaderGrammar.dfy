/** The grammar of a header section, section 5 of RFC 9112, and the section parsers against it. */
module HeaderGrammar {
  import opened Bytes
  import opened HeaderSection
  import opened Http

  /** A field as it is written: a name, a colon, and a value between optional whitespace. */
  datatype Line = Line(name: Bytes, lead: Bytes, value: Bytes, trail: Bytes)

  predicate AllOws(s: Bytes) { forall i :: 0 <= i < |s| ==> s[i] == ' ' || s[i] == '\t' }

  predicate Allowed(line: Line) {
    && 1 <= |line.name| <= NAME_MAX && AllToken(line.name) && AllOws(line.lead) && AllOws(line.trail)
    && |line.value| <= VALUE_MAX && AllFieldValue(line.value) && NoEdgeOws(line.value)
  }

  function Text(line: Line): Bytes { line.name + [':'] + (line.lead + line.value + line.trail) }

  /** A field means its name in lower case and its value without the whitespace around it. */
  function Meaning(line: Line): HeaderField { HeaderField(LowerAll(line.name), line.value) }

  predicate AllAllowed(lines: seq<Line>) { forall i :: 0 <= i < |lines| ==> Allowed(lines[i]) }

  function Lines(lines: seq<Line>): Bytes {
    if lines == [] then [] else Text(lines[0]) + CRLF + Lines(lines[1..])
  }

  function Meanings(lines: seq<Line>): (r: seq<HeaderField>)
    ensures |r| == |lines| && forall i :: 0 <= i < |lines| ==> r[i] == Meaning(lines[i])
  {
    if lines == [] then [] else [Meaning(lines[0])] + Meanings(lines[1..])
  }

  // ---------- one line ----------

  lemma Trimmed(lead: Bytes, value: Bytes, trail: Bytes)
    requires AllOws(lead) && AllOws(trail) && NoEdgeOws(value)
    ensures TrimOws(lead + value + trail) == value
  {
    var s, i, j := lead + value + trail, |lead|, |lead| + |value|;
    assert forall k :: 0 <= k < i ==> s[k] == lead[k];
    assert forall k :: j <= k < |s| ==> s[k] == trail[k - j];
    assert i < j ==> s[i] == value[0] && s[j - 1] == value[|value| - 1];
    TrimOwsIs(s, i, j);
    assert s[i..j] == value;
  }

  lemma ValueReads(line: Line, at: nat)
    requires Allowed(line)
    ensures ValueOf(line.lead + line.value + line.trail, at) == Ok(line.value)
  {
    var s := line.lead + line.value + line.trail;
    Trimmed(line.lead, line.value, line.trail);
    assert forall k :: 0 <= k < |line.lead| ==> IsFieldValue(line.lead[k]);
    assert forall k :: 0 <= k < |line.trail| ==> IsFieldValue(line.trail[k]);
    hide IsFieldValue;
    hide TrimOws;
  }

  lemma NameReads(name: Bytes, at: nat)
    requires 1 <= |name| <= NAME_MAX && AllToken(name)
    ensures NameOf(name, at) == Ok(LowerAll(name))
  {
    TokenIsPlain(name);
  }

  /** A written field is read as what it means. */
  lemma LineReads(line: Line, at: nat)
    requires Allowed(line)
    ensures FieldOf(Text(line), at) == Ok(Meaning(line))
  {
    hide AllToken;
    hide AllFieldValue;
    hide AllOws;
    hide NoEdgeOws;
    hide NameOf;
    hide ValueOf;
    hide LowerAll;
    var after := line.lead + line.value + line.trail;
    NamePart(line.name, [], after);
    assert line.name + [] == line.name;
    NameReads(line.name, at);
    ValueReads(line, at);
  }

  lemma ValueFrom(after: Bytes, at: nat) returns (lead: Bytes, value: Bytes, trail: Bytes)
    requires ValueOf(after, at).Ok?
    ensures after == lead + value + trail && AllOws(lead) && AllOws(trail) && value == ValueOf(after, at).value
    ensures |value| <= VALUE_MAX && AllFieldValue(value) && NoEdgeOws(value)
  {
    var i, j := TrimOwsResult(after);
    TrimOwsHasNoEdgeOws(after);
    hide TrimOws;
    lead, value, trail := after[..i], after[i..j], after[j..];
    assert forall k :: 0 <= k < |value| ==> value[k] == after[i + k];
  }

  /** And whatever is read as a field is written so. */
  lemma LineFrom(text: Bytes, at: nat) returns (line: Line)
    requires FieldOf(text, at).Ok?
    ensures Allowed(line) && Text(line) == text && Meaning(line) == FieldOf(text, at).value
  {
    hide ValueOf;
    hide AllOws;
    hide AllFieldValue;
    hide NoEdgeOws;
    hide HasOws;
    hide AllToken;
    hide LowerAll;
    var colon := IndexOf(text, ':');
    IndexOfFirst(text, ':');
    hide IndexOf;
    var after := text[colon + 1..];
    var lead, value, trail := ValueFrom(after, at);
    line := Line(text[..colon], lead, value, trail);
    assert text == text[..colon] + [':'] + after;
  }

  // ---------- sections ----------

  lemma PlainText(line: Line)
    requires Allowed(line)
    ensures Text(line) != [] && forall i :: 0 <= i < |Text(line)| ==> !IsBreak(Text(line)[i])
  {
    TokenIsPlain(line.name);
    var text, n := Text(line), |line.name|;
    var after := line.lead + line.value + line.trail;
    assert forall k :: 0 <= k < |line.value| ==> IsFieldValue(line.value[k]);
    assert forall k :: 0 <= k < |after| ==> !IsBreak(after[k]);
    assert forall k :: 0 <= k < n ==> text[k] == line.name[k];
    assert forall k :: n < k < |text| ==> text[k] == after[k - n - 1];
  }

  /** A line of plain text and its line end. */
  lemma LineStands(input: Bytes, start: nat, text: Bytes)
    requires StandsAt(input, start, text + CRLF) && forall i :: 0 <= i < |text| ==> !IsBreak(text[i])
    ensures LineBreak(input, start) == start + |text| && CrlfAt(input, start + |text|)
    ensures input[start..start + |text|] == text
  {
    var end := start + |text|;
    StandsParts(input, start, text, CRLF);
    forall k | start <= k < end ensures !IsBreak(input[k]) { StandsByte(input, start, text, k - start); }
    StandsByte(input, end, CRLF, 0);
    StandsByte(input, end, CRLF, 1);
    LineBreakIs(input, start, end);
  }

  lemma LinesCons(lines: seq<Line>, end: Bytes)
    requires lines != [] && AllAllowed(lines)
    ensures Lines(lines) + end == Text(lines[0]) + CRLF + (Lines(lines[1..]) + end)
    ensures |Lines(lines)| == |Text(lines[0])| + 2 + |Lines(lines[1..])|
    ensures Allowed(lines[0]) && AllAllowed(lines[1..])
    ensures Meanings(lines) == [Meaning(lines[0])] + Meanings(lines[1..])
  {
    hide Text;
    hide Meaning;
    hide Allowed;
    ConcatAssociates(Text(lines[0]) + CRLF, Lines(lines[1..]), end);
    assert forall k :: 0 <= k < |lines[1..]| ==> lines[1..][k] == lines[k + 1];
  }

  lemma NoLines(lines: seq<Line>)
    requires lines == []
    ensures Lines(lines) == [] && Meanings(lines) == [] && Lines(lines) + CRLF == [] + CRLF
  {
  }

  /** Written fields are read as what they mean, in order, whatever follows them. */
  lemma {:induction false} LinesRead(input: Bytes, start: nat, lines: seq<Line>, done: seq<HeaderField>)
    requires AllAllowed(lines) && |done| + |lines| <= FIELD_MAX
    requires StandsAt(input, start, Lines(lines)) && start + |Lines(lines)| <= SECTION_MAX
    ensures start + |Lines(lines)| <= |input|
    ensures ParseFrom(input, start, done) == ParseFrom(input, start + |Lines(lines)|, done + Meanings(lines))
    decreases |lines|
  {
    hide StandsAt;
    hide Text;
    hide Meaning;
    hide Meanings;
    hide Lines;
    hide AllAllowed;
    hide Allowed;
    hide FieldOf;
    hide LineBreak;
    StandsWithin(input, start, Lines(lines));
    if lines == [] {
      NoLines(lines);
      assert done + [] == done;
    } else {
      LinesCons(lines, []);
      var text, rest := Text(lines[0]), Lines(lines[1..]);
      var end := start + |text|;
      assert Lines(lines) + [] == Lines(lines) && rest + [] == rest;
      StandsParts(input, start, text + CRLF, rest);
      PlainText(lines[0]);
      LineStands(input, start, text);
      LineReads(lines[0], start);
      ParseStep(input, start, done, end, Meaning(lines[0]));
      hide ParseFrom;
      LinesRead(input, end + 2, lines[1..], done + [Meaning(lines[0])]);
      ConcatAssociates(done, [Meaning(lines[0])], Meanings(lines[1..]));
    }
  }

  /** Whatever is accepted is such lines. */
  lemma {:induction false} LinesFrom(input: Bytes, start: nat, done: seq<HeaderField>) returns (lines: seq<Line>)
    requires start <= |input| && ParseFrom(input, start, done).Ok? && |done| <= FIELD_MAX
    ensures AllAllowed(lines) && |done| + |lines| <= FIELD_MAX
    ensures var block := ParseFrom(input, start, done).value;
      && start <= block.bytesConsumed <= |input| && block.bytesConsumed <= SECTION_MAX
      && input[start..block.bytesConsumed] == Lines(lines) + CRLF && block.fields == done + Meanings(lines)
    decreases |input| - start
  {
    hide Text;
    hide Meaning;
    hide Allowed;
    hide FieldOf;
    hide LineBreak;
    var end := LineEnd(input, start).value;
    if end == start {
      lines := [];
      assert input[start..start + 2] == CRLF && [] + CRLF == CRLF && done + [] == done;
    } else {
      var field := FieldOf(input[start..end], start).value;
      var line := LineFrom(input[start..end], start);
      var rest := LinesFrom(input, end + 2, done + [field]);
      ParseStep(input, start, done, end, field);
      lines := [line] + rest;
      LinesTogether(input, start, end, done, line, rest, ParseFrom(input, start, done).value.bytesConsumed);
    }
  }

  lemma LinesTogether(input: Bytes, start: nat, end: nat, done: seq<HeaderField>, line: Line, rest: seq<Line>, after: nat)
    requires start <= end && end + 2 <= after <= |input| && Text(line) == input[start..end] && CrlfAt(input, end)
    requires Allowed(line) && AllAllowed(rest) && input[end + 2..after] == Lines(rest) + CRLF
    ensures AllAllowed([line] + rest) && input[start..after] == Lines([line] + rest) + CRLF
    ensures done + [Meaning(line)] + Meanings(rest) == done + Meanings([line] + rest)
  {
    hide Text;
    hide Meaning;
    hide Allowed;
    var lines := [line] + rest;
    assert lines[1..] == rest;
    assert input[start..after] == input[start..end] + CRLF + input[end + 2..after];
    ConcatAssociates(Text(line) + CRLF, Lines(rest), CRLF);
    ConcatAssociates(done, [Meaning(line)], Meanings(rest));
  }

  lemma TextFirst(a: Bytes, b: Bytes)
    ensures StandsAt(a + b, 0, a) && StandsAt(a + b, |a|, b)
  {
    assert (a + b)[0..|a|] == a && (a + b)[|a|..|a| + |b|] == b;
  }

  /** A section within the limits is read as the fields its lines mean, up to its empty line. */
  lemma SectionReads(lines: seq<Line>, rest: Bytes)
    requires AllAllowed(lines) && |lines| <= FIELD_MAX && |Lines(lines)| + 2 <= SECTION_MAX
    ensures ParseSection(Lines(lines) + CRLF + rest) == Ok(HeaderBlock(Meanings(lines), |Lines(lines)| + 2))
  {
    hide Lines;
    hide Meanings;
    hide AllAllowed;
    hide StandsAt;
    hide ParseFrom;
    var n, input := |Lines(lines)|, Lines(lines) + CRLF + rest;
    ConcatAssociates(Lines(lines), CRLF, rest);
    TextFirst(Lines(lines), CRLF + rest);
    LinesRead(input, 0, lines, []);
    StandsParts(input, n, CRLF, rest);
    EmptyLineEnds(input, n, Meanings(lines));
    assert [] + Meanings(lines) == Meanings(lines);
  }

  lemma EmptyLineEnds(input: Bytes, n: nat, done: seq<HeaderField>)
    requires StandsAt(input, n, CRLF) && n + 2 <= SECTION_MAX
    ensures n <= |input| && ParseFrom(input, n, done) == Ok(HeaderBlock(done, n + 2))
  {
    hide LineBreak;
    StandsWithin(input, n, CRLF);
    assert [] + CRLF == CRLF;
    LineStands(input, n, []);
  }

  /** Every accepted section is such lines within those limits. */
  lemma AcceptedLines(input: Bytes) returns (lines: seq<Line>)
    requires ParseSection(input).Ok?
    ensures AllAllowed(lines) && |lines| <= FIELD_MAX && |Lines(lines)| + 2 <= SECTION_MAX && Lines(lines) + CRLF <= input
    ensures ParseSection(input).value == HeaderBlock(Meanings(lines), |Lines(lines)| + 2)
  {
    hide ParseFrom;
    hide AllAllowed;
    hide Meanings;
    hide Lines;
    lines := LinesFrom(input, 0, []);
    assert [] + Meanings(lines) == Meanings(lines);
    assert input[0..|Lines(lines)| + 2] == Lines(lines) + CRLF;
  }

  /** The first line that is not a field is what the section is refused for, with the place where it begins. */
  lemma FaultyLine(lines: seq<Line>, bad: Bytes, rest: Bytes)
    requires AllAllowed(lines) && |lines| < FIELD_MAX && |Lines(lines)| + |bad| + 2 <= SECTION_MAX
    requires bad != [] && (forall i :: 0 <= i < |bad| ==> !IsBreak(bad[i])) && FieldOf(bad, |Lines(lines)|).Err?
    ensures ParseSection(Lines(lines) + (bad + CRLF) + rest) == Err(FieldOf(bad, |Lines(lines)|).error)
  {
    hide Lines;
    hide Meanings;
    hide LineBreak;
    hide AllAllowed;
    hide StandsAt;
    hide FieldOf;
    hide IsBreak;
    var n, input := |Lines(lines)|, Lines(lines) + (bad + CRLF) + rest;
    ConcatAssociates(Lines(lines), bad + CRLF, rest);
    TextFirst(Lines(lines), bad + CRLF + rest);
    LinesRead(input, 0, lines, []);
    StandsParts(input, n, bad + CRLF, rest);
    LineStands(input, n, bad);
  }

  /** The reasons: whitespace in front, no colon, no name. */
  lemma LineFaults(bad: Bytes, value: Bytes, at: nat)
    ensures bad != [] && IsOws(bad[0]) ==> FieldOf(bad, at) == Err(InvalidHeader(at, ObsFold))
    ensures bad != [] && !IsOws(bad[0]) && ':' !in bad ==> FieldOf(bad, at) == Err(InvalidHeader(at, InvalidName))
    ensures FieldOf([':'] + value, at) == Err(InvalidHeader(at, InvalidName))
  {
    hide ValueOf;
    if ':' !in bad { IndexOfUnique(bad, ':', |bad|); }
    NoName(value, at);
  }

  /** Whitespace before the colon, and a byte that no value has. */
  lemma NamedLineFaults(name: Bytes, ows: Bytes, value: Bytes, at: nat)
    requires 1 <= |name| && AllToken(name) && AllOws(ows) && |name| + |ows| <= NAME_MAX
    ensures ows != [] ==> FieldOf(name + ows + [':'] + value, at) == Err(InvalidHeader(at, WhitespaceBeforeColon))
    ensures ows == [] && !AllFieldValue(value) ==>
      FieldOf(name + ows + [':'] + value, at) == Err(InvalidHeader(at, InvalidValueByte))
  {
    hide ValueOf;
    hide NameOf;
    hide AllToken;
    hide AllOws;
    hide AllFieldValue;
    NamePart(name, ows, value);
    if ows != [] {
      SpacedName(name, ows, at);
    } else {
      assert name + ows == name;
      NameReads(name, at);
      BadValue(value, at);
    }
  }

  lemma NoName(value: Bytes, at: nat)
    ensures FieldOf([':'] + value, at) == Err(InvalidHeader(at, InvalidName))
  {
    var text := [':'] + value;
    IndexOfUnique(text, ':', 0);
  }

  lemma NamePart(name: Bytes, ows: Bytes, value: Bytes)
    requires name != [] && AllToken(name) && (ows == [] || AllOws(ows))
    ensures var text := name + ows + [':'] + value;
      && IndexOf(text, ':') == |name + ows| && !IsOws(text[0]) && text[..|name + ows|] == name + ows
      && text[|name + ows| + 1..] == value
  {
    var text := name + ows + [':'] + value;
    TokenIsPlain(name);
    assert forall k :: 0 <= k < |name| ==> text[k] == name[k];
    assert forall k :: |name| <= k < |name + ows| ==> text[k] == ows[k - |name|];
    IndexOfUnique(text, ':', |name + ows|);
  }

  lemma SpacedName(name: Bytes, ows: Bytes, at: nat)
    requires ows != [] && AllOws(ows)
    ensures |name| + |ows| <= NAME_MAX ==> NameOf(name + ows, at) == Err(InvalidHeader(at, WhitespaceBeforeColon))
  {
    assert IsOws((name + ows)[|name|]);
  }

  lemma BadValue(value: Bytes, at: nat)
    ensures !AllFieldValue(value) ==> ValueOf(value, at) == Err(InvalidHeader(at, InvalidValueByte))
  {
  }
}
