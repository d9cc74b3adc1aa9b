/** The request line: its grammar and the direct parser. */
module RequestLineDirect {
  import opened Bytes
  import opened Http
  import opened HeaderSection

  const LINE_MAX := 8_192
  const METHOD_MAX := 32
  const SP: Bytes := " "
  const VERSION: Bytes := "HTTP/1.1"

  predicate StopsLine(c: Byte) { IsControl(c) && c != '\t' }

  /** The first control byte other than a tab, within the limit. */
  function LineStop(input: Bytes, from: nat): (i: nat)
    requires from <= |input| && from <= LINE_MAX
    ensures from <= i <= |input| && i <= LINE_MAX
    decreases |input| - from
  {
    if from == |input| || from == LINE_MAX || StopsLine(input[from]) then from else LineStop(input, from + 1)
  }

  lemma {:induction false} LineStopFirst(input: Bytes, from: nat)
    requires from <= |input| && from <= LINE_MAX
    ensures forall k :: from <= k < LineStop(input, from) ==> !StopsLine(input[k])
    ensures var i := LineStop(input, from); i == |input| || i == LINE_MAX || StopsLine(input[i])
    decreases |input| - from
  {
    if from < |input| && from < LINE_MAX && !StopsLine(input[from]) { LineStopFirst(input, from + 1); }
  }

  lemma LineStopIs(input: Bytes, i: nat)
    requires i <= |input| && i <= LINE_MAX && (i == |input| || i == LINE_MAX || StopsLine(input[i]))
    requires forall k :: 0 <= k < i ==> !StopsLine(input[k])
    ensures LineStop(input, 0) == i
  {
    LineStopFirst(input, 0);
  }

  /** The length of the line, without its CRLF. */
  function LineLength(input: Bytes): (r: Result<nat>)
    ensures r.Ok? ==> r.value <= LINE_MAX && CrlfAt(input, r.value)
  {
    var i := LineStop(input, 0);
    if i == |input| then Err(Incomplete)
    else if CrlfAt(input, i) then Ok(i)
    else if i == LINE_MAX then Err(LimitExceeded(RequestLineBytes, LINE_MAX, LINE_MAX + 1))
    else if IsBreak(input[i]) then Err(InvalidRequestLine(BareLineEnding))
    else Err(InvalidRequestLine(ControlCharacter))
  }

  predicate IsTargetByte(c: Byte) { c != '#' && IsVisible(c) }

  /** What is wrong with the first bad byte of a target. */
  function TargetFault(target: Bytes, from: nat): Option<Reason>
    requires from <= |target|
    decreases |target| - from
  {
    if from == |target| then None
    else if target[from] == '#' then Some(FragmentNotAllowed)
    else if !IsVisible(target[from]) then Some(NonVisibleAscii)
    else TargetFault(target, from + 1)
  }

  predicate AllTargetBytes(target: Bytes) { forall i :: 0 <= i < |target| ==> IsTargetByte(target[i]) }

  lemma {:induction false} NoTargetFault(target: Bytes, from: nat)
    requires from <= |target|
    ensures TargetFault(target, from).None? <==> forall i :: from <= i < |target| ==> IsTargetByte(target[i])
    decreases |target| - from
  {
    if from < |target| && IsTargetByte(target[from]) { NoTargetFault(target, from + 1); }
  }

  /** Method, target and version are checked only once the line is known to be three words. */
  function ParseWords(verb: Bytes, target: Bytes, version: Bytes, consumed: nat): Result<RequestLine> {
    if |verb| > METHOD_MAX || !AllToken(verb) then Err(InvalidMethod)
    else if |target| > LINE_MAX then Err(InvalidTarget(NonVisibleAscii))
    else if TargetFault(target, 0).Some? then Err(InvalidTarget(TargetFault(target, 0).value))
    else if version != VERSION then Err(UnsupportedVersion)
    else Ok(RequestLine(LowerAll(verb), target, consumed))
  }

  function ParseLine(line: Bytes): (r: Result<RequestLine>)
    ensures r.Ok? ==> r.value.bytesConsumed == |line| + 2
  {
    var verbEnd := IndexOf(line, ' ');
    if '\t' in line || verbEnd == 0 || verbEnd == |line| then Err(InvalidRequestLine(InvalidSpacing))
    else
      var rest := line[verbEnd + 1..];
      var targetEnd := IndexOf(rest, ' ');
      if targetEnd == |rest| && rest != [] then Err(UnsupportedVersion)
      else if targetEnd == |rest| || targetEnd == 0 then Err(InvalidRequestLine(InvalidSpacing))
      else
        var version := rest[targetEnd + 1..];
        if version == [] || ' ' in version then Err(InvalidRequestLine(InvalidSpacing))
        else ParseWords(line[..verbEnd], rest[..targetEnd], version, |line| + 2)
  }

  function Parse(input: Bytes): (r: Result<RequestLine>)
    ensures r.Ok? ==> r.value.bytesConsumed <= |input|
  {
    var length := LineLength(input);
    if length.Err? then Err(length.error) else ParseLine(input[..length.value])
  }

  // ---------- the parser ----------

  method FindTerminator(input: Bytes) returns (r: Result<nat>)
    ensures r == LineLength(input)
  {
    var offset: nat := 0;
    while offset < |input|
      invariant offset <= |input| && offset <= LINE_MAX
      invariant forall k :: 0 <= k < offset ==> !StopsLine(input[k])
    {
      if offset == LINE_MAX {
        LineStopIs(input, offset);
        if input[offset] == '\r' && offset + 1 < |input| && input[offset + 1] == '\n' { return Ok(offset); }
        return Err(LimitExceeded(RequestLineBytes, LINE_MAX, LINE_MAX + 1));
      }
      var byte := input[offset];
      if byte == '\r' {
        LineStopIs(input, offset);
        if offset + 1 < |input| && input[offset + 1] == '\n' { return Ok(offset); }
        return Err(InvalidRequestLine(BareLineEnding));
      }
      if byte == '\n' {
        LineStopIs(input, offset);
        return Err(InvalidRequestLine(BareLineEnding));
      }
      var code := byte as int;
      if code <= 8 || 11 <= code <= 12 || 14 <= code <= 31 || code == 127 {
        LineStopIs(input, offset);
        return Err(InvalidRequestLine(ControlCharacter));
      }
      offset := offset + 1;
    }
    LineStopIs(input, offset);
    return Err(Incomplete);
  }

  method CheckTarget(target: Bytes) returns (fault: Option<Reason>)
    ensures fault == TargetFault(target, 0)
  {
    for i := 0 to |target|
      invariant TargetFault(target, 0) == TargetFault(target, i)
    {
      if target[i] == '#' { return Some(FragmentNotAllowed); }
      if !('!' <= target[i] <= '~') { return Some(NonVisibleAscii); }
    }
    return None;
  }

  /** Offsets into the line, checked one after another. */
  method ParseRequestLine(input: Bytes) returns (r: Result<RequestLine>)
    ensures r == Parse(input)
  {
    hide LineLength;
    hide AllToken;
    hide TargetFault;
    var lineLength :- FindTerminator(input);
    var line := input[..lineLength];
    if '\t' in line { return Err(InvalidRequestLine(InvalidSpacing)); }
    var verbEnd := IndexOf(line, ' ');
    if verbEnd == |line| || verbEnd == 0 { return Err(InvalidRequestLine(InvalidSpacing)); }
    var targetStart := verbEnd + 1;
    var relative := IndexOf(line[targetStart..], ' ');
    if relative == |line| - targetStart {
      return Err(if targetStart < lineLength then UnsupportedVersion else InvalidRequestLine(InvalidSpacing));
    }
    var targetEnd := targetStart + relative;
    if targetEnd == targetStart { return Err(InvalidRequestLine(InvalidSpacing)); }
    var versionStart := targetEnd + 1;
    assert line[targetStart..][relative + 1..] == line[versionStart..];
    assert line[targetStart..][..relative] == line[targetStart..targetEnd];
    if versionStart == lineLength || ' ' in line[versionStart..] { return Err(InvalidRequestLine(InvalidSpacing)); }
    var verb := line[..verbEnd];
    if |verb| > METHOD_MAX || !AllToken(verb) { return Err(InvalidMethod); }
    var target := line[targetStart..targetEnd];
    if |target| > LINE_MAX { return Err(InvalidTarget(NonVisibleAscii)); }
    var fault := CheckTarget(target);
    if fault.Some? { return Err(InvalidTarget(fault.value)); }
    if line[versionStart..] != VERSION { return Err(UnsupportedVersion); }
    return Ok(RequestLine(LowerAll(verb), target, lineLength + 2));
  }

  // ---------- the grammar ----------

  /** Section 3 of RFC 9112: method, space, target, space, version and CRLF, within the limits. */
  ghost predicate Grammar(input: Bytes, line: RequestLine) {
    var n, v := line.bytesConsumed, |line.verb|;
    && n == v + |line.target| + 12 && n <= |input| && n - 2 <= LINE_MAX
    && input[..n] == input[..v] + SP + line.target + " HTTP/1.1\r\n"
    && 1 <= v <= METHOD_MAX && AllToken(input[..v]) && line.verb == LowerAll(input[..v])
    && line.target != [] && AllTargetBytes(line.target)
  }

  function Words(verb: Bytes, target: Bytes): Bytes { verb + SP + target + SP + VERSION }

  predicate PlainLine(line: Bytes) {
    forall k :: 0 <= k < |line| ==> line[k] != '\t' && !StopsLine(line[k])
  }

  lemma WordsArePlain(verb: Bytes, target: Bytes)
    requires AllToken(verb) && AllTargetBytes(target)
    ensures PlainLine(Words(verb, target))
    ensures ' ' !in verb && ' ' !in target
  {
    TokenIsPlain(verb);
    assert PlainLine(verb) by {
      forall k | 0 <= k < |verb| ensures verb[k] != '\t' && !StopsLine(verb[k]) { assert IsToken(verb[k]); }
    }
    assert PlainLine(target) && ' ' !in target by {
      forall k | 0 <= k < |target| ensures target[k] != '\t' && !StopsLine(target[k]) && target[k] != ' ' {
        assert IsTargetByte(target[k]);
      }
    }
    PlainConcat(verb, SP);
    PlainConcat(verb + SP, target);
    PlainConcat(verb + SP + target, SP);
    PlainConcat(verb + SP + target + SP, VERSION);
  }

  lemma PlainConcat(a: Bytes, b: Bytes)
    requires PlainLine(a) && PlainLine(b)
    ensures PlainLine(a + b)
  {
  }

  /** A word without spaces, a space and the rest come apart again. */
  lemma FirstWord(word: Bytes, rest: Bytes)
    requires ' ' !in word
    ensures var line := word + SP + rest;
      IndexOf(line, ' ') == |word| && line[..|word|] == word && line[|word| + 1..] == rest
  {
    var line := word + SP + rest;
    assert forall k :: 0 <= k < |word| ==> line[k] == word[k];
    IndexOfUnique(line, ' ', |word|);
  }

  lemma WordsOfGrammar(verb: Bytes, target: Bytes)
    requires 1 <= |verb| <= METHOD_MAX && AllToken(verb) && target != [] && AllTargetBytes(target) && |target| <= LINE_MAX
    ensures var line := Words(verb, target);
      ParseLine(line) == Ok(RequestLine(LowerAll(verb), target, |line| + 2))
  {
    var rest := target + SP + VERSION;
    var line := Words(verb, target);
    assert line == verb + SP + rest by {
      ConcatAssociates(verb + SP, target, SP);
      ConcatAssociates(verb + SP, target + SP, VERSION);
    }
    assert '\t' !in line && ' ' !in verb && ' ' !in target by { WordsArePlain(verb, target); }
    FirstWord(verb, rest);
    FirstWord(target, VERSION);
    assert TargetFault(target, 0).None? by { NoTargetFault(target, 0); }
    hide TargetFault;
    hide AllTargetBytes;
    ThreeWords(line, verb, rest, target);
  }

  lemma ThreeWords(line: Bytes, verb: Bytes, rest: Bytes, target: Bytes)
    requires '\t' !in line && verb != [] && target != []
    requires IndexOf(line, ' ') == |verb| < |line| && line[..|verb|] == verb && line[|verb| + 1..] == rest
    requires IndexOf(rest, ' ') == |target| < |rest| && rest[..|target|] == target && rest[|target| + 1..] == VERSION
    ensures ParseLine(line) == ParseWords(verb, target, VERSION, |line| + 2)
  {
    hide ParseWords;
    assert ' ' !in VERSION;
  }

  lemma GrammarIsAccepted(input: Bytes, line: RequestLine)
    requires Grammar(input, line)
    ensures Parse(input) == Ok(line)
  {
    var n, verb := line.bytesConsumed, input[..|line.verb|];
    var words := Words(verb, line.target);
    assert input[..n] == words + CRLF by { EndsInVersion(verb + SP + line.target); }
    assert ParseLine(words) == Ok(line) by { WordsOfGrammar(verb, line.target); }
    assert PlainLine(words) by { WordsArePlain(verb, line.target); }
    hide ParseLine;
    hide AllToken;
    hide AllTargetBytes;
    LineOfWords(input, words);
  }

  lemma LineOfWords(input: Bytes, words: Bytes)
    requires |words| + 2 <= |input| && |words| <= LINE_MAX && PlainLine(words)
    requires input[..|words| + 2] == words + CRLF
    ensures LineLength(input) == Ok(|words|) && input[..|words|] == words
  {
    var n := |words|;
    var line := input[..n + 2];
    assert line[..n] == words && input[..n] == words;
    assert line[n] == '\r' && line[n + 1] == '\n';
    forall k | 0 <= k < n ensures !StopsLine(input[k]) { assert input[k] == words[k]; }
    LineStopIs(input, n);
  }

  lemma EndsInVersion(before: Bytes)
    ensures before + " HTTP/1.1\r\n" == before + SP + VERSION + CRLF
  {
    assert " HTTP/1.1\r\n" == SP + VERSION + CRLF;
    ConcatAssociates(before, SP + VERSION, CRLF);
    ConcatAssociates(before, SP, VERSION);
  }

  lemma AcceptedWords(text: Bytes)
    requires ParseLine(text).Ok?
    ensures var line := ParseLine(text).value; var v := |line.verb|;
      && v <= |text| && text == Words(text[..v], line.target) && line.bytesConsumed == |text| + 2
      && 1 <= v <= METHOD_MAX && AllToken(text[..v]) && line.verb == LowerAll(text[..v])
      && line.target != [] && AllTargetBytes(line.target)
  {
    var verbEnd := IndexOf(text, ' ');
    var rest := text[verbEnd + 1..];
    var targetEnd := IndexOf(rest, ' ');
    var target := rest[..targetEnd];
    IndexOfFirst(text, ' ');
    IndexOfFirst(rest, ' ');
    assert rest == target + SP + rest[targetEnd + 1..];
    assert text == text[..verbEnd] + SP + rest;
    NoTargetFault(target, 0);
    ConcatAssociates(text[..verbEnd] + SP, target, SP);
    ConcatAssociates(text[..verbEnd] + SP, target + SP, VERSION);
    hide AllToken;
    hide TargetFault;
  }

  lemma AcceptedIsGrammar(input: Bytes, line: RequestLine)
    requires Parse(input) == Ok(line)
    ensures Grammar(input, line)
  {
    var length := LineLength(input).value;
    var text := input[..length];
    assert ParseLine(text) == Ok(line);
    AcceptedWords(text);
    hide ParseLine;
    hide LineLength;
    hide AllToken;
    hide AllTargetBytes;
    var v := |line.verb|;
    assert text[..v] == input[..v];
    assert input[..length + 2] == text + CRLF by { CrlfEnds(input, length); }
    assert text + CRLF == input[..v] + SP + line.target + " HTTP/1.1\r\n" by { EndsInVersion(input[..v] + SP + line.target); }
  }

  lemma CrlfEnds(input: Bytes, length: nat)
    requires CrlfAt(input, length)
    ensures input[..length + 2] == input[..length] + CRLF
  {
  }

  /** The parser accepts exactly the lines of the grammar, and reports their parts. */
  lemma ParserIsGrammar(input: Bytes, line: RequestLine)
    ensures Parse(input) == Ok(line) <==> Grammar(input, line)
  {
    if Parse(input) == Ok(line) { AcceptedIsGrammar(input, line); }
    if Grammar(input, line) { GrammarIsAccepted(input, line); }
  }

  /** A line made of three good words reads back, whatever follows it. */
  lemma PrintedLineParses(verb: Bytes, target: Bytes, rest: Bytes)
    requires 1 <= |verb| <= METHOD_MAX && AllToken(verb) && target != [] && AllTargetBytes(target)
    requires |verb| + |target| + 10 <= LINE_MAX
    ensures var words := Words(verb, target);
      Parse(words + CRLF + rest) == Ok(RequestLine(LowerAll(verb), target, |words| + 2))
  {
    var words := Words(verb, target);
    WordsOfGrammar(verb, target);
    WordsArePlain(verb, target);
    hide ParseLine;
    hide AllToken;
    hide AllTargetBytes;
    hide PlainLine;
    assert (words + CRLF + rest)[..|words| + 2] == words + CRLF;
    LineOfWords(words + CRLF + rest, words);
  }

  /** A line without an end within the limit is refused. */
  lemma LongLineRefused(input: Bytes)
    requires |input| > LINE_MAX && PlainLine(input[..LINE_MAX + 1])
    ensures Parse(input) == Err(LimitExceeded(RequestLineBytes, LINE_MAX, LINE_MAX + 1))
  {
    var line := input[..LINE_MAX + 1];
    forall k | 0 <= k <= LINE_MAX ensures !StopsLine(input[k]) { assert input[k] == line[k]; }
    LineStopIs(input, LINE_MAX);
  }
}
