/** Chunk metadata: the line that introduces a chunk, and the guarded-parts parser for it. */
module Chunks {
  import opened Bytes
  import opened Http
  import Utf8
  import Words

  const LINE_MAX := 1_024
  const SIZE_MAX := 16_777_216
  const EXTENSION_MAX := 16
  const NAME_MAX := 64

  datatype ChunkExtension = ChunkExtension(name: Bytes, value: Option<Bytes>)

  datatype ChunkMeta = ChunkMeta(size: nat, extensions: seq<ChunkExtension>, bytesConsumed: nat)

  // ---------- the line ----------

  /** Where the content of the line ends, looking from `i` on. */
  function LineFrom(input: Bytes, i: nat): (end: Result<nat>)
    requires i <= |input| && i <= LINE_MAX
    ensures end.Ok? ==> i <= end.value <= LINE_MAX && end.value + 2 <= |input|
    decreases |input| - i
  {
    if i == |input| then Err(Incomplete)
    else if CrlfAt(input, i) then Ok(i)
    else if IsControl(input[i]) then Err(InvalidChunk(InvalidLineEndingOrControl))
    else if i == LINE_MAX then Err(LimitExceeded(ChunkLineBytes, LINE_MAX, LINE_MAX + 1))
    else LineFrom(input, i + 1)
  }

  /** A line is a bounded run without control bytes, followed by CRLF. */
  lemma {:induction false} LineMeaning(input: Bytes, i: nat, end: nat)
    requires i <= |input| && i <= LINE_MAX
    ensures LineFrom(input, i) == Ok(end) <==>
            i <= end <= LINE_MAX && CrlfAt(input, end) && forall k :: i <= k < end ==> !IsControl(input[k])
    decreases |input| - i
  {
    if i < |input| && !CrlfAt(input, i) && !IsControl(input[i]) && i < LINE_MAX { LineMeaning(input, i + 1, end); }
  }

  // ---------- the size ----------

  predicate AllHex(text: Bytes) { forall i :: 0 <= i < |text| ==> IsHexDigit(text[i]) }

  function HexNumber(text: Bytes): nat
    requires AllHex(text)
  {
    if text == [] then 0 else HexNumber(text[..|text| - 1]) * 16 + HexValue(text[|text| - 1])
  }

  /** Sixteen digits fit a 64-bit word. */
  lemma {:induction false} HexNumberFits(text: Bytes)
    requires AllHex(text)
    ensures HexNumber(text) < Words.Pow2(4 * |text|)
  {
    if text != [] {
      var n := 4 * (|text| - 1);
      HexNumberFits(text[..|text| - 1]);
      assert Words.Pow2(n + 4) == 2 * Words.Pow2(n + 3) == 4 * Words.Pow2(n + 2) == 8 * Words.Pow2(n + 1);
    }
  }

  function SizeOf(text: Bytes): Result<nat> {
    if text == [] || |text| > 16 || !AllHex(text) then Err(InvalidChunk(InvalidSize))
    else if HexNumber(text) > SIZE_MAX then Err(LimitExceeded(ChunkSize, SIZE_MAX, HexNumber(text)))
    else Ok(HexNumber(text))
  }

  // ---------- extensions ----------

  function TokenEnd(s: Bytes, i: nat): (j: nat)
    requires i <= |s|
    ensures i <= j <= |s| && (j < |s| ==> !IsToken(s[j]))
    decreases |s| - i
  {
    if i < |s| && IsToken(s[i]) then TokenEnd(s, i + 1) else i
  }

  /** The closing quote, with every escaped byte passed over. */
  function QuoteEnd(s: Bytes, i: nat): (j: Option<nat>)
    ensures j.Some? ==> i <= j.value < |s| && s[j.value] == '"'
    decreases if i <= |s| then |s| - i else 0
  {
    if i >= |s| then None
    else if s[i] == '\\' then QuoteEnd(s, i + 2)
    else if s[i] == '"' then Some(i)
    else QuoteEnd(s, i + 1)
  }

  /** The bytes of `s[i..j]` with the backslash of each pair dropped. */
  function Unescape(s: Bytes, i: nat, j: nat): Bytes
    requires j <= |s|
    decreases if i <= j then j - i else 0
  {
    if i >= j then []
    else if s[i] != '\\' then [s[i]] + Unescape(s, i + 1, j)
    else if i + 1 < j then [s[i + 1]] + Unescape(s, i + 2, j)
    else []
  }

  /** Something read from a line, and where it ends: at a semicolon or at the end of the line. */
  datatype Read<+T> = Read(item: T, end: nat)

  function ValueAt(line: Bytes, i: nat): (r: Result<Read<Bytes>>)
    requires i <= |line|
    ensures r.Ok? ==> i < r.value.end <= |line| && (r.value.end < |line| ==> line[r.value.end] == ';')
  {
    if i < |line| && line[i] == '"' then
      var close := QuoteEnd(line, i + 1);
      if close.None? then Err(InvalidChunk(InvalidQuotedString))
      else if !Utf8.Valid(Unescape(line, i + 1, close.value)) then Err(InvalidChunk(InvalidQuotedString))
      else if close.value + 1 < |line| && line[close.value + 1] != ';' then Err(InvalidChunk(InvalidExtensionValue))
      else Ok(Read(Unescape(line, i + 1, close.value), close.value + 1))
    else
      var end := TokenEnd(line, i);
      if end == i || (end < |line| && line[end] != ';') then Err(InvalidChunk(InvalidExtensionValue))
      else Ok(Read(line[i..end], end))
  }

  function ExtensionAt(line: Bytes, i: nat): (r: Result<Read<ChunkExtension>>)
    requires i <= |line|
    ensures r.Ok? ==> i < r.value.end <= |line| && (r.value.end < |line| ==> line[r.value.end] == ';')
  {
    var end := TokenEnd(line, i);
    var name := LowerAll(line[i..end]);
    if end == i || end - i > NAME_MAX then Err(InvalidChunk(InvalidExtensionName))
    else if end == |line| || line[end] == ';' then Ok(Read(ChunkExtension(name, None), end))
    else if line[end] == '=' then
      var value := ValueAt(line, end + 1);
      if value.Err? then Err(value.error) else Ok(Read(ChunkExtension(name, Some(value.value.item)), value.value.end))
    else Err(InvalidChunk(InvalidExtensionName))
  }

  /** The extensions from the semicolon at `i` on, after those already read. */
  function ExtensionsFrom(line: Bytes, i: nat, done: seq<ChunkExtension>): Result<seq<ChunkExtension>>
    requires i <= |line|
    decreases |line| - i
  {
    if i == |line| then Ok(done)
    else if |done| == EXTENSION_MAX then Err(LimitExceeded(ChunkExtensions, EXTENSION_MAX, EXTENSION_MAX + 1))
    else
      var next := ExtensionAt(line, i + 1);
      if next.Err? then Err(next.error) else ExtensionsFrom(line, next.value.end, done + [next.value.item])
  }

  lemma ExtensionsStep(line: Bytes, i: nat, done: seq<ChunkExtension>, next: Read<ChunkExtension>)
    requires i < |line| && |done| < EXTENSION_MAX && ExtensionAt(line, i + 1) == Ok(next)
    ensures ExtensionsFrom(line, i, done) == ExtensionsFrom(line, next.end, done + [next.item])
  {
  }

  function MetaOfLine(line: Bytes, bytesConsumed: nat): Result<ChunkMeta> {
    var semicolon := IndexOf(line, ';');
    var size := SizeOf(line[..semicolon]);
    if size.Err? then Err(size.error)
    else
      var extensions := ExtensionsFrom(line, semicolon, []);
      if extensions.Err? then Err(extensions.error) else Ok(ChunkMeta(size.value, extensions.value, bytesConsumed))
  }

  /** What every form of the parser computes. */
  function ParseChunk(input: Bytes): Result<ChunkMeta> {
    var end := LineFrom(input, 0);
    if end.Err? then Err(end.error) else MetaOfLine(input[..end.value], end.value + 2)
  }

  // ---------- guarded parts ----------

  method ValidatedLine(input: Bytes) returns (r: Result<nat>)
    ensures r == LineFrom(input, 0)
  {
    for offset := 0 to |input|
      invariant offset <= LINE_MAX && LineFrom(input, offset) == LineFrom(input, 0)
    {
      if input[offset] == '\r' && offset + 1 < |input| && input[offset + 1] == '\n' {
        return Ok(offset);
      }
      if input[offset] == '\r' || input[offset] == '\n' || IsControl(input[offset]) {
        return Err(InvalidChunk(InvalidLineEndingOrControl));
      }
      if offset == LINE_MAX {
        return Err(LimitExceeded(ChunkLineBytes, LINE_MAX, offset + 1));
      }
    }
    return Err(Incomplete);
  }

  lemma {:induction false} TokenEndInSuffix(s: Bytes, i: nat, k: nat)
    requires i + k <= |s|
    ensures i + TokenEnd(s[i..], k) == TokenEnd(s, i + k)
    decreases |s| - i - k
  {
    if i + k < |s| && IsToken(s[i + k]) { TokenEndInSuffix(s, i, k + 1); }
  }

  /** The text after a parsed part, when the line goes on. */
  ghost predicate RestIs(line: Bytes, end: nat, rest: Option<Bytes>) {
    && end <= |line| && (rest.None? <==> end == |line|)
    && (rest.Some? ==> line[end] == ';' && rest.value == line[end + 1..])
  }

  ghost predicate ParsedAt<T>(line: Bytes, r: Result<(T, Option<Bytes>)>, at: Result<Read<T>>) {
    if at.Err? then r == Err(at.error) else r.Ok? && r.value.0 == at.value.item && RestIs(line, at.value.end, r.value.1)
  }

  method ParseQuotedValue(text: Bytes, ghost line: Bytes, ghost i: nat) returns (r: Result<(Bytes, Option<Bytes>)>)
    requires i < |line| && text == line[i..] && line[i] == '"'
    ensures ParsedAt(line, r, ValueAt(line, i))
  {
    var unescaped: Bytes := [];
    var offset := 1;
    ghost var close := QuoteEnd(line, i + 1);
    while offset < |text|
      invariant 1 <= offset <= |text| + 1
      invariant QuoteEnd(line, i + offset) == close
      invariant close.Some? ==> unescaped + Unescape(line, i + offset, close.value) == Unescape(line, i + 1, close.value)
    {
      ghost var before := unescaped;
      var byte := text[offset];
      assert byte == line[i + offset];
      if byte == '\\' {
        if offset + 1 >= |text| { return Err(InvalidChunk(InvalidQuotedString)); }
        unescaped := unescaped + [text[offset + 1]];
        if close.Some? { ConcatAssociates(before, [text[offset + 1]], Unescape(line, i + offset + 2, close.value)); }
        offset := offset + 2;
        continue;
      }
      if byte == '"' {
        assert unescaped + [] == unescaped;
        if !Utf8.Valid(unescaped) { return Err(InvalidChunk(InvalidQuotedString)); }
        if offset + 1 == |text| { return Ok((unescaped, None)); }
        if text[offset + 1] == ';' { return Ok((unescaped, Some(text[offset + 2..]))); }
        return Err(InvalidChunk(InvalidExtensionValue));
      }
      unescaped := unescaped + [byte];
      if close.Some? { ConcatAssociates(before, [byte], Unescape(line, i + offset + 1, close.value)); }
      offset := offset + 1;
    }
    return Err(InvalidChunk(InvalidQuotedString));
  }

  method ParseValue(text: Bytes, ghost line: Bytes, ghost i: nat) returns (r: Result<(Bytes, Option<Bytes>)>)
    requires i <= |line| && text == line[i..]
    ensures ParsedAt(line, r, ValueAt(line, i))
  {
    if text != [] && text[0] == '"' {
      r := ParseQuotedValue(text, line, i);
      return;
    }
    TokenEndInSuffix(line, i, 0);
    var end := TokenEnd(text, 0);
    if end == 0 { return Err(InvalidChunk(InvalidExtensionValue)); }
    assert text[..end] == line[i..i + end];
    if end == |text| { return Ok((text[..end], None)); }
    if text[end] == ';' { return Ok((text[..end], Some(text[end + 1..]))); }
    return Err(InvalidChunk(InvalidExtensionValue));
  }

  method ParseExtension(text: Bytes, ghost line: Bytes, ghost i: nat) returns (r: Result<(ChunkExtension, Option<Bytes>)>)
    requires i <= |line| && text == line[i..]
    ensures ParsedAt(line, r, ExtensionAt(line, i))
  {
    TokenEndInSuffix(line, i, 0);
    var end := TokenEnd(text, 0);
    if end == 0 || end > NAME_MAX { return Err(InvalidChunk(InvalidExtensionName)); }
    assert text[..end] == line[i..i + end];
    var name := LowerAll(text[..end]);
    if end == |text| { return Ok((ChunkExtension(name, None), None)); }
    if text[end] == ';' { return Ok((ChunkExtension(name, None), Some(text[end + 1..]))); }
    if text[end] == '=' {
      var value := ParseValue(text[end + 1..], line, i + end + 1);
      if value.Err? { return Err(value.error); }
      return Ok((ChunkExtension(name, Some(value.value.0)), value.value.1));
    }
    return Err(InvalidChunk(InvalidExtensionName));
  }

  method ParseExtensions(text: Bytes, ghost line: Bytes, ghost start: nat) returns (r: Result<seq<ChunkExtension>>)
    requires start < |line| && text == line[start + 1..]
    ensures r == ExtensionsFrom(line, start, [])
  {
    hide ExtensionAt;
    var remaining := text;
    var extensions: seq<ChunkExtension> := [];
    ghost var i: nat := start;
    while true
      invariant i < |line| && remaining == line[i + 1..] && |extensions| <= EXTENSION_MAX
      invariant ExtensionsFrom(line, i, extensions) == ExtensionsFrom(line, start, [])
      decreases |remaining|
    {
      if |extensions| == EXTENSION_MAX {
        return Err(LimitExceeded(ChunkExtensions, EXTENSION_MAX, EXTENSION_MAX + 1));
      }
      var parsed := ParseExtension(remaining, line, i + 1);
      if parsed.Err? { return Err(parsed.error); }
      ghost var next := ExtensionAt(line, i + 1).value;
      assert parsed.value.0 == next.item && RestIs(line, next.end, parsed.value.1);
      assert ExtensionsFrom(line, i, extensions) == ExtensionsFrom(line, next.end, extensions + [next.item]) by {
        ExtensionsStep(line, i, extensions, next);
      }
      i := next.end;
      extensions := extensions + [parsed.value.0];
      if parsed.value.1.None? { return Ok(extensions); }
      remaining := parsed.value.1.value;
    }
  }

  method ParseByGuardedParts(input: Bytes) returns (r: Result<ChunkMeta>)
    ensures r == ParseChunk(input)
  {
    var end := ValidatedLine(input);
    if end.Err? { return Err(end.error); }
    var line := input[..end.value];
    var delimiter := IndexOf(line, ';');
    var size := SizeOf(line[..delimiter]);
    if size.Err? { return Err(size.error); }
    if delimiter == |line| { return Ok(ChunkMeta(size.value, [], end.value + 2)); }
    var extensions := ParseExtensions(line[delimiter + 1..], line, delimiter);
    if extensions.Err? { return Err(extensions.error); }
    return Ok(ChunkMeta(size.value, extensions.value, end.value + 2));
  }
}
