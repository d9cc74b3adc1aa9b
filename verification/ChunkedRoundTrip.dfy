/** What the chunked decoder accepts: exactly the messages of section 7.1 of RFC 9112, within its limits. */
module ChunkedRoundTrip {
  import opened BufferedInput
  import opened Bytes
  import opened ChunkedBody
  import C = Chunks
  import H = HeaderSection
  import opened Http
  import PercentEncoding
  import opened Streams
  import opened Trailers
  import Words

  // ---------- messages ----------

  /** A chunk: the line that gives its size, in any accepted spelling, and its bytes. */
  datatype Chunk = Chunk(line: Bytes, data: Bytes)

  /** The line is accepted as a whole and gives this size. */
  ghost predicate SizeLineFor(line: Bytes, size: nat) {
    var meta := C.ParseChunk(line);
    meta.Ok? && meta.value.size == size && meta.value.bytesConsumed == |line|
  }

  ghost predicate WellFormed(chunk: Chunk) {
    chunk.data != [] && SizeLineFor(chunk.line, |chunk.data|)
  }

  ghost predicate AllWellFormed(chunks: seq<Chunk>) {
    forall i :: 0 <= i < |chunks| ==> WellFormed(chunks[i])
  }

  /** The trailer section is accepted as a whole. */
  ghost predicate TrailersFor(trailers: Bytes, declared: seq<Bytes>) {
    var block := ParseTrailers(trailers, declared);
    block.Ok? && block.value.bytesConsumed == |trailers|
  }

  function Body(chunks: seq<Chunk>): Bytes {
    if chunks == [] then [] else chunks[0].data + Body(chunks[1..])
  }

  function ChunkText(chunk: Chunk): Bytes { chunk.line + (chunk.data + CRLF) }

  function Message(chunks: seq<Chunk>, lastLine: Bytes, trailers: Bytes): Bytes {
    if chunks == [] then lastLine + trailers else ChunkText(chunks[0]) + Message(chunks[1..], lastLine, trailers)
  }

  // ---------- the parts read back ----------

  lemma SizeLineReadBack(line: Bytes, rest: Bytes, size: nat, limit: nat, end: End)
    requires SizeLineFor(line, size) && limit > C.LINE_MAX
    ensures SizeLine(line + rest, limit, end) == Done((size, |line|))
  {
    var n := |line|;
    C.LineMeaning(line, 0, n - 2);
    var wire := line + rest;
    assert forall k :: 0 <= k < n ==> wire[k] == line[k];
    LineLengthIs(wire, 0, limit, end, n);
    assert wire[..n] == line;
  }

  lemma ChunkDataReadBack(data: Bytes, rest: Bytes, end: End)
    ensures ChunkData(data + CRLF + rest, |data|, end) == More(data, rest)
  {
    var wire, size := data + CRLF + rest, |data|;
    assert wire[..size] == data;
    assert wire[size..size + 2] == CRLF;
    assert wire[size + 2..] == rest;
  }

  /** An accepted section is at its end or goes on after a line. */
  lemma TrailersGoOn(trailers: Bytes, start: nat, fields: seq<HeaderField>, declared: seq<Bytes>)
    returns (next: seq<HeaderField>)
    requires start <= |trailers| && |fields| <= TRAILER_FIELD_MAX && TrailersFrom(trailers, start, fields, declared).Ok?
    ensures TrailerLineEnd(trailers, start).Ok? && |next| <= TRAILER_FIELD_MAX
    ensures var end := TrailerLineEnd(trailers, start).value;
      if end == start then TrailersFrom(trailers, start, fields, declared).value.bytesConsumed == start + 2
      else TrailersFrom(trailers, start, fields, declared) == TrailersFrom(trailers, end + 2, next, declared)
  {
    hide TrailerFieldOf;
    hide FieldFault;
    hide TrailerLineEnd;
    var end := TrailerLineEnd(trailers, start).value;
    next := fields;
    if end != start {
      var field := TrailerFieldOf(trailers[start..end]).value;
      next := fields + [field];
      TrailersStep(trailers, start, fields, declared, end, field);
    }
  }

  /** Accepted trailer lines are read as far as the parser takes them. */
  lemma {:induction false} TrailerLinesReadBack(trailers: Bytes, rest: Bytes, start: nat, fields: seq<HeaderField>,
                                                declared: seq<Bytes>, max: nat, end: End)
    requires start <= |trailers| && |fields| <= TRAILER_FIELD_MAX && TrailersFrom(trailers, start, fields, declared).Ok?
    requires TrailersFrom(trailers, start, fields, declared).value.bytesConsumed == |trailers|
    requires start <= max && TRAILER_MAX <= max
    ensures TrailersLength(trailers + rest, start, max, end) == Done(|trailers|)
    decreases |trailers| - start
  {
    hide TrailersFrom;
    hide TrailersLength;
    hide TrailerLineEnd;
    hide LineLength;
    var next := TrailersGoOn(trailers, start, fields, declared);
    var lineEnd := TrailerLineEnd(trailers, start).value;
    TrailerLineReadBack(trailers, rest, start, lineEnd, max - start, end);
    TrailersLengthStep(trailers + rest, start, max, end, lineEnd + 2 - start);
    if lineEnd != start { TrailerLinesReadBack(trailers, rest, lineEnd + 2, next, declared, max, end); }
  }

  lemma TrailerLineReadBack(trailers: Bytes, rest: Bytes, start: nat, lineEnd: nat, max: nat, end: End)
    requires start <= |trailers| && TrailerLineEnd(trailers, start) == Ok(lineEnd) && lineEnd + 2 <= start + max + 1
    ensures LineLength((trailers + rest)[start..], 0, max, end) == Done(lineEnd + 2 - start)
  {
    var tail, n := (trailers + rest)[start..], lineEnd + 2 - start;
    H.LineBreakFirst(trailers, start);
    assert forall k :: 0 <= k < n ==> tail[k] == trailers[start + k];
    LineLengthIs(tail, 0, max, end, n);
  }

  lemma TrailerPartReadBack(trailers: Bytes, rest: Bytes, declared: seq<Bytes>, limit: nat, end: End)
    requires TrailersFor(trailers, declared) && limit >= TRAILER_MAX
    ensures TrailerPart(trailers + rest, Done(declared), limit, end) == Last(rest)
  {
    TrailerLinesReadBack(trailers, rest, 0, [], declared, limit, end);
    var wire := trailers + rest;
    assert wire[..|trailers|] == trailers && wire[|trailers|..] == rest;
  }

  lemma ChunkReadBack(chunk: Chunk, rest: Bytes, decoded: nat, declared: Outcome<seq<Bytes>>, limits: Limits)
    requires WellFormed(chunk) && decoded + |chunk.data| <= limits.max && |chunk.data| <= limits.room
    ensures NextChunk(ChunkText(chunk) + rest, decoded, declared, limits) == More(chunk.data, rest)
  {
    var wire, after := ChunkText(chunk) + rest, chunk.data + CRLF + rest;
    assert wire == chunk.line + after && wire[|chunk.line|..] == after;
    SizeLineReadBack(chunk.line, after, |chunk.data|, LINE_LIMIT, limits.end);
    ChunkDataReadBack(chunk.data, rest, limits.end);
  }

  lemma LastReadBack(lastLine: Bytes, trailers: Bytes, rest: Bytes, decoded: nat, declared: seq<Bytes>, limits: Limits)
    requires SizeLineFor(lastLine, 0) && TrailersFor(trailers, declared) && decoded <= limits.max
    ensures NextChunk(lastLine + trailers + rest, decoded, Done(declared), limits) == Last(rest)
  {
    var wire, after := lastLine + trailers + rest, trailers + rest;
    assert wire == lastLine + after && wire[|lastLine|..] == after;
    SizeLineReadBack(lastLine, after, 0, LINE_LIMIT, limits.end);
    TrailerPartReadBack(trailers, rest, declared, TRAILER_MAX, limits.end);
  }

  // ---------- the round trip ----------

  lemma BodyCons(decoded: Bytes, chunks: seq<Chunk>)
    requires chunks != []
    ensures decoded + Body(chunks) == decoded + chunks[0].data + Body(chunks[1..])
    ensures |Body(chunks)| == |chunks[0].data| + |Body(chunks[1..])|
  {
    ConcatAssociates(decoded, chunks[0].data, Body(chunks[1..]));
  }

  /** Every message of well-formed chunks within the limits decodes to its body, and the bytes after it are left alone. */
  lemma {:induction false} DecodeOfMessage(chunks: seq<Chunk>, lastLine: Bytes, trailers: Bytes, rest: Bytes,
                                           decoded: Bytes, declared: seq<Bytes>, limits: Limits)
    requires AllWellFormed(chunks) && SizeLineFor(lastLine, 0) && TrailersFor(trailers, declared)
    requires |decoded| + |Body(chunks)| <= limits.max && |Body(chunks)| <= limits.room
    ensures Decode(Message(chunks, lastLine, trailers) + rest, decoded, Done(declared), limits) ==
            Done(Decoded(decoded + Body(chunks), rest))
    decreases |chunks|
  {
    var wire := Message(chunks, lastLine, trailers) + rest;
    if chunks == [] {
      LastReadBack(lastLine, trailers, rest, |decoded|, declared, limits);
      assert decoded + Body(chunks) == decoded;
    } else {
      var data, after := chunks[0].data, Message(chunks[1..], lastLine, trailers) + rest;
      assert wire == ChunkText(chunks[0]) + after by {
        ConcatAssociates(ChunkText(chunks[0]), Message(chunks[1..], lastLine, trailers), rest);
      }
      BodyCons(decoded, chunks);
      assert NextChunk(wire, |decoded|, Done(declared), limits) == More(data, after) by {
        ChunkReadBack(chunks[0], after, |decoded|, Done(declared), limits);
      }
      assert Decode(wire, decoded, Done(declared), limits) ==
             Decode(after, decoded + data, Done(declared), limits.(room := limits.room - |data|)) by {
        DecodeStep(wire, decoded, Done(declared), limits, data, after);
      }
      DecodeOfMessage(chunks[1..], lastLine, trailers, rest, decoded + data, declared, limits.(room := limits.room - |data|));
    }
  }

  // ---------- and nothing else is accepted ----------

  lemma SizeLineSplits(wire: Bytes, limit: nat, end: End)
    requires SizeLine(wire, limit, end).Done?
    ensures var (size, n) := SizeLine(wire, limit, end).value; n <= |wire| && SizeLineFor(wire[..n], size)
  {
  }

  lemma DataSplits(wire: Bytes, size: nat, end: End)
    requires ChunkData(wire, size, end).More?
    ensures var step := ChunkData(wire, size, end);
      size + 2 <= |wire| && step == More(wire[..size], wire[size + 2..]) && wire == step.data + CRLF + step.rest
  {
    assert wire == wire[..size] + wire[size..size + 2] + wire[size + 2..];
  }

  lemma ChunkSplits(wire: Bytes, decoded: nat, declared: Outcome<seq<Bytes>>, limits: Limits) returns (chunk: Chunk, rest: Bytes)
    requires NextChunk(wire, decoded, declared, limits).More?
    ensures NextChunk(wire, decoded, declared, limits) == More(chunk.data, rest)
    ensures WellFormed(chunk) && wire == ChunkText(chunk) + rest
  {
    hide SizeLine;
    hide SizeLineFor;
    hide TrailerPart;
    hide ChunkData;
    var (size, n) := SizeLine(wire, LINE_LIMIT, limits.end).value;
    SizeLineSplits(wire, LINE_LIMIT, limits.end);
    var step := ChunkData(wire[n..], size, limits.end);
    DataSplits(wire[n..], size, limits.end);
    chunk, rest := Chunk(wire[..n], step.data), step.rest;
    hide NextChunk;
    ChunkTextIs(wire, n, chunk, rest);
  }

  lemma ChunkTextIs(wire: Bytes, n: nat, chunk: Chunk, rest: Bytes)
    requires n <= |wire| && chunk.line == wire[..n] && wire[n..] == chunk.data + CRLF + rest
    ensures wire == ChunkText(chunk) + rest
  {
    assert wire == wire[..n] + wire[n..];
    ConcatAssociates(chunk.line, chunk.data + CRLF, rest);
  }

  lemma PartSplits(wire: Bytes, declared: Outcome<seq<Bytes>>, limit: nat, end: End)
    requires TrailerPart(wire, declared, limit, end).Last?
    ensures var rest := TrailerPart(wire, declared, limit, end).rest;
      && declared.Done? && |rest| <= |wire| && rest == wire[|wire| - |rest|..]
      && TrailersFor(wire[..|wire| - |rest|], declared.value)
  {
    hide TrailersLength;
    hide ParseTrailers;
  }

  lemma LastSplits(wire: Bytes, decoded: nat, declared: Outcome<seq<Bytes>>, limits: Limits)
    returns (lastLine: Bytes, trailers: Bytes, rest: Bytes)
    requires NextChunk(wire, decoded, declared, limits).Last?
    ensures NextChunk(wire, decoded, declared, limits) == Last(rest)
    ensures declared.Done? && SizeLineFor(lastLine, 0) && TrailersFor(trailers, declared.value)
    ensures wire == lastLine + trailers + rest
  {
    hide SizeLine;
    hide SizeLineFor;
    hide TrailersFor;
    hide TrailerPart;
    hide ChunkData;
    var (size, n) := SizeLine(wire, LINE_LIMIT, limits.end).value;
    SizeLineSplits(wire, LINE_LIMIT, limits.end);
    var after := wire[n..];
    PartSplits(after, declared, TRAILER_MAX, limits.end);
    rest := TrailerPart(after, declared, TRAILER_MAX, limits.end).rest;
    lastLine, trailers := wire[..n], after[..|after| - |rest|];
    hide NextChunk;
    assert wire == lastLine + after && after == trailers + rest;
    ConcatAssociates(lastLine, trailers, rest);
  }

  lemma MessageCons(chunk: Chunk, more: seq<Chunk>, lastLine: Bytes, trailers: Bytes, rest: Bytes)
    ensures Message([chunk] + more, lastLine, trailers) + rest == ChunkText(chunk) + (Message(more, lastLine, trailers) + rest)
  {
    assert ([chunk] + more)[1..] == more;
    ConcatAssociates(ChunkText(chunk), Message(more, lastLine, trailers), rest);
  }

  lemma BodyOfCons(decoded: Bytes, chunk: Chunk, more: seq<Chunk>)
    ensures decoded + Body([chunk] + more) == decoded + chunk.data + Body(more)
  {
    var chunks := [chunk] + more;
    assert chunks[1..] == more;
    BodyCons(decoded, chunks);
  }

  lemma LastIsMessage(wire: Bytes, decoded: Bytes, declared: Outcome<seq<Bytes>>, limits: Limits)
    returns (lastLine: Bytes, trailers: Bytes)
    requires NextChunk(wire, |decoded|, declared, limits).Last?
    ensures declared.Done? && SizeLineFor(lastLine, 0) && TrailersFor(trailers, declared.value)
    ensures Decode(wire, decoded, declared, limits).Done?
    ensures var r := Decode(wire, decoded, declared, limits).value;
      r.body == decoded + Body([]) && wire == Message([], lastLine, trailers) + r.rest
  {
    hide NextChunk;
    hide SizeLineFor;
    hide TrailersFor;
    var rest;
    lastLine, trailers, rest := LastSplits(wire, |decoded|, declared, limits);
    assert decoded + Body([]) == decoded;
  }

  /** Whatever is decoded is a message of well-formed chunks followed by the bytes left over. */
  lemma {:induction false} DecodedIsMessage(wire: Bytes, decoded: Bytes, declared: Outcome<seq<Bytes>>, limits: Limits)
    returns (chunks: seq<Chunk>, lastLine: Bytes, trailers: Bytes)
    requires Decode(wire, decoded, declared, limits).Done?
    ensures declared.Done? && AllWellFormed(chunks) && SizeLineFor(lastLine, 0) && TrailersFor(trailers, declared.value)
    ensures var r := Decode(wire, decoded, declared, limits).value;
      r.body == decoded + Body(chunks) && wire == Message(chunks, lastLine, trailers) + r.rest
    decreases |wire|
  {
    hide NextChunk;
    hide WellFormed;
    hide SizeLineFor;
    hide TrailersFor;
    hide ChunkText;
    hide Message;
    hide Body;
    var step := NextChunk(wire, |decoded|, declared, limits);
    if step.Last? {
      chunks := [];
      lastLine, trailers := LastIsMessage(wire, decoded, declared, limits);
    } else {
      assert step.More?;
      var chunk, rest := ChunkSplits(wire, |decoded|, declared, limits);
      ChunkProgress(wire, |decoded|, declared, limits);
      DecodeStep(wire, decoded, declared, limits, chunk.data, rest);
      hide Decode;
      var more;
      more, lastLine, trailers := DecodedIsMessage(rest, decoded + chunk.data, declared, limits.(room := limits.room - |chunk.data|));
      chunks := [chunk] + more;
      BodyOfCons(decoded, chunk, more);
      MessageCons(chunk, more, lastLine, trailers, Decode(wire, decoded, declared, limits).value.rest);
    }
  }

  // ---------- the plain spelling ----------

  /** A size in hexadecimal digits without leading zeros. */
  function RenderHex(n: nat): (text: Bytes)
    ensures text != []
  {
    if n < 16 then [PercentEncoding.HexDigit(n)] else RenderHex(n / 16) + [PercentEncoding.HexDigit(n % 16)]
  }

  lemma {:induction false} HexOfRender(n: nat)
    ensures C.AllHex(RenderHex(n)) && C.HexNumber(RenderHex(n)) == n
  {
    var text := RenderHex(n);
    if n < 16 {
      assert text[..0] == [];
      assert C.HexNumber(text[..0]) == 0;
    } else {
      HexOfRender(n / 16);
      assert text[..|text| - 1] == RenderHex(n / 16);
    }
  }

  lemma {:induction false} RenderHexLength(n: nat, k: nat)
    requires n < Words.Pow2(4 * k) && k >= 1
    ensures |RenderHex(n)| <= k
    decreases k
  {
    if n >= 16 {
      assert Words.Pow2(4 * k) == 16 * Words.Pow2(4 * k - 4) by {
        var m := 4 * k - 4;
        assert Words.Pow2(m + 4) == 2 * Words.Pow2(m + 3) == 4 * Words.Pow2(m + 2) == 8 * Words.Pow2(m + 1);
      }
      RenderHexLength(n / 16, k - 1);
    }
  }

  lemma PlainSizeFits(n: nat)
    requires n <= C.SIZE_MAX
    ensures |RenderHex(n)| <= 7
  {
    hide RenderHex;
    assert Words.Pow2(7) == 128 by { assert Words.Pow2(4) == 16 by { assert Words.Pow2(2) == 4; } }
    assert Words.Pow2(14) == 16384 by { Words.PowSum(7, 7); }
    assert Words.Pow2(28) == 268435456 by { Words.PowSum(14, 14); }
    hide Words.Pow2;
    RenderHexLength(n, 7);
  }

  /** Hexadecimal digits followed by CRLF are a whole line. */
  lemma HexLine(text: Bytes)
    requires C.AllHex(text) && |text| <= 16
    ensures C.LineFrom(text + CRLF, 0) == Ok(|text|) && (text + CRLF)[..|text|] == text
    ensures IndexOf(text, ';') == |text|
  {
    var line := text + CRLF;
    forall k | 0 <= k < |text| ensures !IsControl(line[k]) && text[k] != ';' {
      assert line[k] == text[k] && IsHexDigit(text[k]);
    }
    C.LineMeaning(line, 0, |text|);
    IndexOfUnique(text, ';', |text|);
  }

  /** The plain size line is accepted with its size. */
  lemma PlainSizeLine(n: nat)
    requires n <= C.SIZE_MAX
    ensures SizeLineFor(RenderHex(n) + CRLF, n)
  {
    var text := RenderHex(n);
    HexOfRender(n);
    PlainSizeFits(n);
    HexLine(text);
    hide RenderHex;
    hide C.LineFrom;
    assert text[..|text|] == text;
    assert C.ExtensionsFrom(text, |text|, []) == Ok([]);
  }

  lemma NoTrailers(declared: seq<Bytes>)
    requires DeclarationFault(declared).None?
    ensures TrailersFor(CRLF, declared)
  {
    H.LineBreakIs(CRLF, 0, 0);
  }

  function PlainChunks(parts: seq<Bytes>): (chunks: seq<Chunk>)
    ensures |chunks| == |parts|
  {
    if parts == [] then [] else [Chunk(RenderHex(|parts[0]|) + CRLF, parts[0])] + PlainChunks(parts[1..])
  }

  ghost predicate ChunkSized(parts: seq<Bytes>) {
    forall i :: 0 <= i < |parts| ==> 0 < |parts[i]| <= C.SIZE_MAX
  }

  lemma {:induction false} PlainChunksWellFormed(parts: seq<Bytes>)
    requires ChunkSized(parts)
    ensures AllWellFormed(PlainChunks(parts)) && Body(PlainChunks(parts)) == Concat(parts)
  {
    if parts != [] {
      PlainChunksWellFormed(parts[1..]);
      PlainSizeLine(|parts[0]|);
      assert PlainChunks(parts)[1..] == PlainChunks(parts[1..]);
    }
  }

  /** The encoding of section 7.1 of RFC 9112: each part with its size, a zero size and an empty trailer section. */
  function Encode(parts: seq<Bytes>): Bytes { Message(PlainChunks(parts), RenderHex(0) + CRLF, CRLF) }

  /** For any division of a body into chunks, decoding the encoding gives the body back and leaves what follows. */
  lemma DecodeOfEncode(parts: seq<Bytes>, rest: Bytes, declared: seq<Bytes>, limits: Limits)
    requires ChunkSized(parts) && DeclarationFault(declared).None?
    requires |Concat(parts)| <= limits.max && |Concat(parts)| <= limits.room
    ensures Decode(Encode(parts) + rest, [], Done(declared), limits) == Done(Decoded(Concat(parts), rest))
  {
    hide Decode;
    hide SizeLineFor;
    hide TrailersFor;
    hide AllWellFormed;
    hide RenderHex;
    hide DeclarationFault;
    PlainChunksWellFormed(parts);
    PlainSizeLine(0);
    NoTrailers(declared);
    DecodeOfMessage(PlainChunks(parts), RenderHex(0) + CRLF, CRLF, rest, [], declared, limits);
    assert [] + Concat(parts) == Concat(parts);
  }
}
