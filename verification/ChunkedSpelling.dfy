/** Whole chunked messages as they may be written, and what they decode to. */
module ChunkedSpelling {
  import opened Bytes
  import opened ChunkedBody
  import opened ChunkedRoundTrip
  import C = ChunkLines
  import G = HeaderGrammar
  import opened Http
  import TG = TrailerGrammar
  import Trailers

  /** A chunk with its size in digits of either case, leading zeros allowed, and its extensions. */
  datatype Spelled = Spelled(size: Bytes, extensions: seq<C.Written>, data: Bytes)

  predicate Allowed(chunk: Spelled) { chunk.data != [] && C.LineParts(chunk.size, |chunk.data|, chunk.extensions) }

  predicate AllAllowed(chunks: seq<Spelled>) { forall i :: 0 <= i < |chunks| ==> Allowed(chunks[i]) }

  function LineText(size: Bytes, extensions: seq<C.Written>): Bytes { size + C.ListText(extensions) + CRLF }

  function Data(chunks: seq<Spelled>): Bytes {
    if chunks == [] then [] else chunks[0].data + Data(chunks[1..])
  }

  /** The chunks, a line for size zero, the trailer fields and an empty line. */
  function Text(chunks: seq<Spelled>, size: Bytes, extensions: seq<C.Written>, trailers: seq<G.Line>): Bytes {
    if chunks == [] then LineText(size, extensions) + (G.Lines(trailers) + CRLF)
    else LineText(chunks[0].size, chunks[0].extensions) + (chunks[0].data + CRLF) + Text(chunks[1..], size, extensions, trailers)
  }

  /** What a written trailer must be: declared fields, each once, within the limits. */
  ghost predicate TrailersAllowed(trailers: seq<G.Line>, declared: seq<Bytes>) {
    && Trailers.DeclarationFault(declared).None? && G.AllAllowed(trailers)
    && |trailers| <= Trailers.TRAILER_FIELD_MAX && |G.Lines(trailers)| + 2 <= Trailers.TRAILER_MAX
    && TG.EachOnce(G.Meanings(trailers), declared)
  }

  // ---------- as chunks ----------

  function Chunks(chunks: seq<Spelled>): (r: seq<Chunk>)
    ensures |r| == |chunks|
  {
    if chunks == [] then []
    else [Chunk(LineText(chunks[0].size, chunks[0].extensions), chunks[0].data)] + Chunks(chunks[1..])
  }

  lemma LineFor(size: Bytes, n: nat, extensions: seq<C.Written>)
    requires C.LineParts(size, n, extensions)
    ensures SizeLineFor(LineText(size, extensions), n)
  {
    C.LineReads(size, n, extensions, []);
    hide C.LineParts;
    hide C.ListText;
    assert size + C.ListText(extensions) + CRLF + [] == LineText(size, extensions);
  }

  lemma {:induction false} ChunksAre(chunks: seq<Spelled>, size: Bytes, extensions: seq<C.Written>, trailers: seq<G.Line>)
    requires AllAllowed(chunks)
    ensures AllWellFormed(Chunks(chunks)) && Body(Chunks(chunks)) == Data(chunks)
    ensures Message(Chunks(chunks), LineText(size, extensions), G.Lines(trailers) + CRLF) == Text(chunks, size, extensions, trailers)
  {
    hide LineText;
    hide C.LineParts;
    hide SizeLineFor;
    hide G.Lines;
    if chunks != [] {
      var first := chunks[0];
      assert Allowed(first);
      LineFor(first.size, |first.data|, first.extensions);
      assert forall k :: 0 <= k < |chunks[1..]| ==> chunks[1..][k] == chunks[k + 1];
      ChunksAre(chunks[1..], size, extensions, trailers);
      assert Chunks(chunks)[1..] == Chunks(chunks[1..]);
    }
  }

  /** However its sizes are spelled and whatever extensions and trailers it has, a message within the limits decodes to
      the data of its chunks, and the bytes after it are left alone. */
  lemma DecodeOfSpelled(chunks: seq<Spelled>, size: Bytes, extensions: seq<C.Written>, trailers: seq<G.Line>, rest: Bytes,
                        declared: seq<Bytes>, limits: Limits)
    requires AllAllowed(chunks) && C.LineParts(size, 0, extensions) && TrailersAllowed(trailers, declared)
    requires |Data(chunks)| <= limits.max && |Data(chunks)| <= limits.room
    ensures Decode(Text(chunks, size, extensions, trailers) + rest, [], Done(declared), limits) ==
            Done(Decoded(Data(chunks), rest))
  {
    hide Decode;
    hide AllAllowed;
    hide C.LineParts;
    hide SizeLineFor;
    hide AllWellFormed;
    hide LineText;
    hide Message;
    hide Body;
    hide Data;
    hide Text;
    hide G.Lines;
    hide G.Meanings;
    ChunksAre(chunks, size, extensions, trailers);
    LineFor(size, 0, extensions);
    assert TrailersFor(G.Lines(trailers) + CRLF, declared) by {
      TG.TrailersRead(trailers, [], declared);
      assert G.Lines(trailers) + CRLF + [] == G.Lines(trailers) + CRLF;
    }
    DecodeOfMessage(Chunks(chunks), LineText(size, extensions), G.Lines(trailers) + CRLF, rest, [], declared, limits);
    assert [] + Data(chunks) == Data(chunks);
  }

  // ---------- beyond the limits ----------

  lemma ChunkRefused(chunk: Chunk, rest: Bytes, decoded: nat, declared: Outcome<seq<Bytes>>, limits: Limits)
    requires WellFormed(chunk) && (decoded + |chunk.data| > limits.max || |chunk.data| > limits.room)
    ensures NextChunk(ChunkText(chunk) + rest, decoded, declared, limits) ==
            Stop(if decoded + |chunk.data| > limits.max then TooLarge else Busy)
  {
    hide SizeLine;
    hide SizeLineFor;
    var after := chunk.data + CRLF + rest;
    assert ChunkText(chunk) + rest == chunk.line + after;
    SizeLineReadBack(chunk.line, after, |chunk.data|, LINE_LIMIT, limits.end);
  }

  /** A message with more data than the body limit or the free memory allows is refused. */
  lemma {:induction false} TooMuchRefused(chunks: seq<Chunk>, lastLine: Bytes, trailers: Bytes, rest: Bytes, decoded: Bytes,
                                          declared: seq<Bytes>, limits: Limits)
    requires AllWellFormed(chunks) && |decoded| <= limits.max
    requires |decoded| + |Body(chunks)| > limits.max || |Body(chunks)| > limits.room
    ensures Decode(Message(chunks, lastLine, trailers) + rest, decoded, Done(declared), limits) == Outcome.Failed(TooLarge)
         || Decode(Message(chunks, lastLine, trailers) + rest, decoded, Done(declared), limits) == Outcome.Failed(Busy)
    decreases |chunks|
  {
    hide WellFormed;
    hide NextChunk;
    hide ChunkText;
    assert chunks != [];
    var data, after := chunks[0].data, Message(chunks[1..], lastLine, trailers) + rest;
    var wire := Message(chunks, lastLine, trailers) + rest;
    assert wire == ChunkText(chunks[0]) + after by {
      ConcatAssociates(ChunkText(chunks[0]), Message(chunks[1..], lastLine, trailers), rest);
    }
    BodyCons(decoded, chunks);
    assert WellFormed(chunks[0]);
    if |decoded| + |data| > limits.max || |data| > limits.room {
      ChunkRefused(chunks[0], after, |decoded|, Done(declared), limits);
    } else {
      ChunkReadBack(chunks[0], after, |decoded|, Done(declared), limits);
      DecodeStep(wire, decoded, Done(declared), limits, data, after);
      hide Decode;
      assert forall k :: 0 <= k < |chunks[1..]| ==> chunks[1..][k] == chunks[k + 1];
      TooMuchRefused(chunks[1..], lastLine, trailers, rest, decoded + data, declared, limits.(room := limits.room - |data|));
    }
  }

  /** Such a message decodes exactly when its data is within the body limit and the free memory. */
  lemma DecodesWithinLimits(chunks: seq<Spelled>, size: Bytes, extensions: seq<C.Written>, trailers: seq<G.Line>, rest: Bytes,
                            declared: seq<Bytes>, limits: Limits)
    requires AllAllowed(chunks) && C.LineParts(size, 0, extensions) && TrailersAllowed(trailers, declared)
    ensures Decode(Text(chunks, size, extensions, trailers) + rest, [], Done(declared), limits).Done? <==>
            |Data(chunks)| <= limits.max && |Data(chunks)| <= limits.room
  {
    hide Decode;
    hide AllAllowed;
    hide AllWellFormed;
    hide C.LineParts;
    hide TrailersAllowed;
    hide LineText;
    hide Message;
    hide Body;
    hide Data;
    hide Text;
    if |Data(chunks)| <= limits.max && |Data(chunks)| <= limits.room {
      DecodeOfSpelled(chunks, size, extensions, trailers, rest, declared, limits);
    } else {
      ChunksAre(chunks, size, extensions, trailers);
      TooMuchRefused(Chunks(chunks), LineText(size, extensions), G.Lines(trailers) + CRLF, rest, [], declared, limits);
    }
  }

  // ---------- and nothing else is decoded ----------

  lemma LineIsSpelled(line: Bytes, n: nat) returns (size: Bytes, extensions: seq<C.Written>)
    requires SizeLineFor(line, n)
    ensures C.LineParts(size, n, extensions) && LineText(size, extensions) == line
  {
    size, extensions := C.AcceptedLine(line);
    hide C.LineParts;
    hide C.ListText;
  }

  lemma {:induction false} ChunksAreSpelled(chunks: seq<Chunk>) returns (spelled: seq<Spelled>)
    requires AllWellFormed(chunks)
    ensures AllAllowed(spelled) && Chunks(spelled) == chunks
  {
    hide C.LineParts;
    hide SizeLineFor;
    hide LineText;
    if chunks == [] {
      spelled := [];
    } else {
      var first := chunks[0];
      assert WellFormed(first);
      assert forall k :: 0 <= k < |chunks[1..]| ==> chunks[1..][k] == chunks[k + 1];
      var size, extensions := LineIsSpelled(first.line, |first.data|);
      var more := ChunksAreSpelled(chunks[1..]);
      spelled := [Spelled(size, extensions, first.data)] + more;
      assert spelled[1..] == more;
      assert Chunk(LineText(size, extensions), first.data) == first;
    }
  }

  lemma TrailersAreWritten(trailers: Bytes, declared: seq<Bytes>) returns (lines: seq<G.Line>)
    requires TrailersFor(trailers, declared)
    ensures TrailersAllowed(lines, declared) && G.Lines(lines) + CRLF == trailers
  {
    lines := TG.AcceptedTrailers(trailers, declared);
    hide Trailers.ParseTrailers;
    hide G.Lines;
    hide G.Meanings;
    hide G.AllAllowed;
  }

  /** Whatever is decoded is such a message followed by the bytes left over. */
  lemma DecodedIsSpelled(wire: Bytes, declared: Outcome<seq<Bytes>>, limits: Limits)
    returns (chunks: seq<Spelled>, size: Bytes, extensions: seq<C.Written>, trailers: seq<G.Line>)
    requires Decode(wire, [], declared, limits).Done?
    ensures declared.Done? && AllAllowed(chunks) && C.LineParts(size, 0, extensions) && TrailersAllowed(trailers, declared.value)
    ensures var r := Decode(wire, [], declared, limits).value;
      r.body == Data(chunks) && wire == Text(chunks, size, extensions, trailers) + r.rest
  {
    hide Decode;
    hide AllAllowed;
    hide AllWellFormed;
    hide C.LineParts;
    hide SizeLineFor;
    hide TrailersFor;
    hide TrailersAllowed;
    hide LineText;
    hide Message;
    hide Body;
    hide Data;
    hide Text;
    hide Chunks;
    hide G.Lines;
    var plain, lastLine, last := DecodedIsMessage(wire, [], declared, limits);
    chunks := ChunksAreSpelled(plain);
    size, extensions := LineIsSpelled(lastLine, 0);
    trailers := TrailersAreWritten(last, declared.value);
    ChunksAre(chunks, size, extensions, trailers);
    assert [] + Body(plain) == Body(plain);
  }
}
