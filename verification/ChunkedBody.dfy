/** Decoding a chunked body from a buffered stream, with its memory accounted for chunk by chunk. */
module ChunkedBody {
  import opened BufferedInput
  import opened Bytes
  import C = Chunks
  import opened Http
  import opened Streams
  import opened Trailers

  const LINE_LIMIT := 4_096

  // ---------- what one chunk is ----------

  /** What the connection and its limits allow: the body limit, the memory still free, and how the stream ends. */
  datatype Limits = Limits(max: nat, room: nat, end: End)

  datatype Step = More(data: Bytes, rest: Bytes) | Last(rest: Bytes) | Stop(fault: Fault)

  function SizeLine(wire: Bytes, limit: nat, end: End): Outcome<(nat, nat)> {
    var length := LineLength(wire, 0, limit, end);
    if length.Failed? then Outcome.Failed(length.fault)
    else
      var meta := C.ParseChunk(wire[..length.value]);
      if meta.Err? then Outcome.Failed(Protocol(meta.error))
      else if meta.value.bytesConsumed != length.value then Outcome.Failed(Protocol(InvalidChunk(TrailingBytes)))
      else Done((meta.value.size, length.value))
  }

  /** The bytes of a chunk and the CRLF that must follow them. */
  function ChunkData(wire: Bytes, size: nat, end: End): (step: Step)
    ensures !step.Last?
  {
    if |wire| < size then Stop(EndFault(end))
    else if |wire| < size + 2 then Stop(EndFault(end))
    else if wire[size..size + 2] != CRLF then Stop(Protocol(InvalidChunk(InvalidTerminator)))
    else More(wire[..size], wire[size + 2..])
  }

  ghost function TrailerPart(wire: Bytes, declared: Outcome<seq<Bytes>>, limit: nat, end: End): (step: Step)
    ensures !step.More?
  {
    var length := TrailersLength(wire, 0, limit, end);
    if length.Failed? then Stop(length.fault)
    else if declared.Failed? then Stop(declared.fault)
    else
      var block := ParseTrailers(wire[..length.value], declared.value);
      if block.Err? then Stop(Protocol(block.error))
      else if block.value.bytesConsumed != length.value then Stop(Protocol(InvalidTrailer(TrailingBytes)))
      else Last(wire[length.value..])
  }

  ghost function NextChunk(wire: Bytes, decoded: nat, declared: Outcome<seq<Bytes>>, limits: Limits): Step {
    var line := SizeLine(wire, LINE_LIMIT, limits.end);
    if line.Failed? then Stop(line.fault)
    else
      var size, rest := line.value.0, wire[line.value.1..];
      if decoded + size > limits.max then Stop(TooLarge)
      else if size == 0 then TrailerPart(rest, declared, TRAILER_MAX, limits.end)
      else if size > limits.room then Stop(Busy)
      else ChunkData(rest, size, limits.end)
  }

  datatype Decoded = Decoded(body: Bytes, rest: Bytes)

  /** The decoded body and the bytes after it, or the fault that ends the decoding. */
  ghost function Decode(wire: Bytes, decoded: Bytes, declared: Outcome<seq<Bytes>>, limits: Limits): Outcome<Decoded>
    decreases |wire|
  {
    match NextChunk(wire, |decoded|, declared, limits)
    case Stop(fault) => Outcome.Failed(fault)
    case Last(rest) => Done(Decoded(decoded, rest))
    case More(data, rest) =>
      if |rest| < |wire| && |data| <= limits.room then
        Decode(rest, decoded + data, declared, limits.(room := limits.room - |data|))
      else Outcome.Failed(ClientIo)
  }

  /** A chunk makes progress within the memory that is free. */
  lemma ChunkProgress(wire: Bytes, decoded: nat, declared: Outcome<seq<Bytes>>, limits: Limits)
    requires NextChunk(wire, decoded, declared, limits).More?
    ensures var step := NextChunk(wire, decoded, declared, limits);
      |step.rest| < |wire| && 0 < |step.data| <= limits.room && decoded + |step.data| <= limits.max
  {
  }

  lemma DecodeStep(wire: Bytes, decoded: Bytes, declared: Outcome<seq<Bytes>>, limits: Limits, data: Bytes, rest: Bytes)
    requires NextChunk(wire, |decoded|, declared, limits) == More(data, rest)
    ensures |data| <= limits.room
    ensures Decode(wire, decoded, declared, limits) ==
            Decode(rest, decoded + data, declared, limits.(room := limits.room - |data|))
  {
    hide NextChunk;
    assert |rest| < |wire| && |data| <= limits.room by { ChunkProgress(wire, |decoded|, declared, limits); }
  }

  // ---------- memory ----------

  /** The shared budget, as one connection sees it. */
  class Budget {
    var used: nat
    const limit: nat

    constructor (limit: nat)
      ensures this.limit == limit && used == 0
    {
      this.limit := limit;
      used := 0;
    }

    function Room(): nat
      reads this
    {
      if limit >= used then limit - used else 0
    }
  }

  class Permit {
    const budget: Budget
    var bytes: nat

    constructor (budget: Budget)
      ensures this.budget == budget && bytes == 0
    {
      this.budget := budget;
      bytes := 0;
    }

    /** Reserves more bytes; a refusal changes nothing. */
    method Grow(more: nat) returns (ok: bool)
      modifies this, budget
      ensures ok <==> old(budget.used) + more <= budget.limit
      ensures ok ==> budget.used == old(budget.used) + more && bytes == old(bytes) + more
      ensures !ok ==> budget.used == old(budget.used) && bytes == old(bytes)
    {
      var next := budget.used + more;
      if next > budget.limit { return false; }
      budget.used := next;
      bytes := bytes + more;
      return true;
    }
  }

  // ---------- the decoder ----------

  method ReadSizeLine(input: Reader) returns (r: Outcome<nat>)
    requires input.Valid()
    modifies input, input.stream
    ensures input.Valid()
    ensures
      match SizeLine(old(input.Available()), LINE_LIMIT, input.stream.end)
      case Failed(fault) => r == Outcome.Failed(fault)
      case Done((size, length)) => r == Done(size) && length <= |old(input.Available())| && input.Available() == old(input.Available())[length..]
  {
    var line := input.ReadLine(LINE_LIMIT);
    if line.Failed? { return Outcome.Failed(line.fault); }
    var metadata := C.ParseByGuardedParts(line.value);
    if metadata.Err? { return Outcome.Failed(Protocol(metadata.error)); }
    if metadata.value.bytesConsumed != |line.value| { return Outcome.Failed(Protocol(InvalidChunk(TrailingBytes))); }
    return Done(metadata.value.size);
  }

  method ReadTrailerPart(input: Reader, declared: Outcome<seq<Bytes>>) returns (fault: Option<Fault>)
    requires input.Valid()
    modifies input, input.stream
    ensures input.Valid()
    ensures
      match TrailerPart(old(input.Available()), declared, TRAILER_MAX, input.stream.end)
      case Stop(f) => fault == Some(f)
      case Last(rest) => fault == None && input.Available() == rest
      case More(_, _) => false
  {
    var wire := input.ReadTrailers(TRAILER_MAX);
    if wire.Failed? { return Some(wire.fault); }
    if declared.Failed? { return Some(declared.fault); }
    var trailers := ParseByDirectTable(wire.value, declared.value);
    if trailers.Err? { return Some(Protocol(trailers.error)); }
    if trailers.value.bytesConsumed != |wire.value| { return Some(Protocol(InvalidTrailer(TrailingBytes))); }
    return None;
  }

  method ReadChunkData(input: Reader, size: nat) returns (r: Outcome<Bytes>)
    requires input.Valid()
    modifies input, input.stream
    ensures input.Valid()
    ensures
      match ChunkData(old(input.Available()), size, input.stream.end)
      case Stop(fault) => r == Outcome.Failed(fault)
      case More(data, rest) => r == Done(data) && input.Available() == rest
      case Last(_) => false
  {
    ghost var wire := input.Available();
    var data := input.ReadExactVec(size);
    if data.Failed? { return Outcome.Failed(data.fault); }
    ghost var after := input.Available();
    var terminator := input.ReadExactVec(2);
    if terminator.Failed? { return Outcome.Failed(terminator.fault); }
    assert after[..2] == wire[size..size + 2] && after[2..] == wire[size + 2..];
    if terminator.value != CRLF { return Outcome.Failed(Protocol(InvalidChunk(InvalidTerminator))); }
    return Done(data.value);
  }

  datatype Progress = Continue(data: Bytes) | Finished | Fails(fault: Fault)

  /** The limits as they stand. */
  ghost function Standing(max: nat, permit: Permit, end: End): Limits
    reads permit, permit.budget
  {
    Limits(max, permit.budget.Room(), end)
  }

  method ReadOneChunk(input: Reader, decoded: nat, declared: Outcome<seq<Bytes>>, max: nat, permit: Permit) returns (r: Progress)
    requires input.Valid() && permit.budget.used <= permit.budget.limit
    modifies input, input.stream, permit, permit.budget
    ensures input.Valid() && permit.budget.used <= permit.budget.limit
    ensures permit.bytes - old(permit.bytes) == permit.budget.used - old(permit.budget.used) >= 0
    ensures
      match NextChunk(old(input.Available()), decoded, declared, old(Standing(max, permit, input.stream.end)))
      case Stop(fault) => r == Fails(fault)
      case Last(rest) => r == Finished && input.Available() == rest && permit.bytes == old(permit.bytes)
      case More(data, rest) =>
        r == Continue(data) && input.Available() == rest && permit.bytes == old(permit.bytes) + |data|
  {
    var size := ReadSizeLine(input);
    if size.Failed? { return Fails(size.fault); }
    if decoded + size.value > max { return Fails(TooLarge); }
    if size.value == 0 {
      var fault := ReadTrailerPart(input, declared);
      return if fault.Some? then Fails(fault.value) else Finished;
    }
    var grown := permit.Grow(size.value);
    if !grown { return Fails(Busy); }
    var data := ReadChunkData(input, size.value);
    return if data.Failed? then Fails(data.fault) else Continue(data.value);
  }

  /** The body, however its bytes are split between the buffer and the stream; the permit grows by its length. */
  method ReadChunked(input: Reader, declared: Outcome<seq<Bytes>>, max: nat, permit: Permit) returns (r: Outcome<Bytes>)
    requires input.Valid() && permit.budget.used <= permit.budget.limit
    modifies input, input.stream, permit, permit.budget
    ensures input.Valid() && permit.budget.used <= permit.budget.limit
    ensures permit.bytes - old(permit.bytes) == permit.budget.used - old(permit.budget.used) >= 0
    ensures
      match Decode(old(input.Available()), [], declared, old(Standing(max, permit, input.stream.end)))
      case Failed(fault) => r == Outcome.Failed(fault)
      case Done(result) =>
        r == Done(result.body) && input.Available() == result.rest && permit.bytes == old(permit.bytes) + |result.body|
  {
    var decoded: Bytes := [];
    ghost var whole := Decode(input.Available(), [], declared, Standing(max, permit, input.stream.end));
    while true
      invariant input.Valid() && permit.budget.used <= permit.budget.limit
      invariant permit.bytes - old(permit.bytes) == permit.budget.used - old(permit.budget.used) == |decoded|
      invariant Decode(input.Available(), decoded, declared, Standing(max, permit, input.stream.end)) == whole
      decreases |input.Available()|
    {
      ghost var wire, limits := input.Available(), Standing(max, permit, input.stream.end);
      var step := ReadOneChunk(input, |decoded|, declared, max, permit);
      match step
      case Fails(fault) => return Outcome.Failed(fault);
      case Finished => return Done(decoded);
      case Continue(data) =>
        assert Standing(max, permit, input.stream.end) == limits.(room := limits.room - |data|) by {
          ChunkProgress(wire, |decoded|, declared, limits);
        }
        assert Decode(wire, decoded, declared, limits) ==
               Decode(input.Available(), decoded + data, declared, limits.(room := limits.room - |data|)) by {
          DecodeStep(wire, decoded, declared, limits, data, input.Available());
        }
        assert |input.Available()| < |wire| by { ChunkProgress(wire, |decoded|, declared, limits); }
        decoded := decoded + data;
    }
  }
}
