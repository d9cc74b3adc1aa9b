/** Reading bytes, lines and trailers from a buffer that continues as a stream. */
module BufferedInput {
  import opened Bytes
  import opened Http
  import opened Streams

  // ---------- what is read, in terms of all the bytes to come ----------

  /** The length of the line at the front, CRLF included, when `i` of its bytes are already taken. */
  function LineLength(wire: Bytes, i: nat, max: nat, end: End): (length: Outcome<nat>)
    ensures length.Done? ==> i < length.value <= |wire| && length.value <= max + 1 && length.value >= 2
    ensures length.Done? ==> wire[length.value - 2] == '\r' && wire[length.value - 1] == '\n'
    decreases if i <= max then max + 1 - i else 0
  {
    if i > max then Outcome.Failed(TooLarge)
    else if i >= |wire| then Outcome.Failed(EndFault(end))
    else if i >= 1 && wire[i - 1] == '\r' && wire[i] == '\n' then Done(i + 1)
    else LineLength(wire, i + 1, max, end)
  }

  /** The first CRLF ends the line. */
  lemma {:induction false} LineLengthIs(wire: Bytes, i: nat, max: nat, end: End, n: nat)
    requires i < n <= |wire| && n <= max + 1 && n >= 2 && wire[n - 2] == '\r' && wire[n - 1] == '\n'
    requires forall k :: i <= k < n - 1 && k >= 1 ==> !(wire[k - 1] == '\r' && wire[k] == '\n')
    ensures LineLength(wire, i, max, end) == Done(n)
    decreases n - i
  {
    if i < n - 1 { LineLengthIs(wire, i + 1, max, end, n); }
  }

  /** The length of the lines up to and including an empty one, when `taken` bytes are already read. */
  function TrailersLength(wire: Bytes, taken: nat, max: nat, end: End): (length: Outcome<nat>)
    requires taken <= |wire| && taken <= max
    ensures length.Done? ==> taken < length.value <= |wire| && length.value <= max
    decreases |wire| - taken
  {
    var line := LineLength(wire[taken..], 0, max - taken, end);
    if line.Failed? then Outcome.Failed(line.fault)
    else if taken + line.value > max then Outcome.Failed(TooLarge)
    else if line.value == 2 then Done(taken + 2)
    else TrailersLength(wire, taken + line.value, max, end)
  }

  lemma TrailersLengthFails(wire: Bytes, taken: nat, max: nat, end: End)
    requires taken <= |wire| && taken <= max
    ensures var line := LineLength(wire[taken..], 0, max - taken, end);
      && (line.Failed? ==> TrailersLength(wire, taken, max, end) == Outcome.Failed(line.fault))
      && (line.Done? && taken + line.value > max ==> TrailersLength(wire, taken, max, end) == Outcome.Failed(TooLarge))
  {
    hide LineLength;
  }

  lemma TrailersLengthStep(wire: Bytes, taken: nat, max: nat, end: End, n: nat)
    requires taken <= |wire| && taken <= max && taken + n <= max && LineLength(wire[taken..], 0, max - taken, end) == Done(n)
    ensures TrailersLength(wire, taken, max, end) == if n == 2 then Done(taken + 2) else TrailersLength(wire, taken + n, max, end)
  {
    hide LineLength;
  }

  /** A length read off the front: these bytes, and those that stay available. */
  ghost predicate Takes(before: Bytes, length: Outcome<nat>, r: Outcome<Bytes>, after: Bytes)
    requires length.Done? ==> length.value <= |before|
  {
    match length
    case Done(n) => r == Done(before[..n]) && after == before[n..]
    case Failed(fault) => r == Outcome.Failed(fault)
  }

  /** Some lines of the trailers are read, and the rest is still available. */
  ghost predicate ReadSoFar(wire: Bytes, output: Bytes, rest: Bytes, max: nat, end: End) {
    && |output| <= |wire| && |output| <= max && output == wire[..|output|] && rest == wire[|output|..]
    && TrailersLength(wire, |output|, max, end) == TrailersLength(wire, 0, max, end)
  }

  datatype TrailerStep = MoreLines(output: Bytes) | AllLines(output: Bytes) | LineFault(fault: Fault)

  // ---------- the reader ----------

  class Reader {
    const stream: Stream
    var buffer: Bytes
    var offset: nat

    constructor (stream: Stream, buffer: Bytes)
      requires stream.Valid()
      ensures Valid() && this.stream == stream && Available() == buffer + stream.Pending()
    {
      this.stream := stream;
      this.buffer := buffer;
      offset := 0;
      new;
      assert buffer[0..] == buffer;
    }

    ghost predicate Valid()
      reads this, stream
    {
      offset <= |buffer| && stream.Valid()
    }

    /** All the bytes still to be read, wherever they are. */
    ghost function Available(): Bytes
      reads this, stream
      requires Valid()
    {
      buffer[offset..] + stream.Pending()
    }

    method ReadByte() returns (r: Outcome<Byte>)
      requires Valid()
      modifies this, stream
      ensures Valid()
      ensures old(Available()) != [] ==> r == Done(old(Available())[0]) && Available() == old(Available())[1..]
      ensures old(Available()) == [] ==> r == Outcome.Failed(EndFault(stream.end))
    {
      if offset < |buffer| {
        var byte := buffer[offset];
        offset := offset + 1;
        return Done(byte);
      }
      buffer := [];
      offset := 0;
      var one := stream.ReadExact(1);
      if one.Failed? { return Outcome.Failed(one.fault); }
      return Done(one.value[0]);
    }

    method ReadExactVec(length: nat) returns (r: Outcome<Bytes>)
      requires Valid()
      modifies this, stream
      ensures Valid()
      ensures length <= |old(Available())| ==> Takes(old(Available()), Done(length), r, Available())
      ensures length > |old(Available())| ==> r == Outcome.Failed(EndFault(stream.end))
    {
      var buffered := |buffer| - offset;
      var available := if buffered < length then buffered else length;
      var output := buffer[offset..offset + available];
      ghost var held, pending := buffer[offset..], stream.Pending();
      offset := offset + available;
      if available < length {
        var more := stream.ReadExact(length - available);
        if more.Failed? { return Outcome.Failed(more.fault); }
        assert output == held;
        assert (held + pending)[..length] == held + pending[..length - available];
        assert (held + pending)[length..] == pending[length - available..];
        return Done(output + more.value);
      }
      assert (held + pending)[..length] == output;
      assert (held + pending)[length..] == held[length..] + pending;
      return Done(output);
    }

    method ReadLine(max: nat) returns (r: Outcome<Bytes>)
      requires Valid()
      modifies this, stream
      ensures Valid()
      ensures Takes(old(Available()), LineLength(old(Available()), 0, max, stream.end), r, Available())
    {
      var output: Bytes := [];
      ghost var wire := Available();
      while |output| <= max
        invariant Valid() && |output| <= |wire| && |output| <= max + 1
        invariant output == wire[..|output|] && Available() == wire[|output|..]
        invariant LineLength(wire, |output|, max, stream.end) == LineLength(wire, 0, max, stream.end)
        decreases max + 1 - |output|
      {
        ghost var i := |output|;
        var byte := ReadByte();
        if byte.Failed? { return Outcome.Failed(byte.fault); }
        output := output + [byte.value];
        assert output == wire[..i + 1] && Available() == wire[i + 1..];
        if |output| >= 2 && output[|output| - 2..] == CRLF {
          assert wire[i - 1] == output[i - 1] && wire[i] == output[i];
          return Done(output);
        }
        assert |output| >= 2 ==> output[|output| - 2..] == [wire[i - 1], wire[i]];
      }
      return Outcome.Failed(TooLarge);
    }

    /** The next line of the trailers, added to those before it. */
    method AddTrailerLine(output: Bytes, max: nat, ghost wire: Bytes) returns (step: TrailerStep)
      requires Valid() && ReadSoFar(wire, output, Available(), max, stream.end)
      modifies this, stream
      ensures Valid()
      ensures step.MoreLines? ==> ReadSoFar(wire, step.output, Available(), max, stream.end) && |step.output| > |output|
      ensures step.AllLines? ==> Takes(wire, TrailersLength(wire, 0, max, stream.end), Done(step.output), Available())
      ensures step.LineFault? ==> TrailersLength(wire, 0, max, stream.end) == Outcome.Failed(step.fault)
    {
      hide LineLength;
      hide TrailersLength;
      ghost var taken := |output|;
      var line := ReadLine(max - |output|);
      TrailersLengthFails(wire, taken, max, stream.end);
      if line.Failed? { return LineFault(line.fault); }
      var text := line.value;
      var empty := text == CRLF;
      assert empty <==> |text| == 2 by {
        assert |text| == 2 ==> text == [text[0], text[1]];
      }
      assert output + text == wire[..taken + |text|] && Available() == wire[taken + |text|..] by {
        SliceStep(wire, taken, |text|);
      }
      if |output + text| > max { return LineFault(TooLarge); }
      TrailersLengthStep(wire, taken, max, stream.end, |text|);
      return if empty then AllLines(output + text) else MoreLines(output + text);
    }

    method ReadTrailers(max: nat) returns (r: Outcome<Bytes>)
      requires Valid()
      modifies this, stream
      ensures Valid()
      ensures Takes(old(Available()), TrailersLength(old(Available()), 0, max, stream.end), r, Available())
    {
      var output: Bytes := [];
      ghost var wire := Available();
      while true
        invariant Valid() && ReadSoFar(wire, output, Available(), max, stream.end)
        decreases |wire| - |output|
      {
        var step := AddTrailerLine(output, max, wire);
        match step
        case LineFault(fault) => return Outcome.Failed(fault);
        case AllLines(all) => return Done(all);
        case MoreLines(more) => output := more;
      }
    }
  }

  lemma SliceStep(wire: Bytes, taken: nat, n: nat)
    requires taken + n <= |wire|
    ensures wire[..taken] + wire[taken..][..n] == wire[..taken + n]
    ensures wire[taken..][n..] == wire[taken + n..]
  {
  }
}
