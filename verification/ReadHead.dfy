/** Reading a message head from a stream that delivers it in arbitrary pieces. */
module ReadHead {
  import opened Bytes
  import opened Http
  import opened Streams

  const SCRATCH := 2048

  const TERMINATOR: Bytes := "\r\n\r\n"

  datatype Verdict = Head(head: Bytes) | Rejected(fault: Fault)

  /** The verdict on a whole stream, with no mention of how it was delivered. */
  function HeadVerdict(stream: Bytes, end: End, max: nat): Verdict {
    match FindSequence(stream, TERMINATOR)
    case At(at) => if at + 4 > max then Rejected(TooLarge) else Head(stream[..at + 4])
    case Nowhere =>
      if |stream| > max then Rejected(TooLarge)
      else match end
        case Eof => Rejected(if stream == [] then ClientClosed else ClientIo)
        case Broken(fault) => Rejected(fault)
  }

  lemma SamePrefixOccurrences(prefix: Bytes, stream: Bytes)
    requires prefix <= stream
    ensures forall i: nat :: i + 4 <= |prefix| ==> (OccursAt(prefix, TERMINATOR, i) <==> OccursAt(stream, TERMINATOR, i))
  {
    forall i: nat | i + 4 <= |prefix|
      ensures OccursAt(prefix, TERMINATOR, i) <==> OccursAt(stream, TERMINATOR, i)
    {
      assert prefix[i..i + 4] == stream[i..i + 4];
    }
  }

  /** A terminator found in what was read so far is the first one of the whole stream. */
  lemma FoundInPrefix(prefix: Bytes, stream: Bytes)
    requires prefix <= stream && FindSequence(prefix, TERMINATOR).At?
    ensures FindSequence(stream, TERMINATOR) == FindSequence(prefix, TERMINATOR)
  {
    SamePrefixOccurrences(prefix, stream);
    var at := FindSequence(prefix, TERMINATOR).index;
    assert OccursAt(stream, TERMINATOR, at);
  }

  lemma MissingInLongPrefix(prefix: Bytes, stream: Bytes, end: End, max: nat)
    requires prefix <= stream && FindSequence(prefix, TERMINATOR).Nowhere? && |prefix| > max
    ensures HeadVerdict(stream, end, max) == Rejected(TooLarge)
  {
    SamePrefixOccurrences(prefix, stream);
  }

  lemma FoundDecides(bytes: Bytes, rest: Bytes, end: End, max: nat)
    requires FindSequence(bytes, TERMINATOR).At?
    ensures var at := FindSequence(bytes, TERMINATOR).index;
      HeadVerdict(bytes + rest, end, max) == if at + 4 > max then Rejected(TooLarge) else Head(bytes[..at + 4])
  {
    FoundInPrefix(bytes, bytes + rest);
    var at := FindSequence(bytes, TERMINATOR).index;
    assert (bytes + rest)[..at + 4] == bytes[..at + 4];
  }

  method SplitOff(bytes: Bytes, at: nat) returns (head: Bytes, remainder: Bytes)
    requires at <= |bytes|
    ensures head == bytes[..at] && head + remainder == bytes
  {
    return bytes[..at], bytes[at..];
  }

  method ReadHead(stream: Stream, max: nat) returns (r: Outcome<(Bytes, Bytes)>)
    requires stream.Valid()
    modifies stream
    ensures stream.Valid()
    ensures r.Done? <==> HeadVerdict(old(stream.Pending()), stream.end, max).Head?
    ensures r.Done? ==>
      && HeadVerdict(old(stream.Pending()), stream.end, max) == Head(r.value.0)
      && r.value.0 + r.value.1 + stream.Pending() == old(stream.Pending())
      && |r.value.0| <= max
    ensures r.Failed? ==> HeadVerdict(old(stream.Pending()), stream.end, max) == Rejected(r.fault)
  {
    ghost var whole := stream.Pending();
    var bytes: Bytes := [];
    while true
      invariant stream.Valid()
      invariant bytes + stream.Pending() == whole
      invariant FindSequence(bytes, TERMINATOR).Nowhere? && |bytes| <= max
      decreases |stream.Pending()|
    {
      var read := stream.Read(SCRATCH);
      if read.Failed? {
        assert bytes == whole;
        return Outcome.Failed(read.fault);
      }
      var piece := read.value;
      if |piece| == 0 {
        assert bytes == whole;
        return Outcome.Failed(if |bytes| == 0 then ClientClosed else ClientIo);
      }
      assert bytes + piece + stream.Pending() == whole by { ConcatAssociates(bytes, piece, stream.Pending()); }
      bytes := bytes + piece;
      assert bytes <= whole;
      var found := FindSequence(bytes, TERMINATOR);
      if found.At? {
        FoundDecides(bytes, stream.Pending(), stream.end, max);
        var end := found.index;
        if end + 4 > max {
          return Outcome.Failed(TooLarge);
        }
        var head, remainder := SplitOff(bytes, end + 4);
        return Done((head, remainder));
      }
      if |bytes| > max {
        MissingInLongPrefix(bytes, whole, stream.end, max);
        return Outcome.Failed(TooLarge);
      }
    }
  }

  lemma FoundAt(stream: Bytes, at: nat)
    requires OccursAt(stream, TERMINATOR, at) && forall i: nat :: i < at ==> !OccursAt(stream, TERMINATOR, i)
    ensures FindSequence(stream, TERMINATOR) == At(at)
  {
  }

  /** A head is accepted exactly when the first terminator ends it within the limit, whatever follows. */
  lemma AcceptedHeads(stream: Bytes, more: Bytes, end: End, max: nat, head: Bytes)
    ensures HeadVerdict(stream, end, max) == Head(head) <==>
      && 4 <= |head| <= max && head <= stream && OccursAt(stream, TERMINATOR, |head| - 4)
      && forall i :: 0 <= i < |head| - 4 ==> !OccursAt(stream, TERMINATOR, i)
    ensures HeadVerdict(stream, end, max).Head? ==> HeadVerdict(stream + more, end, max) == HeadVerdict(stream, end, max)
  {
    var found := FindSequence(stream, TERMINATOR);
    if found.At? {
      FoundDecides(stream, more, end, max);
    }
  }
}
