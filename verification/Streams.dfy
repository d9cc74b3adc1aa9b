/** A connection that delivers its bytes in arbitrary pieces, and reading an exact number of them. */
module Streams {
  import opened Bytes
  import opened Http

  /** What a read reports once everything delivered has been read. */
  datatype End = Eof | Broken(fault: Fault)

  /** The fault of an exact read that the connection cannot satisfy. */
  function EndFault(end: End): Fault {
    match end
    case Eof => ClientIo
    case Broken(fault) => fault
  }

  function Concat(pieces: seq<Bytes>): Bytes {
    if pieces == [] then [] else pieces[0] + Concat(pieces[1..])
  }

  /** The pieces successive reads will find, and how the connection ends. */
  class Stream {
    var pieces: seq<Bytes>
    const end: End

    predicate Valid()
      reads this
    {
      forall i :: 0 <= i < |pieces| ==> pieces[i] != []
    }

    function Pending(): Bytes
      reads this
    {
      Concat(pieces)
    }

    constructor (pieces: seq<Bytes>, end: End)
      requires forall i :: 0 <= i < |pieces| ==> pieces[i] != []
      ensures Valid() && this.pieces == pieces && this.end == end
    {
      this.pieces := pieces;
      this.end := end;
    }

    /** One read of at most `limit` bytes; no bytes means the end of the stream. */
    method Read(limit: nat) returns (r: Outcome<Bytes>)
      requires Valid() && limit > 0
      modifies this
      ensures Valid()
      ensures old(Pending()) != [] ==>
        r.Done? && 0 < |r.value| <= limit && old(Pending()) == r.value + Pending()
      ensures old(Pending()) == [] ==>
        Pending() == [] && r == (if end.Eof? then Done([]) else Outcome.Failed(end.fault))
    {
      if pieces == [] {
        return if end.Eof? then Done([]) else Outcome.Failed(end.fault);
      }
      var piece, later := pieces[0], pieces[1..];
      if |piece| <= limit {
        pieces := later;
        return Done(piece);
      }
      pieces := [piece[limit..]] + later;
      assert pieces[1..] == later;
      assert piece + Concat(later) == piece[..limit] + (piece[limit..] + Concat(later));
      return Done(piece[..limit]);
    }

    method ReadExact(count: nat) returns (r: Outcome<Bytes>)
      requires Valid()
      modifies this
      ensures Valid()
      ensures count <= |old(Pending())| ==> r == Done(old(Pending())[..count]) && Pending() == old(Pending())[count..]
      ensures count > |old(Pending())| ==> r == Outcome.Failed(EndFault(end))
    {
      var output: Bytes := [];
      ghost var all := Pending();
      while |output| < count
        invariant Valid() && |output| <= count && output + Pending() == all
      {
        ghost var before, pending := output, Pending();
        var piece := this.Read(count - |output|);
        if piece.Failed? { return Outcome.Failed(piece.fault); }
        if piece.value == [] { return Outcome.Failed(ClientIo); }
        output := output + piece.value;
        ConcatAssociates(before, piece.value, Pending());
      }
      return Done(output);
    }
  }
}
