/** Deciding how a request body is delimited: a two-pass fold and a single-pass latching machine. */
module BodyFraming {
  import opened Bytes
  import opened Http
  import opened Decimals

  const CONTENT_LENGTH_LIMIT := 16_777_216

  predicate IsLengthField(field: HeaderField) { field.name == "content-length" }

  predicate IsCodingField(field: HeaderField) { field.name == "transfer-encoding" }

  predicate HasLength(fields: seq<HeaderField>) { exists i :: 0 <= i < |fields| && IsLengthField(fields[i]) }

  predicate HasCoding(fields: seq<HeaderField>) { exists i :: 0 <= i < |fields| && IsCodingField(fields[i]) }

  // ---------- the reference: classify by presence, then fold the members ----------

  /** Comma-separated members of every field a predicate selects, in order. */
  function LengthMembers(fields: seq<HeaderField>): seq<Bytes> {
    if fields == [] then []
    else
      var last := fields[|fields| - 1];
      LengthMembers(fields[..|fields| - 1]) + (if IsLengthField(last) then Split(last.value, ',') else [])
  }

  function CodingMembers(fields: seq<HeaderField>): seq<Bytes> {
    if fields == [] then []
    else
      var last := fields[|fields| - 1];
      CodingMembers(fields[..|fields| - 1]) + (if IsCodingField(last) then Split(last.value, ',') else [])
  }

  function AcceptContentLength(accepted: Option<nat>, raw: Bytes): Result<Option<nat>> {
    match DecimalValue(TrimOws(raw))
    case None => Err(InvalidContentLength)
    case Some(value) =>
      if value > CONTENT_LENGTH_LIMIT then Err(LimitExceeded(ContentLengthLimit, CONTENT_LENGTH_LIMIT, value))
      else if accepted.Some? && accepted.value != value then Err(ConflictingContentLength)
      else Ok(Some(value))
  }

  function AgreedLength(members: seq<Bytes>): Result<Option<nat>> {
    if members == [] then Ok(None)
    else
      var accepted :- AgreedLength(members[..|members| - 1]);
      AcceptContentLength(accepted, members[|members| - 1])
  }

  predicate IsChunkedCoding(raw: Bytes) { EqualIgnoringCase(TrimOws(raw), "chunked") }

  function Determine(fields: seq<HeaderField>): Result<BodyFraming> {
    if HasLength(fields) && HasCoding(fields) then Err(AmbiguousFraming)
    else if HasCoding(fields) then
      var members := CodingMembers(fields);
      if |members| == 1 && IsChunkedCoding(members[0]) then Ok(Chunked) else Err(InvalidTransferEncoding)
    else if HasLength(fields) then
      var length :- AgreedLength(LengthMembers(fields));
      if length.None? || length.value == 0 then Ok(NoBody) else Ok(ContentLength(length.value))
    else Ok(NoBody)
  }

  /** The two passes as written: presence flags first, then a short-circuiting fold over the members. */
  method DetermineBodyFraming(headers: HeaderBlock) returns (r: Result<BodyFraming>)
    ensures r == Determine(headers.fields)
  {
    var fields := headers.fields;
    var hasLength, hasCoding := HasLength(fields), HasCoding(fields);
    if hasLength && hasCoding { return Err(AmbiguousFraming); }
    if hasCoding {
      var members := CodingMembers(fields);
      for count := 0 to |members|
        invariant count <= 1 && forall i :: 0 <= i < count ==> IsChunkedCoding(members[i])
      {
        if !EqualIgnoringCase(TrimOws(members[count]), "chunked") || count != 0 {
          return Err(InvalidTransferEncoding);
        }
      }
      return if |members| == 1 then Ok(Chunked) else Err(InvalidTransferEncoding);
    }
    if hasLength {
      var members := LengthMembers(fields);
      var accepted: Option<nat> := None;
      for i := 0 to |members|
        invariant AgreedLength(members[..i]) == Ok(accepted)
      {
        assert members[..i + 1][..i] == members[..i];
        var next := AcceptContentLength(accepted, members[i]);
        if next.Err? {
          AgreedLengthFails(members, i + 1);
          return Err(next.error);
        }
        accepted := next.value;
      }
      assert members[..|members|] == members;
      return if accepted.None? || accepted.value == 0 then Ok(NoBody) else Ok(ContentLength(accepted.value));
    }
    return Ok(NoBody);
  }

  lemma {:induction false} AgreedLengthFails(members: seq<Bytes>, i: nat)
    requires i <= |members| && AgreedLength(members[..i]).Err?
    ensures AgreedLength(members) == AgreedLength(members[..i])
    decreases |members|
  {
    if i == |members| {
      assert members[..i] == members;
    } else {
      var shorter := members[..|members| - 1];
      assert shorter[..i] == members[..i];
      AgreedLengthFails(shorter, i);
    }
  }

  // ---------- the single-pass machine ----------

  const SAW_CONTENT_LENGTH: bv8 := 1
  const SAW_TRANSFER_ENCODING: bv8 := 2

  datatype Latch = NoFault | BadContentLength | ConflictingLength | ExcessiveLength | BadTransferEncoding

  /** What a run over some length members, and no coding members, must have left in the machine. */
  ghost predicate LengthsSeen(members: seq<Bytes>, hasAgreed: bool, agreed: nat, fault: Latch, actual: nat) {
    match AgreedLength(members)
    case Ok(None) => fault == NoFault && !hasAgreed
    case Ok(Some(value)) => fault == NoFault && hasAgreed && agreed == value
    case Err(error) =>
      || (fault == BadContentLength && error == InvalidContentLength)
      || (fault == ConflictingLength && error == ConflictingContentLength)
      || (fault == ExcessiveLength && error == LimitExceeded(ContentLengthLimit, CONTENT_LENGTH_LIMIT, actual))
  }

  ghost predicate CodingsSeen(members: seq<Bytes>, count: nat, fault: Latch) {
    && count == |members|
    && (members == [] || (|members| == 1 && IsChunkedCoding(members[0])) <==> fault == NoFault)
    && (fault != NoFault ==> fault == BadTransferEncoding)
  }

  class FramingMachine {
    var presence: bv8
    var agreedLength: nat
    var hasAgreedLength: bool
    var transferMembers: nat
    var fault: Latch
    var faultActual: nat
    ghost var lengths: seq<Bytes>
    ghost var codings: seq<Bytes>

    /** The latched state is the fold's, as long as only one kind of framing field has appeared. */
    ghost predicate Valid()
      reads this
    {
      && (codings == [] ==> LengthsSeen(lengths, hasAgreedLength, agreedLength, fault, faultActual))
      && (lengths == [] ==> CodingsSeen(codings, transferMembers, fault))
    }

    constructor ()
      ensures Valid() && presence == 0 && lengths == [] && codings == []
    {
      presence, agreedLength, hasAgreedLength, transferMembers := 0, 0, false, 0;
      fault, faultActual := NoFault, 0;
      lengths, codings := [], [];
    }

    method RememberFault(fault: Latch, actual: nat)
      modifies this`fault, this`faultActual
      ensures old(this.fault) == NoFault ==> this.fault == fault && faultActual == actual
      ensures old(this.fault) != NoFault ==> this.fault == old(this.fault) && faultActual == old(faultActual)
    {
      if this.fault == NoFault {
        this.fault := fault;
        faultActual := actual;
      }
    }

    method ObserveLength(raw: Bytes)
      requires Valid()
      modifies this`agreedLength, this`hasAgreedLength, this`fault, this`faultActual, this`lengths
      ensures Valid() && lengths == old(lengths) + [raw]
    {
      var decimal := ReadDecimal(TrimOws(raw));
      assert (lengths + [raw])[..|lengths|] == lengths;
      match decimal {
        case Some(value) =>
          if value > CONTENT_LENGTH_LIMIT {
            RememberFault(ExcessiveLength, value);
          } else if hasAgreedLength && agreedLength != value {
            RememberFault(ConflictingLength, 0);
          } else {
            agreedLength := value;
            hasAgreedLength := true;
          }
        case None => RememberFault(BadContentLength, 0);
      }
      lengths := lengths + [raw];
    }

    method ObserveCoding(raw: Bytes)
      requires Valid()
      modifies this`transferMembers, this`fault, this`faultActual, this`codings
      ensures Valid() && codings == old(codings) + [raw]
    {
      transferMembers := transferMembers + 1;
      var coding := TrimOws(raw);
      if transferMembers != 1 || !EqualIgnoringCase(coding, "chunked") {
        RememberFault(BadTransferEncoding, 0);
      }
      codings := codings + [raw];
    }

    method TransitionField(field: HeaderField)
      requires Valid()
      modifies this
      ensures Valid()
      ensures lengths == old(lengths) + (if IsLengthField(field) then Split(field.value, ',') else [])
      ensures codings == old(codings) + (if IsCodingField(field) then Split(field.value, ',') else [])
      ensures presence == old(presence) | (if IsLengthField(field) then SAW_CONTENT_LENGTH
                                           else if IsCodingField(field) then SAW_TRANSFER_ENCODING else 0)
    {
      if field.name == "content-length" {
        presence := presence | SAW_CONTENT_LENGTH;
        var members := Split(field.value, ',');
        for i := 0 to |members|
          invariant Valid() && lengths == old(lengths) + members[..i] && codings == old(codings)
          invariant presence == old(presence) | SAW_CONTENT_LENGTH
        {
          ObserveLength(members[i]);
        }
      } else if field.name == "transfer-encoding" {
        presence := presence | SAW_TRANSFER_ENCODING;
        var members := Split(field.value, ',');
        for i := 0 to |members|
          invariant Valid() && codings == old(codings) + members[..i] && lengths == old(lengths)
          invariant presence == old(presence) | SAW_TRANSFER_ENCODING
        {
          ObserveCoding(members[i]);
        }
      }
    }

    method Finish() returns (r: Result<BodyFraming>)
      requires Valid()
      requires (presence == 3 <==> lengths != [] && codings != []) && (presence == 0 <==> lengths == [] && codings == [])
      requires (presence == 1 <==> lengths != [] && codings == []) && (presence == 2 <==> lengths == [] && codings != [])
      ensures lengths != [] && codings != [] ==> r == Err(AmbiguousFraming)
      ensures lengths == [] && codings == [] ==> r == Ok(NoBody)
      ensures lengths == [] && codings != [] ==>
        r == if |codings| == 1 && IsChunkedCoding(codings[0]) then Ok(Chunked) else Err(InvalidTransferEncoding)
      ensures lengths != [] && codings == [] ==>
        r == match AgreedLength(lengths)
             case Err(error) => Err(error)
             case Ok(agreed) => Ok(if agreed.None? || agreed.value == 0 then NoBody else ContentLength(agreed.value))
    {
      if presence == SAW_CONTENT_LENGTH | SAW_TRANSFER_ENCODING {
        return Err(AmbiguousFraming);
      }
      match fault {
        case BadContentLength => return Err(InvalidContentLength);
        case ConflictingLength => return Err(ConflictingContentLength);
        case ExcessiveLength => return Err(LimitExceeded(ContentLengthLimit, CONTENT_LENGTH_LIMIT, faultActual));
        case BadTransferEncoding => return Err(InvalidTransferEncoding);
        case NoFault =>
      }
      if presence == SAW_TRANSFER_ENCODING {
        return if transferMembers == 1 then Ok(Chunked) else Err(InvalidTransferEncoding);
      }
      if presence == SAW_CONTENT_LENGTH && hasAgreedLength && agreedLength != 0 {
        return Ok(ContentLength(agreedLength));
      }
      return Ok(NoBody);
    }
  }

  lemma MembersPresent(fields: seq<HeaderField>)
    ensures LengthMembers(fields) != [] <==> HasLength(fields)
    ensures CodingMembers(fields) != [] <==> HasCoding(fields)
  {
    if fields != [] {
      var init := fields[..|fields| - 1];
      MembersPresent(init);
      assert forall i :: 0 <= i < |init| ==> init[i] == fields[i];
      assert HasLength(fields) <==> HasLength(init) || IsLengthField(fields[|fields| - 1]);
      assert HasCoding(fields) <==> HasCoding(init) || IsCodingField(fields[|fields| - 1]);
    }
  }

  function Flags(hasLength: bool, hasCoding: bool): bv8 {
    (if hasLength then SAW_CONTENT_LENGTH else 0) | (if hasCoding then SAW_TRANSFER_ENCODING else 0)
  }

  /** Latching the first fault and scanning on gives the fold's answer, errors included. */
  method DetermineByMachine(headers: HeaderBlock) returns (r: Result<BodyFraming>)
    ensures r == Determine(headers.fields)
  {
    var fields := headers.fields;
    var machine := new FramingMachine();
    for i := 0 to |fields|
      invariant machine.Valid()
      invariant machine.lengths == LengthMembers(fields[..i]) && machine.codings == CodingMembers(fields[..i])
      invariant machine.presence == Flags(machine.lengths != [], machine.codings != [])
    {
      assert fields[..i + 1][..i] == fields[..i];
      machine.TransitionField(fields[i]);
    }
    assert fields[..|fields|] == fields;
    MembersPresent(fields);
    r := machine.Finish();
  }

  // ---------- what a framing decision means ----------

  /** Both framing headers together are ambiguous, whatever they say. */
  lemma BothAreAmbiguous(fields: seq<HeaderField>, i: nat, j: nat)
    requires i < |fields| && j < |fields|
    requires fields[i].name == "content-length" && fields[j].name == "transfer-encoding"
    ensures Determine(fields) == Err(AmbiguousFraming)
    ensures forall v, w :: Determine(fields[i := HeaderField("content-length", v)][j := HeaderField("transfer-encoding", w)])
                           == Err(AmbiguousFraming)
  {
    forall v, w
      ensures Determine(fields[i := HeaderField("content-length", v)][j := HeaderField("transfer-encoding", w)])
              == Err(AmbiguousFraming)
    {
      var changed := fields[i := HeaderField("content-length", v)][j := HeaderField("transfer-encoding", w)];
      assert IsLengthField(changed[i]) && IsCodingField(changed[j]);
    }
    assert IsLengthField(fields[i]) && IsCodingField(fields[j]);
  }

  predicate AllRead(members: seq<Bytes>, value: nat) {
    forall i :: 0 <= i < |members| ==> DecimalValue(TrimOws(members[i])) == Some(value)
  }

  lemma {:induction false} AgreedLengthMeaning(members: seq<Bytes>, value: nat)
    ensures AgreedLength(members) == Ok(Some(value)) <==>
            members != [] && value <= CONTENT_LENGTH_LIMIT && AllRead(members, value)
    ensures AgreedLength(members) == Ok(None) <==> members == []
  {
    if members != [] {
      var init := members[..|members| - 1];
      AgreedLengthMeaning(init, value);
      var before := AgreedLength(init);
      if before.Ok? && before.value.Some? { AgreedLengthMeaning(init, before.value.value); }
      assert forall i :: 0 <= i < |init| ==> init[i] == members[i];
      if AllRead(members, value) { assert AllRead(init, value); }
    }
  }

  /** A length is accepted exactly when every member of every length field reads as that number. */
  lemma LengthMeaning(fields: seq<HeaderField>, value: nat)
    ensures Determine(fields) == Ok(ContentLength(value)) <==>
      && !HasCoding(fields) && HasLength(fields)
      && 0 < value <= CONTENT_LENGTH_LIMIT && AllRead(LengthMembers(fields), value)
    ensures Determine(fields) == Ok(Chunked) <==>
      && !HasLength(fields) && |CodingMembers(fields)| == 1 && IsChunkedCoding(CodingMembers(fields)[0])
    ensures Determine(fields) == Ok(NoBody) <==>
      && !HasCoding(fields) && (HasLength(fields) ==> AllRead(LengthMembers(fields), 0))
  {
    MembersPresent(fields);
    AgreedLengthMeaning(LengthMembers(fields), value);
    AgreedLengthMeaning(LengthMembers(fields), 0);
  }
}
