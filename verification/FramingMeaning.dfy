/** What the decided body framing means, read off the header block alone. */
module FramingMeaning {
  import opened BodyFraming
  import opened ByteClasses
  import opened Bytes
  import opened Decimals
  import opened Http

  ghost predicate Present(fields: seq<HeaderField>, name: Bytes) { exists i :: 0 <= i < |fields| && fields[i].name == name }

  /** A comma-separated member of a field with this name. */
  ghost predicate Listed(fields: seq<HeaderField>, name: Bytes, part: Bytes) {
    exists i :: 0 <= i < |fields| && fields[i].name == name && part in Split(fields[i].value, ',')
  }

  /** The member says this number, in plain digits. */
  predicate Says(part: Bytes, value: nat) { TrimOws(part) != [] && SpellsNumber(TrimOws(part), value) }

  /** There is one transfer coding and it is `chunked`. */
  ghost predicate OnlyChunked(fields: seq<HeaderField>) {
    exists i :: 0 <= i < |fields| && OneCoding(fields, i)
  }

  ghost predicate OneCoding(fields: seq<HeaderField>, i: nat)
    requires i < |fields|
  {
    && fields[i].name == "transfer-encoding" && ',' !in fields[i].value && LowerAll(TrimOws(fields[i].value)) == "chunked"
    && forall k :: 0 <= k < |fields| && k != i ==> fields[k].name != "transfer-encoding"
  }

  lemma {:induction false} LengthsListed(fields: seq<HeaderField>, part: Bytes)
    ensures part in LengthMembers(fields) <==> Listed(fields, "content-length", part)
  {
    hide Split;
    if fields != [] {
      var init, last := fields[..|fields| - 1], fields[|fields| - 1];
      LengthsListed(init, part);
      assert Listed(fields, "content-length", part) <==>
        Listed(init, "content-length", part) || (last.name == "content-length" && part in Split(last.value, ',')) by {
        assert forall i :: 0 <= i < |init| ==> fields[i] == init[i];
      }
    }
  }

  lemma ReadsIsSays(part: Bytes, value: nat)
    requires value < U64
    ensures DecimalValue(TrimOws(part)) == Some(value) <==> Says(part, value)
  {
    hide TrimOws;
    NumberSpelled(TrimOws(part), value);
  }

  lemma AllReadIsSays(fields: seq<HeaderField>, value: nat)
    requires value < U64
    ensures AllRead(LengthMembers(fields), value) <==> forall part :: Listed(fields, "content-length", part) ==> Says(part, value)
  {
    hide TrimOws;
    hide DecimalValue;
    hide Listed;
    hide Says;
    var members := LengthMembers(fields);
    hide LengthMembers;
    forall part ensures part in members <==> Listed(fields, "content-length", part) { LengthsListed(fields, part); }
    forall part ensures DecimalValue(TrimOws(part)) == Some(value) <==> Says(part, value) { ReadsIsSays(part, value); }
    if AllRead(members, value) {
      forall part | Listed(fields, "content-length", part) ensures Says(part, value) {
        var k :| 0 <= k < |members| && members[k] == part;
      }
    }
    if forall part :: Listed(fields, "content-length", part) ==> Says(part, value) {
      forall k | 0 <= k < |members| ensures DecimalValue(TrimOws(members[k])) == Some(value) { assert members[k] in members; }
    }
  }

  // ---------- the coding ----------

  lemma {:induction false} NoCoding(fields: seq<HeaderField>)
    requires forall k :: 0 <= k < |fields| ==> fields[k].name != "transfer-encoding"
    ensures CodingMembers(fields) == []
  {
    if fields != [] { NoCoding(fields[..|fields| - 1]); }
  }

  lemma {:induction false} OneMember(fields: seq<HeaderField>, i: nat)
    requires i < |fields| && OneCoding(fields, i)
    ensures CodingMembers(fields) == [fields[i].value]
  {
    hide TrimOws;
    var init, last := fields[..|fields| - 1], fields[|fields| - 1];
    if i == |fields| - 1 {
      NoCoding(init);
      SplitLast(last.value, ',');
    } else {
      OneMember(init, i);
    }
  }

  lemma {:induction false} OnlyMember(fields: seq<HeaderField>) returns (i: nat)
    requires |CodingMembers(fields)| == 1 && IsChunkedCoding(CodingMembers(fields)[0])
    ensures i < |fields| && OneCoding(fields, i)
  {
    hide TrimOws;
    var init, last := fields[..|fields| - 1], fields[|fields| - 1];
    if IsCodingField(last) {
      i := |fields| - 1;
      CodingsPresent(init);
      OnePart(last.value, ',');
      assert LowerAll("chunked") == "chunked";
    } else {
      i := OnlyMember(init);
    }
  }

  lemma CodingsPresent(fields: seq<HeaderField>)
    ensures CodingMembers(fields) == [] ==> forall k :: 0 <= k < |fields| ==> fields[k].name != "transfer-encoding"
  {
    MembersPresent(fields);
  }

  lemma OnePart(s: Bytes, c: Byte)
    requires |Split(s, c)| == 1
    ensures c !in s && Split(s, c) == [s]
  {
    var i := IndexOf(s, c);
    IndexOfFirst(s, c);
  }

  lemma CodingMeans(fields: seq<HeaderField>)
    ensures |CodingMembers(fields)| == 1 && IsChunkedCoding(CodingMembers(fields)[0]) <==> OnlyChunked(fields)
  {
    if |CodingMembers(fields)| == 1 && IsChunkedCoding(CodingMembers(fields)[0]) {
      var i := OnlyMember(fields);
    }
    if OnlyChunked(fields) {
      var i :| 0 <= i < |fields| && OneCoding(fields, i);
      OneMember(fields, i);
      ChunkedIsLower();
    }
  }

  lemma ChunkedIsLower()
    ensures LowerAll("chunked") == "chunked"
  {
  }

  lemma PresentMeans(fields: seq<HeaderField>)
    ensures HasLength(fields) <==> Present(fields, "content-length")
    ensures HasCoding(fields) <==> Present(fields, "transfer-encoding")
  {
  }

  /** A length is decided exactly when all members of all length fields say it, in digits and within the limit, and there
      is no transfer coding; chunked exactly for a single `chunked`; no body exactly without coding and with all lengths
      zero; and both kinds of field together are ambiguous. */
  lemma FramingMeans(fields: seq<HeaderField>, value: nat)
    ensures Determine(fields) == Ok(ContentLength(value)) <==>
      && Present(fields, "content-length") && !Present(fields, "transfer-encoding") && 0 < value <= 16_777_216
      && forall part :: Listed(fields, "content-length", part) ==> Says(part, value)
    ensures Determine(fields) == Ok(Chunked) <==> !Present(fields, "content-length") && OnlyChunked(fields)
    ensures Determine(fields) == Ok(NoBody) <==>
      && !Present(fields, "transfer-encoding") && forall part :: Listed(fields, "content-length", part) ==> Says(part, 0)
    ensures Determine(fields) == Err(AmbiguousFraming) <==>
      Present(fields, "content-length") && Present(fields, "transfer-encoding")
    ensures Determine(fields) == Err(InvalidTransferEncoding) <==>
      !Present(fields, "content-length") && Present(fields, "transfer-encoding") && !OnlyChunked(fields)
  {
    LengthMeaning(fields, value);
    PresentMeans(fields);
    CodingMeans(fields);
    AllReadIsSays(fields, 0);
    if value < U64 { AllReadIsSays(fields, value); }
    NoLengthErrors(fields);
    hide Determine;
    hide AllRead;
    hide Says;
    hide OnlyChunked;
    if !Present(fields, "content-length") { NothingListed(fields); }
  }

  lemma NothingListed(fields: seq<HeaderField>)
    requires !Present(fields, "content-length")
    ensures forall part :: !Listed(fields, "content-length", part)
  {
  }

  lemma NoLengthErrors(fields: seq<HeaderField>)
    ensures Determine(fields) == Err(AmbiguousFraming) <==> HasLength(fields) && HasCoding(fields)
    ensures Determine(fields) == Err(InvalidTransferEncoding) <==>
      !HasLength(fields) && HasCoding(fields) && !(|CodingMembers(fields)| == 1 && IsChunkedCoding(CodingMembers(fields)[0]))
  {
    hide IsChunkedCoding;
    hide HasLength;
    hide HasCoding;
    LengthErrors(LengthMembers(fields));
  }

  /** A length is refused at the first member that is no number, too large, or not the number before it. */
  lemma {:induction false} LengthErrors(members: seq<Bytes>)
    ensures AgreedLength(members).Err? ==>
      exists j :: 0 <= j < |members| && AgreedLength(members[..j]).Ok? && FirstBad(members, j, AgreedLength(members).error)
    ensures AgreedLength(members).Err? ==>
      AgreedLength(members).error != AmbiguousFraming && AgreedLength(members).error != InvalidTransferEncoding
  {
    hide TrimOws;
    hide DecimalValue;
    if members != [] {
      var n := |members| - 1;
      LengthErrors(members[..n]);
      if AgreedLength(members[..n]).Err? {
        var j :| 0 <= j < n && AgreedLength(members[..n][..j]).Ok? && FirstBad(members[..n], j, AgreedLength(members[..n]).error);
        assert members[..n][..j] == members[..j];
        assert FirstBad(members, j, AgreedLength(members).error);
      } else if AgreedLength(members).Err? {
        var before := AgreedLength(members[..n]).value;
        if before.Some? { AgreedLengthMeaning(members[..n], before.value); }
        assert FirstBad(members, n, AgreedLength(members).error);
      }
    }
  }

  ghost predicate FirstBad(members: seq<Bytes>, j: nat, error: PolyguardError)
    requires j < |members|
  {
    match error
    case InvalidContentLength => DecimalValue(TrimOws(members[j])).None?
    case LimitExceeded(ContentLengthLimit, max, actual) =>
      max == 16_777_216 < actual && DecimalValue(TrimOws(members[j])) == Some(actual)
    case ConflictingContentLength =>
      && j > 0 && DecimalValue(TrimOws(members[j])).Some?
      && DecimalValue(TrimOws(members[j])) != DecimalValue(TrimOws(members[0]))
    case _ => false
  }
}
