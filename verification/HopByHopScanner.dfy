/** Hop-by-hop removal with a scanner over `Connection` members and a set of names. */
module HopByHopScanner {
  import opened Bytes
  import opened HopByHop
  import opened Http
  import opened NameLists

  datatype HeaderEvent = EndToEnd | FixedHopByHop(name: Bytes) | Connection(index: nat, value: Bytes)

  function ClassifyField(index: nat, field: HeaderField): HeaderEvent {
    if field.name == CONNECTION then Connection(index, field.value)
    else if IsFixed(field.name) then FixedHopByHop(field.name)
    else EndToEnd
  }

  // ---------- the scanner ----------

  datatype ScanPosition = MemberStart(cursor: nat) | Complete | Rejected

  function TokenRun(s: Bytes, i: nat): (j: nat)
    requires i <= |s|
    ensures i <= j <= |s|
    decreases |s| - i
  {
    if i < |s| && IsToken(s[i]) then TokenRun(s, i + 1) else i
  }

  lemma {:induction false} TokenRunAll(s: Bytes, i: nat)
    requires i <= |s|
    ensures forall k :: i <= k < TokenRun(s, i) ==> IsToken(s[k])
    ensures TokenRun(s, i) < |s| ==> !IsToken(s[TokenRun(s, i)])
    decreases |s| - i
  {
    if i < |s| && IsToken(s[i]) { TokenRunAll(s, i + 1); }
  }

  /** The member that begins at `i` ends at `end`; the scan found a token there and stopped at `stop`. */
  ghost predicate Scanned(s: Bytes, i: nat, start: nat, tokenEnd: nat, stop: nat, end: nat) {
    && i <= start <= tokenEnd <= stop <= end <= |s|
    && (end < |s| ==> s[end] == ',') && (forall k :: i <= k < end ==> s[k] != ',')
    && (forall k :: i <= k < start ==> IsOws(s[k])) && (start < |s| ==> !IsOws(s[start]))
    && (forall k :: start <= k < tokenEnd ==> IsToken(s[k])) && (tokenEnd < |s| ==> !IsToken(s[tokenEnd]))
    && (forall k :: tokenEnd <= k < stop ==> IsOws(s[k])) && (stop < |s| ==> !IsOws(s[stop]))
  }

  lemma ScanStaysInMember(s: Bytes, i: nat, end: nat)
    requires i <= end <= |s| && (end < |s| ==> s[end] == ',') && forall k :: i <= k < end ==> s[k] != ','
    ensures var start := OwsEnd(s, i);
      var tokenEnd := TokenRun(s, start);
      Scanned(s, i, start, tokenEnd, OwsEnd(s, tokenEnd), end)
  {
    var start := OwsEnd(s, i);
    var tokenEnd := TokenRun(s, start);
    OwsEndAll(s, i);
    TokenRunAll(s, start);
    OwsEndAll(s, tokenEnd);
  }

  lemma ScanReachedEnd(s: Bytes, i: nat, start: nat, tokenEnd: nat, end: nat)
    requires Scanned(s, i, start, tokenEnd, end, end)
    ensures Member(s[i..end]) == if start < tokenEnd then Some(LowerAll(s[start..tokenEnd])) else None
  {
    var part, token := s[i..end], s[start..tokenEnd];
    assert TrimOws(part) == token by {
      assert forall k :: i <= k < end ==> part[k - i] == s[k];
      var j := if start < tokenEnd then tokenEnd - i else start - i;
      TrimOwsIs(part, start - i, j);
      assert part[start - i..j] == token;
    }
    assert AllToken(token);
  }

  lemma ScanStoppedShort(s: Bytes, i: nat, start: nat, tokenEnd: nat, stop: nat, end: nat)
    requires Scanned(s, i, start, tokenEnd, stop, end) && stop < end
    ensures Member(s[i..end]) == None
  {
    var part := s[i..end];
    var bad := tokenEnd - i;
    assert part[bad] == s[tokenEnd] && part[stop - i] == s[stop] && part[start - i] == s[start];
    var a, b := TrimOwsResult(part);
    assert a <= start - i && stop - i < b;
    assert part[a..b][bad - a] == part[bad];
  }

  /** A member is accepted exactly when the scan finds a token and then reaches the end of the member. */
  lemma ScanDecides(s: Bytes, i: nat, start: nat, tokenEnd: nat, stop: nat, end: nat)
    requires Scanned(s, i, start, tokenEnd, stop, end)
    ensures Member(s[i..end]) ==
            if start < tokenEnd && stop == end then Some(LowerAll(s[start..tokenEnd])) else None
  {
    if stop == end {
      ScanReachedEnd(s, i, start, tokenEnd, end);
    } else {
      ScanStoppedShort(s, i, start, tokenEnd, stop, end);
    }
  }

  /** Where the member that begins at `i` ends, and the parts after it. */
  lemma NextComma(value: Bytes, i: nat) returns (end: nat)
    requires i <= |value|
    ensures i <= end <= |value| && (end < |value| ==> value[end] == ',') && forall k :: i <= k < end ==> value[k] != ','
    ensures var parts := Split(value[i..], ',');
      && parts[0] == value[i..end]
      && (end == |value| ==> parts[1..] == []) && (end < |value| ==> parts[1..] == Split(value[end + 1..], ','))
  {
    end := IndexFrom(value, ',', i);
    IndexFromFirst(value, ',', i);
    PartAt(value, i, end);
  }

  /** What the scan of one member tells about it. */
  lemma ScanOutcome(value: Bytes, i: nat, end: nat)
    requires i <= end <= |value| && (end < |value| ==> value[end] == ',') && forall k :: i <= k < end ==> value[k] != ','
    ensures var start := OwsEnd(value, i);
      var tokenEnd := TokenRun(value, start);
      var stop := OwsEnd(value, tokenEnd);
      && stop <= end && (stop < |value| && value[stop] == ',' ==> stop == end)
      && Member(value[i..end]) == if start < tokenEnd && stop == end then Some(LowerAll(value[start..tokenEnd])) else None
  {
    ScanStaysInMember(value, i, end);
    var start := OwsEnd(value, i);
    var tokenEnd := TokenRun(value, start);
    ScanDecides(value, i, start, tokenEnd, OwsEnd(value, tokenEnd), end);
  }

  class ConnectionMembers {
    const value: Bytes
    var position: ScanPosition

    constructor (value: Bytes)
      ensures this.value == value && position == MemberStart(0)
    {
      this.value := value;
      position := MemberStart(0);
    }

    ghost predicate Valid()
      reads this
    {
      position.MemberStart? ==> position.cursor <= |value|
    }

    /** The parts still to come. */
    ghost function Rest(): seq<Bytes>
      requires Valid()
      reads this
    {
      if position.MemberStart? then Split(value[position.cursor..], ',') else []
    }

    /** One member at a time; the first bad one ends the scan. */
    method Next() returns (member: Option<Option<Bytes>>)
      requires Valid()
      modifies this
      ensures Valid()
      ensures old(Rest()) == [] ==> member == None && Rest() == []
      ensures old(Rest()) != [] && Member(old(Rest())[0]).None? ==> member == Some(None)
      ensures old(Rest()) != [] && Member(old(Rest())[0]).Some? ==>
        member.Some? && member.value.Some? && Some(LowerAll(member.value.value)) == Member(old(Rest())[0])
        && Rest() == old(Rest())[1..]
    {
      if !position.MemberStart? { return None; }
      var i := position.cursor;
      ghost var end := NextComma(value, i);
      var tokenStart := OwsEnd(value, i);
      var tokenEnd := TokenRun(value, tokenStart);
      var cursor := OwsEnd(value, tokenEnd);
      ScanOutcome(value, i, end);
      if tokenStart == tokenEnd {
        position := Rejected;
        return Some(None);
      }
      if cursor == |value| {
        position := Complete;
      } else if value[cursor] == ',' {
        position := MemberStart(cursor + 1);
      } else {
        position := Rejected;
        return Some(None);
      }
      return Some(Some(value[tokenStart..tokenEnd]));
    }
  }

  lemma PartAt(value: Bytes, i: nat, end: nat)
    requires i <= end <= |value| && (end < |value| ==> value[end] == ',') && forall k :: i <= k < end ==> value[k] != ','
    ensures var parts := Split(value[i..], ',');
      && parts[0] == value[i..end]
      && (end == |value| ==> parts[1..] == []) && (end < |value| ==> parts[1..] == Split(value[end + 1..], ','))
  {
    var rest := value[i..];
    if end == |value| {
      SplitLast(rest, ',');
      assert value[i..end] == rest;
    } else {
      SplitStep(rest, ',', end - i);
      assert rest[..end - i] == value[i..end] && rest[end - i + 1..] == value[end + 1..];
    }
  }

  // ---------- the ledger ----------

  /** The members still to come, with those already entered. */
  lemma {:induction false} MembersFrom(parts: seq<Bytes>, rest: seq<Bytes>, i: nat, j: nat)
    requires i <= |parts| && j <= |rest| && parts[i..] == rest[j..]
    ensures Members(parts, i) == Members(rest, j)
    decreases |parts| - i
  {
    assert |parts| - i == |parts[i..]| && |rest| - j == |rest[j..]|;
    if i < |parts| {
      assert parts[i] == parts[i..][0] && rest[j] == rest[j..][0];
      assert parts[i + 1..] == parts[i..][1..] && rest[j + 1..] == rest[j..][1..];
      MembersFrom(parts, rest, i + 1, j + 1);
    }
  }

  class RemovalLedger {
    var names: set<Bytes>

    constructor ()
      ensures names == {}
    {
      names := {};
    }

    /** Enters the names an event removes; a malformed `Connection` field is an error. */
    method Apply(event: HeaderEvent) returns (fault: Option<PolyguardError>)
      modifies this
      ensures event.EndToEnd? ==> fault == None && names == old(names)
      ensures event.FixedHopByHop? ==> fault == None && names == old(names) + {event.name}
      ensures event.Connection? && FieldMembers(event.value).None? ==>
        fault == Some(InvalidHeader(event.index, InvalidConnectionToken))
      ensures event.Connection? && FieldMembers(event.value).Some? ==>
        fault == None && forall name :: name in names <==>
          name in old(names) || name == CONNECTION || name in FieldMembers(event.value).value
    {
      match event
      case EndToEnd => return None;
      case FixedHopByHop(name) =>
        names := names + {name};
        return None;
      case Connection(index, value) =>
        names := names + {CONNECTION};
        ghost var before := names;
        var members := new ConnectionMembers(value);
        assert value[0..] == value;
        ghost var done: seq<Bytes> := [];
        assert FieldMembers(value).Some? ==> [] + FieldMembers(value).value == FieldMembers(value).value;
        while true
          invariant members.Valid() && fresh(members)
          invariant forall name :: name in names <==> name in before || name in done
          invariant FieldMembers(value) == var rest := Members(members.Rest(), 0); if rest.None? then None else Some(done + rest.value)
          decreases |members.Rest()|
        {
          ghost var rest := members.Rest();
          var member := members.Next();
          if member.None? {
            assert done + [] == done;
            return None;
          }
          if member.value.None? { return Some(InvalidHeader(index, InvalidConnectionToken)); }
          var name := LowerAll(member.value.value);
          MembersFrom(rest, members.Rest(), 1, 0);
          ghost var after := Members(rest, 1);
          if after.Some? { ConcatAssociates(done, [name], after.value); }
          names := names + {name};
          done := done + [name];
        }
    }
  }

  /** The ledger after the first `n` fields. */
  ghost predicate Entered(ledger: RemovalLedger, fields: seq<HeaderField>, n: nat, nominated: seq<Bytes>)
    requires n <= |fields|
    reads ledger
  {
    forall name :: name in ledger.names <==> name in nominated || exists i :: 0 <= i < n && fields[i].name == name && IsFixed(name)
  }

  method EnterField(ledger: RemovalLedger, fields: seq<HeaderField>, n: nat, ghost nominated: seq<Bytes>)
    returns (fault: Option<PolyguardError>)
    requires n < |fields| && Nominations(fields, n) == Ok(nominated) && Entered(ledger, fields, n, nominated)
    modifies ledger
    ensures
      match Nominations(fields, n + 1)
      case Err(error) => fault == Some(error)
      case Ok(more) => fault == None && Entered(ledger, fields, n + 1, more)
  {
    fault := ledger.Apply(ClassifyField(n, fields[n]));
  }

  method RemoveByLedger(fields: seq<HeaderField>) returns (r: Result<SanitizedHeaders>)
    ensures Sanitized(fields, r)
  {
    hide FieldMembers;
    hide IsFixed;
    var ledger := new RemovalLedger();
    ghost var nominated: seq<Bytes> := [];
    for n := 0 to |fields|
      invariant fresh(ledger) && Nominations(fields, n) == Ok(nominated) && Entered(ledger, fields, n, nominated)
    {
      var fault := EnterField(ledger, fields, n, nominated);
      if fault.Some? {
        NominationsFail(fields, n + 1, |fields|);
        return Err(fault.value);
      }
      nominated := Nominations(fields, n + 1).value;
    }
    var kept: seq<HeaderField> := [];
    for n := 0 to |fields|
      invariant kept == Kept(fields, nominated, n)
    {
      if fields[n].name !in ledger.names { kept := kept + [fields[n]]; }
    }
    var names := InOrder(ledger.names);
    assert ledger.names == RemovedSet(fields, nominated);
    return Ok(SanitizedHeaders(kept, names));
  }
}
