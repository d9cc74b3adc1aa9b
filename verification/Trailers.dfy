/** The trailer section: declared names, the grammar of its lines, and the direct-table parser. */
module Trailers {
  import opened Bytes
  import opened HeaderDecisionTable
  import opened HeaderFacts
  import opened Http
  import H = HeaderSection
  import opened NameLists
  import opened RadixOrder

  const TRAILER_MAX := 8_192
  const TRAILER_FIELD_MAX := 32

  datatype TrailerBlock = TrailerBlock(fields: seq<HeaderField>, bytesConsumed: nat)

  // ---------- declarations ----------

  predicate IsForbidden(name: Bytes) {
    || "x-forwarded-" <= name
    || name == "content-length" || name == "transfer-encoding" || name == "host" || name == "connection"
    || name == "trailer" || name == "upgrade" || name == "forwarded" || name == "authorization"
    || name == "proxy-authorization" || name == "cookie" || name == "set-cookie"
  }

  predicate IsDeclarable(name: Bytes) {
    && 1 <= |name| <= NAME_MAX
    && forall i :: 0 <= i < |name| ==> IsLower(name[i]) || IsDigit(name[i]) || IsTokenPunctuation(name[i])
  }

  function NameFault(name: Bytes): Option<Reason> {
    if !IsDeclarable(name) then Some(InvalidDeclaration) else if IsForbidden(name) then Some(ForbiddenField) else None
  }

  /** The first fault of the names from `i` on, looking at each by itself. */
  function NamesFault(names: seq<Bytes>, i: nat): Option<Reason>
    requires i <= |names|
    decreases |names| - i
  {
    if i == |names| then None
    else if NameFault(names[i]).Some? then NameFault(names[i])
    else NamesFault(names, i + 1)
  }

  /** Why a list of declared names is refused: a bad name anywhere, or else a repeated one. */
  ghost function DeclarationFault(names: seq<Bytes>): Option<Reason> {
    if NamesFault(names, 0).Some? then NamesFault(names, 0)
    else if HasDuplicate(names) then Some(DuplicateDeclaration)
    else None
  }

  lemma {:induction false} FaultlessNames(names: seq<Bytes>, i: nat)
    requires i <= |names| && NamesFault(names, i).None?
    ensures forall k :: i <= k < |names| ==> IsDeclarable(names[k]) && !IsForbidden(names[k])
    decreases |names| - i
  {
    if i < |names| { FaultlessNames(names, i + 1); }
  }

  /** The sorted table of declared names; one look at neighbours finds every repetition. */
  method NewDeclarations(names: seq<Bytes>) returns (table: Result<seq<Bytes>>)
    ensures DeclarationFault(names).Some? ==> table == Err(InvalidTrailer(DeclarationFault(names).value))
    ensures DeclarationFault(names).None? ==>
      && table.Ok? && Sorted(table.value) && multiset(table.value) == multiset(names)
      && forall name :: name in table.value <==> name in names
  {
    for i := 0 to |names|
      invariant NamesFault(names, i) == NamesFault(names, 0)
    {
      if !IsDeclarable(names[i]) { return Err(InvalidTrailer(InvalidDeclaration)); }
      if IsForbidden(names[i]) { return Err(InvalidTrailer(ForbiddenField)); }
    }
    FaultlessNames(names, 0);
    var sorted := Order(names);
    SameElements(sorted, names);
    assert Sorted(sorted) by { SortedFromStart(sorted, NAME_MAX); }
    assert HasDuplicate(sorted) <==> HasDuplicate(names) by {
      DuplicatesCount(sorted);
      DuplicatesCount(names);
    }
    DuplicatesAreAdjacent(sorted);
    if AdjacentEqual(sorted) { return Err(InvalidTrailer(DuplicateDeclaration)); }
    return Ok(sorted);
  }

  // ---------- lines ----------

  /** Where the line that begins at `start` ends; its CRLF must lie within the trailer limit. */
  function TrailerLineEnd(input: Bytes, start: nat): (end: Result<nat>)
    requires start <= |input|
    ensures end.Ok? ==> start <= end.value && end.value + 2 <= TRAILER_MAX && CrlfAt(input, end.value)
  {
    var i := H.LineBreak(input, start);
    if i >= TRAILER_MAX then
      if |input| > TRAILER_MAX then Err(LimitExceeded(TrailerBytes, TRAILER_MAX, TRAILER_MAX + 1)) else Err(Incomplete)
    else if i == |input| then Err(Incomplete)
    else if !CrlfAt(input, i) then Err(InvalidTrailer(BareLineEnding))
    else if i + 2 > TRAILER_MAX then Err(LimitExceeded(TrailerBytes, TRAILER_MAX, i + 2))
    else Ok(i)
  }

  method LocateLineEnd(input: Bytes, start: nat) returns (r: Result<nat>)
    requires start <= |input| && start <= TRAILER_MAX
    ensures r == TrailerLineEnd(input, start)
  {
    var position := start;
    while true
      invariant start <= position <= |input| && position <= TRAILER_MAX
      invariant forall k :: start <= k < position ==> !H.IsBreak(input[k])
      decreases |input| - position
    {
      if position == TRAILER_MAX || position == |input| || H.IsBreak(input[position]) {
        if position < TRAILER_MAX || position == |input| { H.LineBreakIs(input, start, position); }
        H.LineBreakFirst(input, start);
      }
      if position == TRAILER_MAX {
        return if position == |input| then Err(Incomplete)
               else Err(LimitExceeded(TrailerBytes, TRAILER_MAX, TRAILER_MAX + 1));
      }
      if position == |input| { return Err(Incomplete); }
      if input[position] == '\n' { return Err(InvalidTrailer(BareLineEnding)); }
      if input[position] == '\r' {
        if position + 1 >= |input| || input[position + 1] != '\n' { return Err(InvalidTrailer(BareLineEnding)); }
        var afterCrlf := position + 2;
        if afterCrlf > TRAILER_MAX { return Err(LimitExceeded(TrailerBytes, TRAILER_MAX, afterCrlf)); }
        return Ok(position);
      }
      position := position + 1;
    }
  }

  /** A header error, as the trailer parser words it. */
  function AsTrailerError(error: PolyguardError): PolyguardError {
    match error
    case InvalidHeader(_, reason) => InvalidTrailer(reason)
    case LimitExceeded(HeaderNameBytes, _, _) => InvalidTrailer(NameTooLong)
    case LimitExceeded(HeaderValueBytes, _, _) => InvalidTrailer(ValueTooLong)
    case other => other
  }

  /** Trailer lines have the grammar of header lines; only the errors are worded differently. */
  function TrailerFieldOf(line: Bytes): Result<HeaderField> {
    var field := H.FieldOf(line, 0);
    if field.Err? then Err(AsTrailerError(field.error)) else field
  }

  datatype LineVerdict = Field(nameEnd: nat, valueStart: nat, valueEnd: nat) | Invalid(reason: Reason)

  function Verdict(beginsWithOws: bool, facts: LineFacts, start: nat, end: nat): LineVerdict
    requires facts.colon.Some? ==> start <= facts.colon.value
  {
    var valueStart := if facts.firstValueContent.Some? then facts.firstValueContent.value else end;
    var valueEnd := if facts.firstValueContent.Some? then facts.lastValueContent else end;
    if beginsWithOws then Invalid(ObsFold)
    else if facts.colon.None? || facts.colon.value == start then Invalid(InvalidName)
    else if facts.colon.value - start > H.NAME_MAX then Invalid(NameTooLong)
    else if facts.nameHasWhitespace then Invalid(WhitespaceBeforeColon)
    else if facts.nameHasInvalidByte then Invalid(InvalidName)
    else if facts.valueHasInvalidByte then Invalid(InvalidValueByte)
    else if valueEnd - valueStart > H.VALUE_MAX then Invalid(ValueTooLong)
    else Field(facts.colon.value, valueStart, valueEnd)
  }

  ghost predicate VerdictFor(input: Bytes, start: nat, verdict: LineVerdict, field: Result<HeaderField>) {
    match verdict
    case Invalid(reason) => field == Err(InvalidTrailer(reason))
    case Field(nameEnd, valueStart, valueEnd) =>
      field.Ok? && StandsFor(input, FieldLayout(start, nameEnd, valueStart, valueEnd), field.value)
  }

  lemma SameGrammar(line: Bytes, at: nat)
    ensures var header, trailer := H.FieldOf(line, at), TrailerFieldOf(line);
      && (header.Ok? ==> trailer == header)
      && (header.Err? ==> trailer == Err(AsTrailerError(header.error)))
  {
  }

  lemma VerdictFollowsDecision(input: Bytes, start: nat, end: nat, beginsWithOws: bool, facts: LineFacts,
                               header: Result<HeaderField>, trailer: Result<HeaderField>)
    requires facts.colon.Some? ==> start <= facts.colon.value
    requires facts.firstValueContent.Some? ==> facts.firstValueContent.value <= facts.lastValueContent
    requires Decides(input, start, Decide(beginsWithOws, facts, start, end), header)
    requires header.Ok? ==> trailer == header
    requires header.Err? ==> trailer == Err(AsTrailerError(header.error))
    ensures VerdictFor(input, start, Verdict(beginsWithOws, facts, start, end), trailer)
  {
  }

  method SummarizeAndDecide(input: Bytes, start: nat, end: nat) returns (verdict: LineVerdict)
    requires start < end <= |input|
    ensures VerdictFor(input, start, verdict, TrailerFieldOf(input[start..end]))
  {
    var startsWithWhitespace := IsOws(input[start]);
    var facts := LineFacts(None, false, false, false, None, start);
    ghost var colon := start + IndexOf(input[start..end], ':');
    assert FirstColon(input, start, end, colon) by {
      IndexOfFirst(input[start..end], ':');
      assert forall k :: start <= k < end ==> input[k] == input[start..end][k - start];
    }
    for index := start to end
      invariant FactsHold(input, start, colon, index, if facts.colon.Some? then InValue else InName, facts)
    {
      var part := if facts.colon.Some? then InValue else InName;
      ObserveNext(input, start, end, colon, index, part, facts);
      facts := ObserveByte(part, Classify(input[index]), index, facts);
    }
    FactsDecide(input, start, end, colon, if facts.colon.Some? then InValue else InName, facts);
    SameGrammar(input[start..end], start);
    VerdictFollowsDecision(input, start, end, startsWithWhitespace, facts, H.FieldOf(input[start..end], start),
                           TrailerFieldOf(input[start..end]));
    verdict := Verdict(startsWithWhitespace, facts, start, end);
  }

  // ---------- the section ----------

  predicate HasName(fields: seq<HeaderField>, name: Bytes) {
    exists i :: 0 <= i < |fields| && fields[i].name == name
  }

  /** Why a well-formed field may not appear in the trailer. */
  function FieldFault(name: Bytes, declared: seq<Bytes>, fields: seq<HeaderField>): Option<Reason> {
    if IsForbidden(name) then Some(ForbiddenField)
    else if name !in declared then Some(UndeclaredField)
    else if HasName(fields, name) then Some(DuplicateField)
    else None
  }

  function TrailersFrom(input: Bytes, start: nat, fields: seq<HeaderField>, declared: seq<Bytes>): Result<TrailerBlock>
    requires start <= |input|
    decreases |input| - start
  {
    var end := TrailerLineEnd(input, start);
    if end.Err? then Err(end.error)
    else if end.value == start then Ok(TrailerBlock(fields, start + 2))
    else if |fields| == TRAILER_FIELD_MAX then Err(InvalidTrailer(TooManyFields))
    else
      var field := TrailerFieldOf(input[start..end.value]);
      if field.Err? then Err(field.error)
      else if FieldFault(field.value.name, declared, fields).Some? then
        Err(InvalidTrailer(FieldFault(field.value.name, declared, fields).value))
      else TrailersFrom(input, end.value + 2, fields + [field.value], declared)
  }

  ghost function ParseTrailers(input: Bytes, declared: seq<Bytes>): Result<TrailerBlock> {
    if DeclarationFault(declared).Some? then Err(InvalidTrailer(DeclarationFault(declared).value))
    else TrailersFrom(input, 0, [], declared)
  }

  lemma TrailersStep(input: Bytes, start: nat, fields: seq<HeaderField>, declared: seq<Bytes>, end: nat, field: HeaderField)
    requires start <= |input| && TrailerLineEnd(input, start) == Ok(end) && end != start
    requires |fields| < TRAILER_FIELD_MAX && TrailerFieldOf(input[start..end]) == Ok(field)
    requires FieldFault(field.name, declared, fields).None?
    ensures TrailersFrom(input, start, fields, declared) == TrailersFrom(input, end + 2, fields + [field], declared)
  {
    var r := TrailerFieldOf(input[start..end]);
    assert r.Ok? && r.value == field && FieldFault(r.value.name, declared, fields).None?;
  }

  /** One line against the table of declarations. */
  method ParseTrailerLine(input: Bytes, start: nat, end: nat, table: seq<Bytes>, fields: seq<HeaderField>,
                          ghost declared: seq<Bytes>) returns (r: Result<HeaderField>)
    requires start < end <= |input| && forall name :: name in table <==> name in declared
    ensures var field := TrailerFieldOf(input[start..end]);
      if field.Err? then r == Err(field.error)
      else if FieldFault(field.value.name, declared, fields).Some? then
        r == Err(InvalidTrailer(FieldFault(field.value.name, declared, fields).value))
      else r == field
  {
    var verdict := SummarizeAndDecide(input, start, end);
    match verdict
    case Invalid(reason) => return Err(InvalidTrailer(reason));
    case Field(nameEnd, valueStart, valueEnd) =>
      var name := LowerAll(input[start..nameEnd]);
      if IsForbidden(name) { return Err(InvalidTrailer(ForbiddenField)); }
      if name !in table { return Err(InvalidTrailer(UndeclaredField)); }
      if HasName(fields, name) { return Err(InvalidTrailer(DuplicateField)); }
      return Ok(HeaderField(name, input[valueStart..valueEnd]));
  }

  method ParseTrailerLines(input: Bytes, table: seq<Bytes>, ghost declared: seq<Bytes>) returns (r: Result<TrailerBlock>)
    requires forall name :: name in table <==> name in declared
    ensures r == TrailersFrom(input, 0, [], declared)
  {
    var fields: seq<HeaderField> := [];
    var cursor := 0;
    while true
      invariant cursor <= |input| && cursor <= TRAILER_MAX && |fields| <= TRAILER_FIELD_MAX
      invariant TrailersFrom(input, cursor, fields, declared) == TrailersFrom(input, 0, [], declared)
      decreases |input| - cursor
    {
      var lineEnd := LocateLineEnd(input, cursor);
      if lineEnd.Err? { return Err(lineEnd.error); }
      var end := lineEnd.value;
      if end == cursor { return Ok(TrailerBlock(fields, end + 2)); }
      if |fields| == TRAILER_FIELD_MAX { return Err(InvalidTrailer(TooManyFields)); }
      var field := ParseTrailerLine(input, cursor, end, table, fields, declared);
      if field.Err? { return Err(field.error); }
      assert TrailersFrom(input, cursor, fields, declared) == TrailersFrom(input, end + 2, fields + [field.value], declared) by {
        TrailersStep(input, cursor, fields, declared, end, field.value);
      }
      fields := fields + [field.value];
      cursor := end + 2;
    }
  }

  method ParseByDirectTable(input: Bytes, declaredNames: seq<Bytes>) returns (r: Result<TrailerBlock>)
    ensures r == ParseTrailers(input, declaredNames)
  {
    var table := NewDeclarations(declaredNames);
    if table.Err? { return Err(table.error); }
    r := ParseTrailerLines(input, table.value, declaredNames);
  }
}
