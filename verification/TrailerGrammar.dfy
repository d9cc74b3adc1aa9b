/** The grammar of a trailer section, and what of it is accepted against the names declared before the body. */
module TrailerGrammar {
  import opened Bytes
  import opened HeaderGrammar
  import H = HeaderSection
  import opened Http
  import opened Trailers

  // ---------- declarations ----------

  const UNDECLARABLE: seq<Bytes> :=
    ["content-length", "transfer-encoding", "host", "connection", "trailer", "upgrade", "forwarded", "authorization",
     "proxy-authorization", "cookie", "set-cookie"]

  /** A lower-case field name of at most 128 bytes that neither frames, routes nor authorises. */
  predicate MayBeDeclared(name: Bytes) {
    && 1 <= |name| <= 128 && AllToken(name) && NoUpper(name) && !("x-forwarded-" <= name)
    && name !in UNDECLARABLE
  }

  lemma DeclarableMeans(name: Bytes)
    ensures NameFault(name).None? <==> MayBeDeclared(name)
  {
    NotListed(name);
    TokenWithoutUpper(name);
    hide IsForbidden;
    hide IsDeclarable;
    hide AllToken;
    hide NoUpper;
  }

  lemma NotListed(name: Bytes)
    ensures IsForbidden(name) <==> "x-forwarded-" <= name || name in UNDECLARABLE
  {
  }

  lemma TokenWithoutUpper(name: Bytes)
    ensures IsDeclarable(name) <==> 1 <= |name| <= 128 && AllToken(name) && NoUpper(name)
  {
    if IsDeclarable(name) {
      forall i | 0 <= i < |name| ensures IsToken(name[i]) && !IsUpper(name[i]) {
        assert IsLower(name[i]) || IsDigit(name[i]) || IsTokenPunctuation(name[i]);
      }
    }
    if AllToken(name) && NoUpper(name) {
      forall i | 0 <= i < |name| ensures IsLower(name[i]) || IsDigit(name[i]) || IsTokenPunctuation(name[i]) {
        assert IsToken(name[i]) && !IsUpper(name[i]);
      }
    }
  }

  lemma {:induction false} AllDeclarable(names: seq<Bytes>, i: nat)
    requires i <= |names|
    ensures NamesFault(names, i).None? <==> forall k :: i <= k < |names| ==> MayBeDeclared(names[k])
    decreases |names| - i
  {
    hide NameFault;
    hide MayBeDeclared;
    if i < |names| {
      DeclarableMeans(names[i]);
      AllDeclarable(names, i + 1);
    }
  }

  /** A declaration is accepted exactly when every name may be declared and none twice. */
  lemma DeclarationMeans(names: seq<Bytes>)
    ensures DeclarationFault(names).None? <==>
      && (forall k :: 0 <= k < |names| ==> MayBeDeclared(names[k]))
      && forall j, k :: 0 <= j < k < |names| ==> names[j] != names[k]
  {
    AllDeclarable(names, 0);
    hide NamesFault;
    hide MayBeDeclared;
  }

  // ---------- the lines ----------

  /** Fields that may stand in a trailer section together: declared, and each name once. */
  predicate Fit(fields: seq<HeaderField>, declared: seq<Bytes>) {
    && (forall i :: 0 <= i < |fields| ==> fields[i].name in declared && !IsForbidden(fields[i].name))
    && forall i, j :: 0 <= i < j < |fields| ==> fields[i].name != fields[j].name
  }

  lemma FitStep(done: seq<HeaderField>, field: HeaderField, rest: seq<HeaderField>, declared: seq<Bytes>)
    requires Fit(done + ([field] + rest), declared)
    ensures FieldFault(field.name, declared, done).None? && Fit(done + [field] + rest, declared)
  {
    hide IsForbidden;
    var all := done + ([field] + rest);
    ConcatAssociates(done, [field], rest);
    assert all[|done|] == field;
    forall i | 0 <= i < |done| ensures done[i].name != field.name { assert all[i] == done[i]; }
  }

  /** Written trailer fields are read as what they mean, in order. */
  lemma {:induction false} TrailerLinesRead(input: Bytes, start: nat, lines: seq<Line>, done: seq<HeaderField>,
                                            declared: seq<Bytes>)
    requires AllAllowed(lines) && |done| + |lines| <= TRAILER_FIELD_MAX && Fit(done + Meanings(lines), declared)
    requires StandsAt(input, start, Lines(lines)) && start + |Lines(lines)| <= TRAILER_MAX
    ensures start + |Lines(lines)| <= |input|
    ensures TrailersFrom(input, start, done, declared) ==
            TrailersFrom(input, start + |Lines(lines)|, done + Meanings(lines), declared)
    decreases |lines|
  {
    hide StandsAt;
    hide Text;
    hide Meaning;
    hide Meanings;
    hide Lines;
    hide AllAllowed;
    hide Allowed;
    hide Fit;
    hide FieldFault;
    hide H.FieldOf;
    hide H.LineBreak;
    StandsWithin(input, start, Lines(lines));
    if lines == [] {
      NoLines(lines);
      assert done + [] == done;
    } else {
      LinesCons(lines, []);
      var text, rest, field := Text(lines[0]), Lines(lines[1..]), Meaning(lines[0]);
      var end := start + |text|;
      assert Lines(lines) + [] == Lines(lines) && rest + [] == rest;
      StandsParts(input, start, text + CRLF, rest);
      PlainText(lines[0]);
      LineStands(input, start, text);
      LineReads(lines[0], 0);
      FitStep(done, field, Meanings(lines[1..]), declared);
      TrailersStep(input, start, done, declared, end, field);
      hide TrailersFrom;
      TrailerLinesRead(input, end + 2, lines[1..], done + [field], declared);
      ConcatAssociates(done, [field], Meanings(lines[1..]));
    }
  }

  lemma TrailersEnd(input: Bytes, n: nat, done: seq<HeaderField>, declared: seq<Bytes>)
    requires StandsAt(input, n, CRLF) && n + 2 <= TRAILER_MAX
    ensures n <= |input| && TrailersFrom(input, n, done, declared) == Ok(TrailerBlock(done, n + 2))
  {
    hide H.LineBreak;
    StandsWithin(input, n, CRLF);
    assert [] + CRLF == CRLF;
    LineStands(input, n, []);
  }

  /** Declared fields, each once. */
  predicate EachOnce(fields: seq<HeaderField>, declared: seq<Bytes>) {
    && (forall i :: 0 <= i < |fields| ==> fields[i].name in declared)
    && forall i, j :: 0 <= i < j < |fields| ==> fields[i].name != fields[j].name
  }

  lemma DeclaredFit(fields: seq<HeaderField>, declared: seq<Bytes>)
    requires DeclarationFault(declared).None?
    ensures Fit(fields, declared) <==> EachOnce(fields, declared)
  {
    FaultlessNames(declared, 0);
    hide NamesFault;
    hide IsForbidden;
    hide IsDeclarable;
    forall name | name in declared ensures !IsForbidden(name) {
      var k :| 0 <= k < |declared| && declared[k] == name;
    }
  }

  /** A trailer section of declared fields, each once, is read as what its lines mean. */
  lemma TrailersRead(lines: seq<Line>, rest: Bytes, declared: seq<Bytes>)
    requires DeclarationFault(declared).None? && AllAllowed(lines) && |lines| <= TRAILER_FIELD_MAX
    requires |Lines(lines)| + 2 <= TRAILER_MAX && EachOnce(Meanings(lines), declared)
    ensures ParseTrailers(Lines(lines) + CRLF + rest, declared) == Ok(TrailerBlock(Meanings(lines), |Lines(lines)| + 2))
  {
    hide Lines;
    hide Meanings;
    hide AllAllowed;
    hide StandsAt;
    hide Fit;
    hide EachOnce;
    hide DeclarationFault;
    hide TrailersFrom;
    var n, input := |Lines(lines)|, Lines(lines) + CRLF + rest;
    DeclaredFit(Meanings(lines), declared);
    ConcatAssociates(Lines(lines), CRLF, rest);
    TextFirst(Lines(lines), CRLF + rest);
    assert [] + Meanings(lines) == Meanings(lines);
    TrailerLinesRead(input, 0, lines, [], declared);
    StandsParts(input, n, CRLF, rest);
    TrailersEnd(input, n, Meanings(lines), declared);
  }

  // ---------- and nothing else is accepted ----------

  lemma {:induction false} TrailerLinesFrom(input: Bytes, start: nat, done: seq<HeaderField>, declared: seq<Bytes>)
    returns (lines: seq<Line>)
    requires start <= |input| && TrailersFrom(input, start, done, declared).Ok? && |done| <= TRAILER_FIELD_MAX
    requires Fit(done, declared)
    ensures AllAllowed(lines) && |done| + |lines| <= TRAILER_FIELD_MAX && Fit(done + Meanings(lines), declared)
    ensures var block := TrailersFrom(input, start, done, declared).value;
      && start <= block.bytesConsumed <= |input| && block.bytesConsumed <= TRAILER_MAX
      && input[start..block.bytesConsumed] == Lines(lines) + CRLF && block.fields == done + Meanings(lines)
    decreases |input| - start
  {
    hide Text;
    hide Meaning;
    hide Meanings;
    hide Lines;
    hide AllAllowed;
    hide Allowed;
    hide IsForbidden;
    hide H.FieldOf;
    hide H.LineBreak;
    var end := TrailerLineEnd(input, start).value;
    if end == start {
      lines := [];
      NoLines(lines);
      NothingAllowed(lines);
      assert input[start..start + 2] == CRLF && [] + CRLF == CRLF && done + [] == done;
    } else {
      var field := TrailerFieldOf(input[start..end]).value;
      var line := LineFrom(input[start..end], 0);
      TrailersStep(input, start, done, declared, end, field);
      var rest := TrailerLinesFrom(input, end + 2, done + [field], declared);
      lines := [line] + rest;
      LinesTogether(input, start, end, done, line, rest, TrailersFrom(input, start, done, declared).value.bytesConsumed);
    }
  }

  lemma NothingAllowed(lines: seq<Line>)
    requires lines == []
    ensures AllAllowed(lines)
  {
  }

  /** Every accepted trailer section is lines of declared fields, each once, within the limits. */
  lemma AcceptedTrailers(input: Bytes, declared: seq<Bytes>) returns (lines: seq<Line>)
    requires ParseTrailers(input, declared).Ok?
    ensures DeclarationFault(declared).None? && AllAllowed(lines) && |lines| <= TRAILER_FIELD_MAX
    ensures |Lines(lines)| + 2 <= TRAILER_MAX && EachOnce(Meanings(lines), declared) && Lines(lines) + CRLF <= input
    ensures ParseTrailers(input, declared).value == TrailerBlock(Meanings(lines), |Lines(lines)| + 2)
  {
    hide TrailersFrom;
    hide DeclarationFault;
    hide Meanings;
    hide Lines;
    hide AllAllowed;
    lines := TrailerLinesFrom(input, 0, [], declared);
    assert [] + Meanings(lines) == Meanings(lines);
    DeclaredFit(Meanings(lines), declared);
    assert input[0..|Lines(lines)| + 2] == Lines(lines) + CRLF;
  }
}
