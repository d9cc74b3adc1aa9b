/** The headers that removal leaves of an accepted section can be printed, but for over-long nominated names. */
module PrintableRequests {
  import opened Bytes
  import opened CanonicalHead
  import opened HeaderPrinting
  import opened HeaderSection
  import opened HopByHop
  import opened Http

  // ---------- nominated names ----------

  /** Every name a `Connection` field may nominate is a lower-case token. */
  predicate LowerToken(name: Bytes) { name != [] && AllToken(name) && NoUpper(name) }

  predicate AllLowerTokens(names: seq<Bytes>) { forall i :: 0 <= i < |names| ==> LowerToken(names[i]) }

  lemma LoweringTokens(s: Bytes)
    requires AllToken(s)
    ensures AllToken(LowerAll(s)) && NoUpper(LowerAll(s))
  {
    var lower := LowerAll(s);
    forall i | 0 <= i < |lower| ensures IsToken(lower[i]) && !IsUpper(lower[i]) { assert IsToken(s[i]); }
  }

  lemma {:induction false} MembersAreTokens(parts: seq<Bytes>, i: nat)
    requires i <= |parts| && Members(parts, i).Some?
    ensures AllLowerTokens(Members(parts, i).value)
    decreases |parts| - i
  {
    if i < |parts| {
      LoweringTokens(TrimOws(parts[i]));
      MembersAreTokens(parts, i + 1);
    }
  }

  lemma {:induction false} NominationsAreTokens(fields: seq<HeaderField>, n: nat)
    requires n <= |fields| && Nominations(fields, n).Ok?
    ensures AllLowerTokens(Nominations(fields, n).value)
  {
    if n > 0 {
      NominationsAreTokens(fields, n - 1);
      if fields[n - 1].name == CONNECTION { MembersAreTokens(Split(fields[n - 1].value, ','), 0); }
    }
  }

  /** No nominated name is longer than a field name may be. */
  predicate ShortNominations(fields: seq<HeaderField>) {
    Nominations(fields, |fields|).Ok? ==>
      forall i :: 0 <= i < |Nominations(fields, |fields|).value| ==> |Nominations(fields, |fields|).value[i]| <= NAME_MAX
  }

  lemma RejectedAreFixed(name: Bytes)
    requires SurvivorOf(name) == Reject
    ensures IsFixed(name)
  {
  }

  lemma KeptArePrintable(fields: seq<HeaderField>, nominated: seq<Bytes>)
    requires AllCanonical(fields) && |fields| <= FIELD_MAX
    ensures var kept := Kept(fields, nominated, |fields|); |kept| <= FIELD_COUNT_MAX && AllPass(kept)
  {
    hide CanonicalField;
    hide SurvivorOf;
    hide IsFixed;
    var kept := Kept(fields, nominated, |fields|);
    KeptMembers(fields, nominated, |fields|);
    KeptLength(fields, nominated, |fields|);
    assert fields[..|fields|] == fields;
    forall i | 0 <= i < |kept| ensures Passes(kept[i]) {
      assert kept[i] in kept;
      if SurvivorOf(kept[i].name) == Reject { RejectedAreFixed(kept[i].name); }
    }
  }

  lemma {:induction false} KeptLength(fields: seq<HeaderField>, nominated: seq<Bytes>, n: nat)
    requires n <= |fields|
    ensures |Kept(fields, nominated, n)| <= n
  {
    hide Removable;
    if n > 0 { KeptLength(fields, nominated, n - 1); }
  }

  /** Where a removed name comes from. */
  lemma RemovedNames(fields: seq<HeaderField>, nominated: seq<Bytes>, name: Bytes)
    requires AllCanonical(fields) && AllLowerTokens(nominated) && name in RemovedSet(fields, nominated)
    ensures LowerToken(name) && (|name| > NAME_MAX ==> name in nominated)
  {
    if name !in nominated {
      var i :| 0 <= i < |fields| && IsFixed(fields[i].name) && fields[i].name == name;
      assert CanonicalField(fields[i]);
    }
  }

  /** The fields that are left can always be printed; the removed names exactly when no nominated name is too long. */
  lemma SanitizedParts(input: Bytes, r: Result<SanitizedHeaders>)
    requires ParseSection(input).Ok? && Sanitized(ParseSection(input).value.fields, r) && r.Ok?
    ensures |r.value.fields| <= FIELD_COUNT_MAX && AllPass(r.value.fields)
    ensures NamesOk(r.value.removedNames) <==> ShortNominations(ParseSection(input).value.fields)
  {
    var fields := ParseSection(input).value.fields;
    AcceptedSection(input);
    hide ParseSection;
    hide CanonicalField;
    hide SurvivorOf;
    hide IsFixed;
    var nominated, removed := Nominations(fields, |fields|).value, r.value.removedNames;
    NominationsAreTokens(fields, |fields|);
    KeptArePrintable(fields, nominated);
    if ShortNominations(fields) {
      forall i | 0 <= i < |removed| ensures CanonicalName(removed[i]) {
        assert removed[i] in RemovedSet(fields, nominated);
        RemovedNames(fields, nominated, removed[i]);
      }
    }
    if NamesOk(removed) {
      forall i | 0 <= i < |nominated| ensures |nominated[i]| <= NAME_MAX {
        assert nominated[i] in removed;
        var k :| 0 <= k < |removed| && removed[k] == nominated[i];
        assert CanonicalName(removed[k]);
      }
    }
  }

  /** Sanitised headers of an accepted section can be printed exactly when no nominated name is too long. */
  lemma SanitizedIsPrintable(input: Bytes, r: Result<SanitizedHeaders>)
    requires ParseSection(input).Ok? && Sanitized(ParseSection(input).value.fields, r) && r.Ok?
    ensures HeadersOk(r.value) <==> ShortNominations(ParseSection(input).value.fields)
  {
    SanitizedParts(input, r);
  }

  // ---------- a name that is too long ----------

  lemma LettersAreMember(n: nat)
    requires n >= 1
    ensures FieldMembers(Letters(n)) == Some([Letters(n)])
  {
    var letters := Letters(n);
    LettersArePlain(n);
    TrimOwsOfTrimmed(letters);
    SplitLast(letters, ',');
    hide TrimOws;
    hide Split;
    hide Letters;
    assert Member(letters) == Some(letters);
    OneMember([letters], letters);
  }

  lemma OneMember(parts: seq<Bytes>, member: Bytes)
    requires |parts| == 1 && Member(parts[0]) == Some(member)
    ensures Members(parts, 0) == Some([member])
  {
    hide Member;
    assert Members(parts, 1) == Some([]);
    assert [member] + Members(parts, 1).value == [member];
  }

  lemma NominatesLetters(field: HeaderField, n: nat)
    requires n >= 1 && field.name == CONNECTION && field.value == Letters(n)
    ensures Nominations([field], 1) == Ok([Letters(n)])
  {
    LettersAreMember(n);
    hide FieldMembers;
    var fields := [field];
    assert Nominations(fields, 0) == Ok([]);
    assert [] + [Letters(n)] == [Letters(n)];
  }

  /** A section with one `Connection` field that nominates one long name. */
  function LongSection(n: nat): Bytes { FieldLine(HeaderField("Connection", Letters(n))) + CRLF }

  lemma LongFieldIsPrintable(n: nat)
    requires 1 <= n <= VALUE_MAX
    ensures Printable(HeaderField("Connection", Letters(n)))
  {
    LettersArePlain(n);
    ConnectionIsToken();
    hide AllToken;
    hide AllFieldValue;
    hide NoEdgeOws;
    hide Letters;
  }

  lemma ConnectionIsToken()
    ensures AllToken("Connection")
  {
  }

  lemma ConnectionLowered(field: HeaderField)
    requires field.name == "Connection"
    ensures Lowered([field]) == [HeaderField(CONNECTION, field.value)]
  {
    assert LowerAll("Connection") == CONNECTION;
  }

  lemma LongSectionParses(n: nat)
    requires 1 <= n <= VALUE_MAX
    ensures ParseSection(LongSection(n)).Ok?
    ensures ParseSection(LongSection(n)).value.fields == [HeaderField(CONNECTION, Letters(n))]
  {
    hide Letters;
    hide Printable;
    hide ParseSection;
    hide Lowered;
    var field := HeaderField("Connection", Letters(n));
    LongFieldIsPrintable(n);
    ConnectionLowered(field);
    RenderOne(field);
    hide RenderFields;
    PrintedFieldsParse([field], []);
    assert LongSection(n) == RenderFields([field]) + CRLF + [];
  }

  /** A section that nominates a name of more than 128 bytes is accepted and sanitised, and then cannot be printed. */
  lemma LongNominationUnprintable(n: nat, r: Result<SanitizedHeaders>)
    requires NAME_MAX < n <= VALUE_MAX
    ensures ParseSection(LongSection(n)).Ok?
    ensures Sanitized(ParseSection(LongSection(n)).value.fields, r) ==> r.Ok? && !HeadersOk(r.value)
  {
    hide ParseSection;
    hide LongSection;
    LongSectionParses(n);
    var fields := ParseSection(LongSection(n)).value.fields;
    NominatesLetters(fields[0], n);
    assert !ShortNominations(fields) by { assert |Nominations(fields, |fields|).value[0]| == n; }
    hide ShortNominations;
    hide HeadersOk;
    if Sanitized(fields, r) { SanitizedIsPrintable(LongSection(n), r); }
  }
}
