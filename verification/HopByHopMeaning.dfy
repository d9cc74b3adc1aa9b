/** What hop-by-hop removal means, read off the header block alone. */
module HopByHopMeaning {
  import opened Bytes
  import opened HopByHop
  import opened Http
  import opened NameLists

  const HOPS: seq<Bytes> :=
    ["connection", "proxy-connection", "keep-alive", "transfer-encoding", "te", "trailer", "upgrade",
     "proxy-authenticate", "proxy-authorization"]

  predicate IsHop(name: Bytes) { name in HOPS }

  /** A member of a list that is a token once the whitespace around it is gone. */
  predicate IsListed(part: Bytes) { TrimOws(part) != [] && AllToken(TrimOws(part)) }

  /** A `Connection` field all of whose members are tokens. */
  predicate WellListed(field: HeaderField) {
    field.name == "connection" ==> forall part :: part in Split(field.value, ',') ==> IsListed(part)
  }

  /** A `Connection` field among the first `n` lists this name, in some case. */
  ghost predicate Nominated(fields: seq<HeaderField>, n: nat, name: Bytes)
    requires n <= |fields|
  {
    exists i :: 0 <= i < n && ListedBy(fields[i], name)
  }

  ghost predicate ListedBy(field: HeaderField, name: Bytes) {
    field.name == "connection" && exists part :: part in Split(field.value, ',') && LowerAll(TrimOws(part)) == name
  }

  lemma {:induction false} MembersMean(parts: seq<Bytes>, i: nat, name: Bytes)
    requires i <= |parts|
    ensures Members(parts, i).Some? <==> forall k :: i <= k < |parts| ==> IsListed(parts[k])
    ensures Members(parts, i).Some? ==>
      (name in Members(parts, i).value <==> exists k :: i <= k < |parts| && LowerAll(TrimOws(parts[k])) == name)
    decreases |parts| - i
  {
    hide TrimOws;
    hide AllToken;
    if i < |parts| {
      MembersMean(parts, i + 1, name);
      if Members(parts, i).Some? {
        var rest := Members(parts, i + 1).value;
        assert Members(parts, i).value == [LowerAll(TrimOws(parts[i]))] + rest;
      }
    }
  }

  lemma FieldMembersMean(field: HeaderField, name: Bytes)
    requires field.name == "connection"
    ensures FieldMembers(field.value).Some? <==> WellListed(field)
    ensures FieldMembers(field.value).Some? ==> (name in FieldMembers(field.value).value <==> ListedBy(field, name))
  {
    var parts := Split(field.value, ',');
    MembersMean(parts, 0, name);
    hide Split;
    hide IsListed;
    hide TrimOws;
    assert forall part :: part in parts <==> exists k :: 0 <= k < |parts| && parts[k] == part;
  }

  lemma {:induction false} NominationsMean(fields: seq<HeaderField>, n: nat, name: Bytes)
    requires n <= |fields|
    ensures Nominations(fields, n).Ok? <==> forall i :: 0 <= i < n ==> WellListed(fields[i])
    ensures Nominations(fields, n).Ok? ==> (name in Nominations(fields, n).value <==> Nominated(fields, n, name))
    ensures Nominations(fields, n).Err? ==>
      exists i :: 0 <= i < n && !WellListed(fields[i]) && (forall k :: 0 <= k < i ==> WellListed(fields[k]))
        && Nominations(fields, n) == Err(InvalidHeader(i, InvalidConnectionToken))
  {
    hide FieldMembers;
    hide WellListed;
    hide ListedBy;
    if n > 0 {
      NominationsMean(fields, n - 1, name);
      var field := fields[n - 1];
      if field.name == CONNECTION { FieldMembersMean(field, name); } else { OtherField(field, name); }
    }
  }

  lemma OtherField(field: HeaderField, name: Bytes)
    requires field.name != CONNECTION
    ensures WellListed(field) && !ListedBy(field, name)
  {
  }

  // ---------- what removal leaves ----------

  /** The fields that are neither hop-by-hop fields nor listed. */
  ghost function Left(fields: seq<HeaderField>, n: nat): seq<HeaderField>
    requires n <= |fields|
  {
    if n == 0 then []
    else
      Left(fields, n - 1)
      + (if IsHop(fields[n - 1].name) || Nominated(fields, |fields|, fields[n - 1].name) then [] else [fields[n - 1]])
  }

  lemma HopsAreFixed(name: Bytes)
    ensures IsFixed(name) <==> IsHop(name)
  {
  }

  lemma {:induction false} KeptIsLeft(fields: seq<HeaderField>, n: nat)
    requires n <= |fields| && Nominations(fields, |fields|).Ok?
    ensures Kept(fields, Nominations(fields, |fields|).value, n) == Left(fields, n)
  {
    hide Nominations;
    hide IsFixed;
    hide IsHop;
    hide Nominated;
    if n > 0 {
      KeptIsLeft(fields, n - 1);
      HopsAreFixed(fields[n - 1].name);
      NominationsMean(fields, |fields|, fields[n - 1].name);
      assert Left(fields, n - 1) + [] == Left(fields, n - 1);
    }
  }

  /** Removal fails at the first `Connection` field with a member that is no token. Otherwise it leaves, in their order,
      exactly the fields that are not hop-by-hop fields and not listed, and reports in strictly increasing order the names
      that are listed or belong to a hop-by-hop field that is present. */
  lemma RemovalMeans(fields: seq<HeaderField>, r: Result<SanitizedHeaders>)
    requires Sanitized(fields, r)
    ensures r.Ok? <==> forall i :: 0 <= i < |fields| ==> WellListed(fields[i])
    ensures r.Err? ==>
      exists i :: 0 <= i < |fields| && !WellListed(fields[i]) && (forall k :: 0 <= k < i ==> WellListed(fields[k]))
        && r == Err(InvalidHeader(i, InvalidConnectionToken))
    ensures r.Ok? ==>
      && r.value.fields == Left(fields, |fields|) && StrictlyIncreasing(r.value.removedNames)
      && forall name :: name in r.value.removedNames <==>
           Nominated(fields, |fields|, name) || (IsHop(name) && exists i :: 0 <= i < |fields| && fields[i].name == name)
  {
    hide IsFixed;
    hide IsHop;
    hide WellListed;
    hide Nominated;
    hide Left;
    hide Kept;
    hide RemovedSet;
    hide Nominations;
    hide StrictlyIncreasing;
    NominationsMean(fields, |fields|, []);
    if r.Ok? {
      KeptIsLeft(fields, |fields|);
      forall name ensures name in r.value.removedNames <==>
        Nominated(fields, |fields|, name) || (IsHop(name) && exists i :: 0 <= i < |fields| && fields[i].name == name)
      {
        NominationsMean(fields, |fields|, name);
        HopsAreFixed(name);
        Removed(fields, Nominations(fields, |fields|).value, name);
      }
    }
  }

  lemma Removed(fields: seq<HeaderField>, nominated: seq<Bytes>, name: Bytes)
    ensures name in RemovedSet(fields, nominated) <==>
      name in nominated || (IsFixed(name) && exists i :: 0 <= i < |fields| && fields[i].name == name)
  {
    hide IsFixed;
  }
}
