/** Hop-by-hop removal: what it means, and the sorted-plan form. */
module HopByHop {
  import opened Bytes
  import opened Http
  import opened NameLists

  const CONNECTION: Bytes := "connection"

  predicate IsFixed(name: Bytes) {
    || name == CONNECTION || name == "proxy-connection" || name == "keep-alive" || name == "transfer-encoding"
    || name == "te" || name == "trailer" || name == "upgrade" || name == "proxy-authenticate"
    || name == "proxy-authorization"
  }

  // ---------- nominations ----------

  /** One list member: a token between optional whitespace, in lower case. */
  function Member(part: Bytes): Option<Bytes> {
    var trimmed := TrimOws(part);
    if trimmed == [] || !AllToken(trimmed) then None else Some(LowerAll(trimmed))
  }

  /** The members from the `i`-th part on; nothing if one of them is not a token. */
  function Members(parts: seq<Bytes>, i: nat): Option<seq<Bytes>>
    requires i <= |parts|
    decreases |parts| - i
  {
    if i == |parts| then Some([])
    else
      var first := Member(parts[i]);
      if first.None? then None
      else
        var rest := Members(parts, i + 1);
        if rest.None? then None else Some([first.value] + rest.value)
  }

  function FieldMembers(value: Bytes): Option<seq<Bytes>> { Members(Split(value, ','), 0) }

  /** The names nominated by the `Connection` fields before the `n`-th, or the first such field that is malformed. */
  function Nominations(fields: seq<HeaderField>, n: nat): Result<seq<Bytes>>
    requires n <= |fields|
  {
    if n == 0 then Ok([])
    else
      var before, field := Nominations(fields, n - 1), fields[n - 1];
      if before.Err? || field.name != CONNECTION then before
      else
        var members := FieldMembers(field.value);
        if members.None? then Err(InvalidHeader(n - 1, InvalidConnectionToken)) else Ok(before.value + members.value)
  }

  lemma {:induction false} NominationsFail(fields: seq<HeaderField>, n: nat, m: nat)
    requires n <= m <= |fields| && Nominations(fields, n).Err?
    ensures Nominations(fields, m) == Nominations(fields, n)
    decreases m - n
  {
    if n < m { NominationsFail(fields, n, m - 1); }
  }

  // ---------- what removal does ----------

  predicate Removable(name: Bytes, nominated: seq<Bytes>) { IsFixed(name) || name in nominated }

  /** The fields that are neither fixed hop-by-hop fields nor nominated, in their order. */
  function Kept(fields: seq<HeaderField>, nominated: seq<Bytes>, n: nat): seq<HeaderField>
    requires n <= |fields|
  {
    if n == 0 then []
    else
      var before := Kept(fields, nominated, n - 1);
      if Removable(fields[n - 1].name, nominated) then before else before + [fields[n - 1]]
  }

  /** The nominated names and the fixed ones that are present. */
  ghost function RemovedSet(fields: seq<HeaderField>, nominated: seq<Bytes>): set<Bytes> {
    (set name | name in nominated) + (set i | 0 <= i < |fields| && IsFixed(fields[i].name) :: fields[i].name)
  }

  /** The result of removal on a header block. */
  ghost predicate Sanitized(fields: seq<HeaderField>, r: Result<SanitizedHeaders>) {
    match Nominations(fields, |fields|)
    case Err(error) => r == Err(error)
    case Ok(nominated) =>
      && r.Ok? && r.value.fields == Kept(fields, nominated, |fields|)
      && Lists(r.value.removedNames, RemovedSet(fields, nominated))
  }

  /** Removal has one result, failing index included. */
  lemma SanitizedUnique(fields: seq<HeaderField>, a: Result<SanitizedHeaders>, b: Result<SanitizedHeaders>)
    requires Sanitized(fields, a) && Sanitized(fields, b)
    ensures a == b
  {
    if a.Ok? {
      ListUnique(a.value.removedNames, b.value.removedNames, RemovedSet(fields, Nominations(fields, |fields|).value));
    }
  }

  lemma {:induction false} KeptMembers(fields: seq<HeaderField>, nominated: seq<Bytes>, n: nat)
    requires n <= |fields|
    ensures forall field :: field in Kept(fields, nominated, n) <==>
      field in fields[..n] && !Removable(field.name, nominated)
  {
    if n > 0 {
      KeptMembers(fields, nominated, n - 1);
      assert fields[..n] == fields[..n - 1] + [fields[n - 1]];
    }
  }

  /** Nothing of the connection survives: no fixed field, no nominated one; everything else does. */
  lemma NothingSurvives(fields: seq<HeaderField>, r: Result<SanitizedHeaders>)
    requires Sanitized(fields, r) && r.Ok?
    ensures Nominations(fields, |fields|).Ok?
    ensures var nominated := Nominations(fields, |fields|).value;
      && (forall field :: field in r.value.fields <==> field in fields && !Removable(field.name, nominated))
      && (forall field :: field in fields && field !in r.value.fields ==> field.name in r.value.removedNames)
      && StrictlyIncreasing(r.value.removedNames)
  {
    var nominated := Nominations(fields, |fields|).value;
    KeptMembers(fields, nominated, |fields|);
    assert fields[..|fields|] == fields;
    forall field | field in fields && field !in r.value.fields ensures field.name in r.value.removedNames {
      var i :| 0 <= i < |fields| && fields[i] == field;
      assert field.name in RemovedSet(fields, nominated);
    }
  }

  /** Removing again from what is left keeps every field. */
  lemma {:induction false} KeptIsStable(fields: seq<HeaderField>, nominated: seq<Bytes>, n: nat)
    requires n <= |fields| && forall i :: 0 <= i < n ==> !Removable(fields[i].name, nominated)
    ensures Kept(fields, nominated, n) == fields[..n]
  {
    if n > 0 {
      KeptIsStable(fields, nominated, n - 1);
      assert fields[..n] == fields[..n - 1] + [fields[n - 1]];
    }
  }

  lemma {:induction false} NoNominations(fields: seq<HeaderField>, n: nat)
    requires n <= |fields| && forall i :: 0 <= i < n ==> fields[i].name != CONNECTION
    ensures Nominations(fields, n) == Ok([])
  {
    if n > 0 { NoNominations(fields, n - 1); }
  }

  /** Sanitised fields pass through removal unchanged, with nothing more to remove. */
  lemma SanitizedAgain(fields: seq<HeaderField>, r: Result<SanitizedHeaders>)
    requires Sanitized(fields, r) && r.Ok?
    ensures Sanitized(r.value.fields, Ok(SanitizedHeaders(r.value.fields, [])))
  {
    NothingSurvives(fields, r);
    var kept := r.value.fields;
    forall i | 0 <= i < |kept| ensures !IsFixed(kept[i].name) && !Removable(kept[i].name, []) {
      assert kept[i] in kept;
    }
    NoNominations(kept, |kept|);
    KeptIsStable(kept, [], |kept|);
    assert kept[..|kept|] == kept;
    assert RemovedSet(kept, []) == {};
  }

  // ---------- the sorted plan ----------

  datatype ConnectionMember = Token(bytes: Bytes) | Empty | Invalid

  function ClassifyMember(raw: Bytes): ConnectionMember {
    var start, end := OwsEnd(raw, 0), OwsStart(raw, 0, |raw|);
    if start >= end then Empty
    else if AllToken(raw[start..end]) then Token(raw[start..end])
    else Invalid
  }

  lemma ClassifyIsMember(raw: Bytes)
    ensures match ClassifyMember(raw)
      case Token(bytes) => Member(raw) == Some(LowerAll(bytes))
      case _ => Member(raw) == None
  {
    var start, end := OwsEnd(raw, 0), OwsStart(raw, 0, |raw|);
    OwsEndAll(raw, 0);
    OwsStartAll(raw, 0, |raw|);
    if start < end { TrimOwsIs(raw, start, end); } else { TrimOwsIs(raw, start, start); }
  }

  method CompileMembers(value: Bytes) returns (names: Option<seq<Bytes>>)
    ensures names == FieldMembers(value)
  {
    var parts := Split(value, ',');
    var done: seq<Bytes> := [];
    assert Members(parts, 0).Some? ==> [] + Members(parts, 0).value == Members(parts, 0).value;
    for i := 0 to |parts|
      invariant Members(parts, 0) == var rest := Members(parts, i); if rest.None? then None else Some(done + rest.value)
    {
      ClassifyIsMember(parts[i]);
      var member := ClassifyMember(parts[i]);
      match member
      case Token(token) =>
        ghost var rest := Members(parts, i + 1);
        if rest.Some? { ConcatAssociates(done, [LowerAll(token)], rest.value); }
        done := done + [LowerAll(token)];
      case Empty => return None;
      case Invalid => return None;
    }
    assert done + [] == done;
    return Some(done);
  }

  method FixedNames(fields: seq<HeaderField>) returns (names: seq<Bytes>)
    ensures forall name :: name in names <==> exists i :: 0 <= i < |fields| && fields[i].name == name && IsFixed(name)
  {
    names := [];
    for n := 0 to |fields|
      invariant forall name :: name in names <==> exists i :: 0 <= i < n && fields[i].name == name && IsFixed(name)
    {
      if IsFixed(fields[n].name) { names := names + [fields[n].name]; }
    }
  }

  method NominatedNames(fields: seq<HeaderField>) returns (names: Result<seq<Bytes>>)
    ensures names == Nominations(fields, |fields|)
  {
    var nominated: seq<Bytes> := [];
    for n := 0 to |fields|
      invariant Nominations(fields, n) == Ok(nominated)
    {
      if fields[n].name == CONNECTION {
        var members := CompileMembers(fields[n].value);
        if members.None? {
          NominationsFail(fields, n + 1, |fields|);
          return Err(InvalidHeader(n, InvalidConnectionToken));
        }
        nominated := nominated + members.value;
      }
    }
    return Ok(nominated);
  }

  /** All names to remove, sorted and without repetitions. */
  method CompilePlan(fields: seq<HeaderField>) returns (plan: Result<seq<Bytes>>)
    ensures Nominations(fields, |fields|).Err? ==> plan == Err(Nominations(fields, |fields|).error)
    ensures Nominations(fields, |fields|).Ok? ==>
      plan.Ok? && Lists(plan.value, RemovedSet(fields, Nominations(fields, |fields|).value))
  {
    var fixedNames := FixedNames(fields);
    var nominated := NominatedNames(fields);
    if nominated.Err? { return Err(nominated.error); }
    var all := fixedNames + nominated.value;
    var sorted := SortNames(all);
    SameElements(sorted, all);
    var unique := Dedup(sorted);
    forall name ensures name in unique <==> name in RemovedSet(fields, nominated.value) {
      assert name in all <==> name in fixedNames || name in nominated.value;
    }
    return Ok(unique);
  }

  /** The fields a plan leaves: those whose name a binary search does not find in it. */
  method Retain(fields: seq<HeaderField>, plan: seq<Bytes>, ghost nominated: seq<Bytes>) returns (kept: seq<HeaderField>)
    requires Lists(plan, RemovedSet(fields, nominated))
    ensures kept == Kept(fields, nominated, |fields|)
  {
    kept := [];
    for n := 0 to |fields|
      invariant kept == Kept(fields, nominated, n)
    {
      var found := BinarySearch(plan, fields[n].name);
      assert found <==> Removable(fields[n].name, nominated) by { PlanFinds(fields, nominated, n); }
      if !found { kept := kept + [fields[n]]; }
    }
  }

  lemma PlanFinds(fields: seq<HeaderField>, nominated: seq<Bytes>, n: nat)
    requires n < |fields|
    ensures fields[n].name in RemovedSet(fields, nominated) <==> Removable(fields[n].name, nominated)
  {
  }

  method RemoveBySortedPlan(fields: seq<HeaderField>) returns (r: Result<SanitizedHeaders>)
    ensures Sanitized(fields, r)
  {
    var plan := CompilePlan(fields);
    if plan.Err? { return Err(plan.error); }
    var kept := Retain(fields, plan.value, Nominations(fields, |fields|).value);
    return Ok(SanitizedHeaders(kept, plan.value));
  }
}
