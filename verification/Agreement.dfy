/** Running several registered implementations of one function and demanding equal results. */
module Agreement {
  import opened Http

  /** A registered implementation: the specified functions it provides, by name. */
  datatype Implementation = Implementation(id: string, functions: set<string>)

  datatype Verdict<+T> =
    | Value(value: T)
    | Protocol(error: PolyguardError)
    | Disagreement
    | Internal

  predicate UniqueIds(registry: seq<Implementation>) {
    forall i, j :: 0 <= i < j < |registry| ==> registry[i].id != registry[j].id
  }

  function Ids(entries: seq<Implementation>): (ids: seq<string>)
    ensures |ids| == |entries|
  {
    if entries == [] then [] else [entries[0].id] + Ids(entries[1..])
  }

  lemma {:induction false} IdsConcat(a: seq<Implementation>, b: seq<Implementation>)
    ensures Ids(a + b) == Ids(a) + Ids(b)
  {
    if a == [] {
      assert a + b == b;
    } else {
      assert (a + b)[1..] == a[1..] + b;
      IdsConcat(a[1..], b);
    }
  }

  // ---------- which implementations take part, and in which order ----------

  predicate Usable(entry: Implementation, function_: string, quarantined: set<string>) {
    function_ in entry.functions && entry.id !in quarantined
  }

  function UsableOf(entries: seq<Implementation>, function_: string, quarantined: set<string>): seq<Implementation> {
    if entries == [] then []
    else
      var rest := UsableOf(entries[1..], function_, quarantined);
      if Usable(entries[0], function_, quarantined) then [entries[0]] + rest else rest
  }

  function Named(registry: seq<Implementation>, id: string): seq<Implementation> {
    if registry == [] then []
    else if registry[0].id == id then [registry[0]]
    else Named(registry[1..], id)
  }

  function Others(registry: seq<Implementation>, primary: Option<string>): seq<Implementation> {
    if registry == [] then []
    else
      var rest := Others(registry[1..], primary);
      if primary != Some(registry[0].id) then [registry[0]] + rest else rest
  }

  /** The primary first, when it is registered, and then everyone else in registry order. */
  function Candidates(registry: seq<Implementation>, primary: Option<string>): seq<Implementation> {
    (if primary.Some? then Named(registry, primary.value) else []) + Others(registry, primary)
  }

  function Take(entries: seq<Implementation>, n: nat): seq<Implementation> {
    if |entries| <= n then entries else entries[..n]
  }

  function Selection(registry: seq<Implementation>, primary: Option<string>, function_: string,
                     quarantined: set<string>, width: nat): seq<Implementation> {
    Take(UsableOf(Candidates(registry, primary), function_, quarantined), width)
  }

  lemma {:induction false} UsableOfConcat(a: seq<Implementation>, b: seq<Implementation>, function_: string, quarantined: set<string>)
    ensures UsableOf(a + b, function_, quarantined) == UsableOf(a, function_, quarantined) + UsableOf(b, function_, quarantined)
  {
    if a == [] {
      assert a + b == b;
    } else {
      assert (a + b)[1..] == a[1..] + b;
      UsableOfConcat(a[1..], b, function_, quarantined);
    }
  }

  lemma {:induction false} UsableOfMembers(entries: seq<Implementation>, function_: string, quarantined: set<string>)
    ensures forall e :: e in UsableOf(entries, function_, quarantined) <==> e in entries && Usable(e, function_, quarantined)
  {
    if entries != [] {
      UsableOfMembers(entries[1..], function_, quarantined);
    }
  }

  lemma {:induction false} OthersMembers(registry: seq<Implementation>, primary: Option<string>)
    ensures forall e :: e in Others(registry, primary) <==> e in registry && primary != Some(e.id)
  {
    if registry != [] {
      OthersMembers(registry[1..], primary);
    }
  }

  lemma {:induction false} NamedMembers(registry: seq<Implementation>, id: string)
    ensures |Named(registry, id)| <= 1
    ensures forall e :: e in Named(registry, id) ==> e in registry && e.id == id
  {
    if registry != [] && registry[0].id != id {
      NamedMembers(registry[1..], id);
    }
  }

  lemma {:induction false} OthersUnique(registry: seq<Implementation>, primary: Option<string>)
    requires UniqueIds(registry)
    ensures UniqueIds(Others(registry, primary))
  {
    if registry != [] {
      OthersUnique(registry[1..], primary);
      OthersMembers(registry[1..], primary);
    }
  }

  lemma {:induction false} UsableUnique(entries: seq<Implementation>, function_: string, quarantined: set<string>)
    requires UniqueIds(entries)
    ensures UniqueIds(UsableOf(entries, function_, quarantined))
  {
    if entries != [] {
      var rest := entries[1..];
      UsableUnique(rest, function_, quarantined);
      UsableOfMembers(rest, function_, quarantined);
      forall e | e in UsableOf(rest, function_, quarantined) ensures e.id != entries[0].id {
        var k :| 0 <= k < |rest| && rest[k] == e;
        assert entries[k + 1] == e;
      }
    }
  }

  lemma CandidatesUnique(registry: seq<Implementation>, primary: Option<string>)
    requires UniqueIds(registry)
    ensures UniqueIds(Candidates(registry, primary))
  {
    OthersUnique(registry, primary);
    OthersMembers(registry, primary);
    if primary.Some? { NamedMembers(registry, primary.value); }
  }

  // ---------- the primary only changes the order ----------

  lemma {:induction false} OthersOfAbsent(registry: seq<Implementation>, id: string)
    requires forall i :: 0 <= i < |registry| ==> registry[i].id != id
    ensures Others(registry, Some(id)) == registry && Named(registry, id) == []
  {
    if registry != [] {
      OthersOfAbsent(registry[1..], id);
    }
  }

  lemma {:induction false} OthersOfNone(registry: seq<Implementation>)
    ensures Others(registry, None) == registry
  {
    if registry != [] {
      OthersOfNone(registry[1..]);
    }
  }

  lemma {:induction false} CandidatesCount(registry: seq<Implementation>, primary: Option<string>, function_: string,
                                           quarantined: set<string>)
    requires UniqueIds(registry)
    ensures |UsableOf(Candidates(registry, primary), function_, quarantined)| == |UsableOf(registry, function_, quarantined)|
  {
    if primary.None? {
      OthersOfNone(registry);
      assert Candidates(registry, primary) == registry;
    } else if registry != [] {
      var rest := registry[1..];
      assert registry == [registry[0]] + rest;
      UsableOfConcat([registry[0]], rest, function_, quarantined);
      if registry[0].id == primary.value {
        OthersOfAbsent(rest, primary.value);
        assert Candidates(registry, primary) == registry;
      } else {
        CandidatesCount(rest, primary, function_, quarantined);
        var named, others := Named(rest, primary.value), Others(rest, primary);
        UsableOfConcat(named, others, function_, quarantined);
        UsableOfConcat(named, [registry[0]] + others, function_, quarantined);
      }
    }
  }

  /** How many implementations a function can call on does not depend on which one is primary. */
  lemma WidthIndependentOfPrimary(registry: seq<Implementation>, p: Option<string>, q: Option<string>,
                                  function_: string, quarantined: set<string>, width: nat)
    requires UniqueIds(registry)
    ensures |Selection(registry, p, function_, quarantined, width)| == |Selection(registry, q, function_, quarantined, width)|
  {
    CandidatesCount(registry, p, function_, quarantined);
    CandidatesCount(registry, q, function_, quarantined);
  }

  // ---------- the verdict ----------

  /** The first implementation whose outcome differs from the first one's. */
  function FirstDissent<T(==)>(entries: seq<Implementation>, outcome: Implementation -> Result<T>): (i: nat)
    ensures i <= |entries|
    ensures forall k :: 0 <= k < i ==> outcome(entries[k]) == outcome(entries[0])
    ensures i < |entries| ==> outcome(entries[i]) != outcome(entries[0])
  {
    FirstDissentFrom(entries, outcome, 0)
  }

  function FirstDissentFrom<T(==)>(entries: seq<Implementation>, outcome: Implementation -> Result<T>, from: nat): (i: nat)
    requires from <= |entries|
    ensures from <= i <= |entries|
    ensures forall k :: from <= k < i ==> outcome(entries[k]) == outcome(entries[0])
    ensures i < |entries| ==> outcome(entries[i]) != outcome(entries[0])
    decreases |entries| - from
  {
    if from == |entries| || outcome(entries[from]) != outcome(entries[0]) then from
    else FirstDissentFrom(entries, outcome, from + 1)
  }

  class Agreement {
    const registry: seq<Implementation>
    const width: nat
    const quarantined: set<string>
    var primary: map<string, string>

    constructor (registry: seq<Implementation>, width: nat, quarantined: set<string>, primary: map<string, string>)
      ensures this.registry == registry && this.width == width && this.quarantined == quarantined
      ensures this.primary == primary
    {
      this.registry := registry;
      this.width := width;
      this.quarantined := quarantined;
      this.primary := primary;
    }

    function PrimaryOf(function_: string): Option<string>
      reads this
    {
      if function_ in primary then Some(primary[function_]) else None
    }

    function Selected(function_: string): seq<Implementation>
      reads this
    {
      Selection(registry, PrimaryOf(function_), function_, quarantined, width)
    }

    method UpdatePrimary(primary: map<string, string>)
      modifies this
      ensures this.primary == primary
      ensures UniqueIds(registry) ==> forall f :: |Selected(f)| == |old(Selected(f))|
    {
      ghost var before := this.primary;
      this.primary := primary;
      if UniqueIds(registry) {
        forall f ensures |Selected(f)| == |old(Selected(f))| {
          WidthIndependentOfPrimary(registry, old(PrimaryOf(f)), PrimaryOf(f), f, quarantined, width);
        }
      }
    }

    /** Calls implementations one after the other until `width` of them agreed or one of them differs. */
    method Run<T(==)>(function_: string, outcome: Implementation -> Result<T>) returns (verdict: Verdict<T>, called: seq<Implementation>)
      requires width >= 1 && UniqueIds(registry)
      ensures called <= Selected(function_)
      ensures verdict.Disagreement? <==> FirstDissent(Selected(function_), outcome) < |Selected(function_)|
      ensures verdict.Disagreement? ==> |called| == FirstDissent(Selected(function_), outcome) + 1
      ensures !verdict.Disagreement? ==> called == Selected(function_)
      ensures verdict.Internal? <==> |Selected(function_)| < width && !verdict.Disagreement?
      ensures verdict.Value? || verdict.Protocol? ==>
        && |called| == width && UniqueIds(called)
        && forall e :: e in called ==>
             && e in registry && e.id !in quarantined && function_ in e.functions
             && outcome(e) == (if verdict.Value? then Ok(verdict.value) else Err(verdict.error))
    {
      hide Candidates;
      hide UniqueIds;
      var primaryId := PrimaryOf(function_);
      var candidates := Candidates(registry, primaryId);
      ghost var usable := UsableOf(candidates, function_, quarantined);
      SelectionMembers(registry, primaryId, function_, quarantined, width);
      var reference: Option<Result<T>> := None;
      called := [];
      var i := 0;
      while i < |candidates|
        invariant 0 <= i <= |candidates|
        invariant called == UsableOf(candidates[..i], function_, quarantined) <= usable
        invariant |called| < width
        invariant reference == if called == [] then None else Some(outcome(called[0]))
        invariant forall k :: 0 <= k < |called| ==> outcome(called[k]) == outcome(called[0])
      {
        var implementation := candidates[i];
        PrefixStep(candidates, i, function_, quarantined);
        i := i + 1;
        if implementation.id in quarantined { continue; }
        if function_ !in implementation.functions { continue; }
        var result := outcome(implementation);
        called := called + [implementation];
        if reference.Some? {
          if reference.value != result {
            FirstDissentIs(Selected(function_), outcome, |called| - 1);
            return Disagreement, called;
          }
        } else {
          reference := Some(result);
        }
        if |called| == width { break; }
      }
      assert called == Selected(function_) by {
        if |called| < width { assert candidates[..i] == candidates; }
      }
      FirstDissentIs(Selected(function_), outcome, |called|);
      if |called| != width {
        return Verdict.Internal, called;
      }
      match reference.value
      case Ok(value) => verdict := Value(value);
      case Err(error) => verdict := Verdict.Protocol(error);
    }

    /** The ids an operator is shown, and that start-up checks for completeness. */
    method SelectedIds(function_: string) returns (ids: seq<string>)
      requires width >= 1 && UniqueIds(registry)
      ensures ids == Ids(Selected(function_))
    {
      var primaryId := PrimaryOf(function_);
      var lead: seq<Implementation> := [];
      if primaryId.Some? {
        lead := Named(UsableOf(registry, function_, quarantined), primaryId.value);
        NamedMembers(UsableOf(registry, function_, quarantined), primaryId.value);
      }
      ids := Ids(lead);
      var rest := UsableOf(Others(registry, primaryId), function_, quarantined);
      var room := if width >= |ids| then width - |ids| else 0;
      ids := ids + Ids(Take(rest, room));
      LeadThenRest(registry, primaryId, function_, quarantined, width, lead, rest);
    }
  }

  /** Once the width check of start-up has passed for a function, no sequence of later updates of the primaries makes a
      run fall short of implementations. */
  method RunAfterUpdates<T(==)>(agreement: Agreement, updates: seq<map<string, string>>, function_: string,
                                outcome: Implementation -> Result<T>) returns (verdict: Verdict<T>)
    requires agreement.width >= 1 && UniqueIds(agreement.registry)
    requires |agreement.Selected(function_)| == agreement.width
    modifies agreement
    ensures !verdict.Internal?
    ensures verdict.Disagreement? <==> FirstDissent(agreement.Selected(function_), outcome) < agreement.width
  {
    for i := 0 to |updates|
      invariant |agreement.Selected(function_)| == agreement.width
    {
      agreement.UpdatePrimary(updates[i]);
    }
    var called;
    verdict, called := agreement.Run(function_, outcome);
  }

  /** The primary followed by as many others as fit is the selection. */
  lemma LeadThenRest(registry: seq<Implementation>, primary: Option<string>, function_: string, quarantined: set<string>,
                     width: nat, lead: seq<Implementation>, rest: seq<Implementation>)
    requires width >= 1 && UniqueIds(registry)
    requires lead == (if primary.Some? then Named(UsableOf(registry, function_, quarantined), primary.value) else [])
    requires rest == UsableOf(Others(registry, primary), function_, quarantined)
    requires |lead| <= 1
    ensures Ids(lead) + Ids(Take(rest, width - |lead|)) == Ids(Selection(registry, primary, function_, quarantined, width))
  {
    var named := if primary.Some? then Named(registry, primary.value) else [];
    if primary.Some? { NamedUsable(registry, primary.value, function_, quarantined); }
    UsableOfConcat(named, Others(registry, primary), function_, quarantined);
    IdsConcat(lead, Take(rest, width - |lead|));
    assert lead + Take(rest, width - |lead|) == Take(lead + rest, width);
  }

  lemma FirstDissentIs<T>(entries: seq<Implementation>, outcome: Implementation -> Result<T>, i: nat)
    requires i <= |entries|
    requires forall k :: 0 <= k < i ==> outcome(entries[k]) == outcome(entries[0])
    requires i < |entries| ==> outcome(entries[i]) != outcome(entries[0])
    ensures FirstDissent(entries, outcome) == i
  {
  }

  lemma SelectionMembers(registry: seq<Implementation>, primary: Option<string>, function_: string,
                         quarantined: set<string>, width: nat)
    requires UniqueIds(registry)
    ensures UniqueIds(Selection(registry, primary, function_, quarantined, width))
    ensures forall e :: e in Selection(registry, primary, function_, quarantined, width) ==>
      e in registry && Usable(e, function_, quarantined)
  {
    var candidates := Candidates(registry, primary);
    CandidatesUnique(registry, primary);
    UsableUnique(candidates, function_, quarantined);
    UsableOfMembers(candidates, function_, quarantined);
    CandidatesMembers(registry, primary);
  }

  lemma CandidatesMembers(registry: seq<Implementation>, primary: Option<string>)
    ensures forall e :: e in Candidates(registry, primary) ==> e in registry
  {
    OthersMembers(registry, primary);
    if primary.Some? { NamedMembers(registry, primary.value); }
  }

  lemma PrefixStep(candidates: seq<Implementation>, i: nat, function_: string, quarantined: set<string>)
    requires i < |candidates|
    ensures UsableOf(candidates[..i + 1], function_, quarantined) ==
            UsableOf(candidates[..i], function_, quarantined)
            + (if Usable(candidates[i], function_, quarantined) then [candidates[i]] else [])
    ensures UsableOf(candidates[..i + 1], function_, quarantined) <= UsableOf(candidates, function_, quarantined)
  {
    assert candidates[..i + 1] == candidates[..i] + [candidates[i]];
    UsableOfConcat(candidates[..i], [candidates[i]], function_, quarantined);
    assert candidates == candidates[..i + 1] + candidates[i + 1..];
    UsableOfConcat(candidates[..i + 1], candidates[i + 1..], function_, quarantined);
  }

  /** Looking for a usable primary finds what filtering the registered primary leaves. */
  lemma {:induction false} NamedUsable(registry: seq<Implementation>, id: string, function_: string, quarantined: set<string>)
    requires UniqueIds(registry)
    ensures Named(UsableOf(registry, function_, quarantined), id) == UsableOf(Named(registry, id), function_, quarantined)
  {
    if registry != [] {
      NamedUsable(registry[1..], id, function_, quarantined);
      if registry[0].id == id {
        OthersOfAbsent(registry[1..], id);
      }
    }
  }

  // ---------- what a selection is ----------

  /** An implementation that provides the function and is not quarantined, other than the primary. */
  predicate Eligible(entry: Implementation, primary: Option<string>, function_: string, quarantined: set<string>) {
    function_ in entry.functions && entry.id !in quarantined && primary != Some(entry.id)
  }

  /** The first of two is registered before the second. */
  ghost predicate Before(registry: seq<Implementation>, a: Implementation, b: Implementation) {
    exists i, j :: 0 <= i < j < |registry| && registry[i] == a && registry[j] == b
  }

  lemma BeforeTail(registry: seq<Implementation>, a: Implementation, b: Implementation)
    requires registry != []
    ensures Before(registry[1..], a, b) ==> Before(registry, a, b)
    ensures a == registry[0] && b in registry[1..] ==> Before(registry, a, b)
  {
    if Before(registry[1..], a, b) {
      var i, j :| 0 <= i < j < |registry[1..]| && registry[1..][i] == a && registry[1..][j] == b;
      assert registry[i + 1] == a && registry[j + 1] == b;
    }
    if b in registry[1..] {
      var j :| 0 <= j < |registry[1..]| && registry[1..][j] == b;
      assert registry[0] == registry[0] && registry[j + 1] == b;
    }
  }

  /** The eligible implementations stand in the order of the registry. */
  lemma {:induction false} RestInOrder(registry: seq<Implementation>, primary: Option<string>, function_: string,
                                       quarantined: set<string>, p: nat, q: nat)
    requires p < q < |UsableOf(Others(registry, primary), function_, quarantined)|
    ensures var rest := UsableOf(Others(registry, primary), function_, quarantined); Before(registry, rest[p], rest[q])
  {
    hide Before;
    var tail := UsableOf(Others(registry[1..], primary), function_, quarantined);
    var rest := UsableOf(Others(registry, primary), function_, quarantined);
    assert rest == (if Eligible(registry[0], primary, function_, quarantined) then [registry[0]] else []) + tail;
    if !Eligible(registry[0], primary, function_, quarantined) {
      RestInOrder(registry[1..], primary, function_, quarantined, p, q);
    } else if p > 0 {
      RestInOrder(registry[1..], primary, function_, quarantined, p - 1, q - 1);
    } else {
      EligibleMembers(registry[1..], primary, function_, quarantined);
      assert rest[q] == tail[q - 1] && tail[q - 1] in tail;
    }
    BeforeTail(registry, rest[p], rest[q]);
  }

  lemma EligibleMembers(registry: seq<Implementation>, primary: Option<string>, function_: string, quarantined: set<string>)
    ensures forall e :: e in UsableOf(Others(registry, primary), function_, quarantined) <==>
      e in registry && Eligible(e, primary, function_, quarantined)
  {
    OthersMembers(registry, primary);
    UsableOfMembers(Others(registry, primary), function_, quarantined);
  }

  lemma NotBoth(registry: seq<Implementation>, a: Implementation, b: Implementation)
    requires UniqueIds(registry) && Before(registry, a, b)
    ensures a != b && !Before(registry, b, a)
  {
    var i, j :| 0 <= i < j < |registry| && registry[i] == a && registry[j] == b;
  }

  /** The usable primary, if there is one, and the other usable implementations in their order. */
  lemma SelectionParts(registry: seq<Implementation>, primary: Option<string>, function_: string, quarantined: set<string>,
                       width: nat) returns (lead: seq<Implementation>, rest: seq<Implementation>)
    requires UniqueIds(registry)
    ensures Selection(registry, primary, function_, quarantined, width) == Take(lead + rest, width)
    ensures rest == UsableOf(Others(registry, primary), function_, quarantined) && |lead| <= 1
    ensures forall e :: e in lead <==>
      e in registry && primary == Some(e.id) && function_ in e.functions && e.id !in quarantined
  {
    var named := if primary.Some? then Named(registry, primary.value) else [];
    lead, rest := UsableOf(named, function_, quarantined), UsableOf(Others(registry, primary), function_, quarantined);
    UsableOfConcat(named, Others(registry, primary), function_, quarantined);
    UsableOfMembers(named, function_, quarantined);
    if primary.Some? {
      NamedMembers(registry, primary.value);
      NamedFound(registry, primary.value);
      UsableIsShorter(named, function_, quarantined);
    }
  }

  lemma {:induction false} NamedFound(registry: seq<Implementation>, id: string)
    requires UniqueIds(registry)
    ensures forall e :: e in registry && e.id == id ==> e in Named(registry, id)
  {
    if registry != [] && registry[0].id != id { NamedFound(registry[1..], id); }
  }

  lemma {:induction false} UsableIsShorter(entries: seq<Implementation>, function_: string, quarantined: set<string>)
    ensures |UsableOf(entries, function_, quarantined)| <= |entries|
  {
    if entries != [] { UsableIsShorter(entries[1..], function_, quarantined); }
  }

  /** A selection has at most `width` members, all usable, and leaves a usable implementation out only when it is full; a
      usable primary is its first member; and of two others the one registered first is taken first and stands first. */
  lemma SelectionMeans(registry: seq<Implementation>, primary: Option<string>, function_: string, quarantined: set<string>,
                       width: nat, s: seq<Implementation>, a: Implementation, b: Implementation)
    requires width >= 1 && UniqueIds(registry) && a in registry && b in registry
    requires s == Selection(registry, primary, function_, quarantined, width)
    ensures |s| <= width && (a in s ==> function_ in a.functions && a.id !in quarantined)
    ensures function_ in a.functions && a.id !in quarantined && a !in s ==> |s| == width
    ensures function_ in a.functions && a.id !in quarantined && primary == Some(a.id) ==> s != [] && s[0] == a
    ensures Eligible(a, primary, function_, quarantined) && Eligible(b, primary, function_, quarantined) ==>
      (Before(registry, a, b) && b in s ==> a in s && Before(s, a, b))
  {
    var lead, rest := SelectionParts(registry, primary, function_, quarantined, width);
    hide Selection;
    EligibleMembers(registry, primary, function_, quarantined);
    assert forall e :: e in lead + rest <==> e in lead || e in rest;
    if Eligible(a, primary, function_, quarantined) && Eligible(b, primary, function_, quarantined)
       && Before(registry, a, b) && b in s {
      OrderKept(registry, primary, function_, quarantined, width, lead, rest, a, b);
    }
  }

  lemma OrderKept(registry: seq<Implementation>, primary: Option<string>, function_: string, quarantined: set<string>,
                  width: nat, lead: seq<Implementation>, rest: seq<Implementation>, a: Implementation, b: Implementation)
    requires UniqueIds(registry) && Before(registry, a, b)
    requires rest == UsableOf(Others(registry, primary), function_, quarantined) && a in rest
    requires b in Take(lead + rest, width) && b !in lead
    ensures a in Take(lead + rest, width) && Before(Take(lead + rest, width), a, b)
  {
    var s := Take(lead + rest, width);
    var r :| 0 <= r < |s| && s[r] == b;
    assert forall k :: 0 <= k < |lead| ==> lead[k] != b;
    assert (lead + rest)[r] == b;
    var q := r - |lead|;
    assert q >= 0 && rest[q] == b;
    var p :| 0 <= p < |rest| && rest[p] == a;
    NotBoth(registry, a, b);
    hide Before;
    if q < p { RestInOrder(registry, primary, function_, quarantined, q, p); }
    assert p < q && s[|lead| + p] == a;
    assert Before(s, a, b) by { Stands(s, |lead| + p, r); }
  }

  lemma Stands(s: seq<Implementation>, i: nat, j: nat)
    requires i < j < |s|
    ensures Before(s, s[i], s[j])
  {
  }
}
