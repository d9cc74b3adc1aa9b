/** The headers that go upstream: what is left of the request's after one more drop, and the configured ones. */
module UpstreamHeaders {
  import opened Bytes
  import opened CanonicalHead
  import opened Http

  const EXPECT: Bytes := "expect"
  const CONFIGURED_NAME_MAX := 32
  const CONFIGURED_VALUE_MAX := 8_192

  /** A configured request header: the methods it is for, all when none is named, and what rendering its value gives. */
  datatype Configured = Configured(name: Bytes, methods: seq<Bytes>, rendered: Outcome<Bytes>)

  predicate AppliesTo(header: Configured, verb: Bytes) {
    header.methods == [] || exists i :: 0 <= i < |header.methods| && EqualIgnoringCase(header.methods[i], verb)
  }

  /** The names that configuration keeps for the proxy itself. */
  predicate Managed(name: Bytes) {
    || name == "connection" || name == "content-length" || name == "forwarded" || name == "host" || name == "te"
    || name == "trailer" || name == "transfer-encoding" || name == "upgrade" || name == "x-forwarded-for"
    || name == "x-forwarded-host" || name == "x-forwarded-proto"
  }

  predicate NoBreaks(value: Bytes) { forall i :: 0 <= i < |value| ==> value[i] != '\r' && value[i] != '\n' && value[i] as int != 0 }

  /** What configuration and rendering guarantee of the configured headers. */
  predicate ValidConfigured(configured: seq<Configured>) {
    && (forall i :: 0 <= i < |configured| ==> ValidHeader(configured[i]))
    && forall i, j :: 0 <= i < j < |configured| ==> configured[i].name != configured[j].name
  }

  predicate ValidHeader(header: Configured) {
    && 1 <= |header.name| <= CONFIGURED_NAME_MAX && AllToken(header.name) && NoUpper(header.name) && !Managed(header.name)
    && (header.rendered.Done? ==> |header.rendered.value| <= CONFIGURED_VALUE_MAX && NoBreaks(header.rendered.value))
  }

  // ---------- applying the configured headers ----------

  /** The fields with none of these names, in their order. */
  function Except(fields: seq<HeaderField>, names: set<Bytes>): seq<HeaderField> {
    if fields == [] then []
    else
      var last := fields[|fields| - 1];
      Except(fields[..|fields| - 1], names) + (if last.name in names then [] else [last])
  }

  /** Each applicable header in turn takes the place of all fields with its name; the first failed rendering ends it. */
  function Applied(fields: seq<HeaderField>, configured: seq<Configured>, n: nat, verb: Bytes): Outcome<seq<HeaderField>>
    requires n <= |configured|
  {
    if n == 0 then Done(fields)
    else
      var before :- Applied(fields, configured, n - 1, verb);
      var header := configured[n - 1];
      if !AppliesTo(header, verb) then Done(before)
      else
        var value :- header.rendered;
        Done(Except(before, {header.name}) + [HeaderField(header.name, value)])
  }

  lemma {:induction false} AppliedFails(fields: seq<HeaderField>, configured: seq<Configured>, n: nat, m: nat, verb: Bytes)
    requires n <= m <= |configured| && Applied(fields, configured, n, verb).Failed?
    ensures Applied(fields, configured, m, verb) == Applied(fields, configured, n, verb)
    decreases m - n
  {
    if n < m { AppliedFails(fields, configured, n, m - 1, verb); }
  }

  method Drop(fields: seq<HeaderField>, name: Bytes) returns (kept: seq<HeaderField>)
    ensures kept == Except(fields, {name})
  {
    kept := [];
    for i := 0 to |fields|
      invariant kept == Except(fields[..i], {name})
    {
      assert fields[..i + 1][..i] == fields[..i];
      if fields[i].name != name { kept := kept + [fields[i]]; }
    }
    assert fields[..|fields|] == fields;
  }

  method ApplyRequestHeaders(fields: seq<HeaderField>, configured: seq<Configured>, verb: Bytes)
    returns (r: Outcome<seq<HeaderField>>)
    ensures r == Applied(fields, configured, |configured|, verb)
  {
    var current := fields;
    for n := 0 to |configured|
      invariant Applied(fields, configured, n, verb) == Done(current)
    {
      var header := configured[n];
      if AppliesTo(header, verb) {
        if header.rendered.Failed? {
          AppliedFails(fields, configured, n + 1, |configured|, verb);
          return Outcome.Failed(header.rendered.fault);
        }
        current := Drop(current, header.name);
        current := current + [HeaderField(header.name, header.rendered.value)];
      }
    }
    return Done(current);
  }

  // ---------- what is applied ----------

  /** The names of the first `n` headers that apply. */
  function AppliedNames(configured: seq<Configured>, n: nat, verb: Bytes): set<Bytes>
    requires n <= |configured|
  {
    set i | 0 <= i < n && AppliesTo(configured[i], verb) :: configured[i].name
  }

  /** The first `n` headers that apply, rendered. */
  function Additions(configured: seq<Configured>, n: nat, verb: Bytes): seq<HeaderField>
    requires n <= |configured| && AllRendered(configured, n, verb)
  {
    if n == 0 then []
    else
      var header := configured[n - 1];
      Additions(configured, n - 1, verb)
      + (if AppliesTo(header, verb) then [HeaderField(header.name, header.rendered.value)] else [])
  }

  predicate AllRendered(configured: seq<Configured>, n: nat, verb: Bytes)
    requires n <= |configured|
  {
    forall i :: 0 <= i < n && AppliesTo(configured[i], verb) ==> configured[i].rendered.Done?
  }

  lemma {:induction false} ExceptConcat(a: seq<HeaderField>, b: seq<HeaderField>, names: set<Bytes>)
    ensures Except(a + b, names) == Except(a, names) + Except(b, names)
  {
    if b == [] {
      assert a + b == a;
    } else {
      assert (a + b)[..|a + b| - 1] == a + b[..|b| - 1];
      ExceptConcat(a, b[..|b| - 1], names);
    }
  }

  lemma {:induction false} ExceptTwice(fields: seq<HeaderField>, names: set<Bytes>, more: set<Bytes>)
    ensures Except(Except(fields, names), more) == Except(fields, names + more)
  {
    if fields != [] {
      var last, before := fields[|fields| - 1], Except(fields[..|fields| - 1], names);
      ExceptTwice(fields[..|fields| - 1], names, more);
      if last.name in names {
        assert before + [] == before;
      } else {
        ExceptConcat(before, [last], more);
        ExceptOne(last, more);
      }
    }
  }

  lemma ExceptOne(field: HeaderField, names: set<Bytes>)
    ensures Except([field], names) == if field.name in names then [] else [field]
  {
    var one := [field];
    assert one[..0] == [] && Except([], names) == [];
  }

  lemma {:induction false} ExceptOthers(fields: seq<HeaderField>, names: set<Bytes>)
    requires forall i :: 0 <= i < |fields| ==> fields[i].name !in names
    ensures Except(fields, names) == fields
  {
    if fields != [] {
      ExceptOthers(fields[..|fields| - 1], names);
      assert fields == fields[..|fields| - 1] + [fields[|fields| - 1]];
    }
  }

  /** What the `n`-th header adds to what is applied. */
  lemma GatherStep(configured: seq<Configured>, n: nat, verb: Bytes)
    requires 0 < n <= |configured| && AllRendered(configured, n, verb)
    ensures var header := configured[n - 1];
      if AppliesTo(header, verb) then
        && AppliedNames(configured, n, verb) == AppliedNames(configured, n - 1, verb) + {header.name}
        && Additions(configured, n, verb) == Additions(configured, n - 1, verb) + [HeaderField(header.name, header.rendered.value)]
      else
        && AppliedNames(configured, n, verb) == AppliedNames(configured, n - 1, verb)
        && Additions(configured, n, verb) == Additions(configured, n - 1, verb)
  {
    hide AppliesTo;
    assert Additions(configured, n - 1, verb) + [] == Additions(configured, n - 1, verb);
  }

  lemma {:induction false} AdditionNames(configured: seq<Configured>, n: nat, verb: Bytes)
    requires n <= |configured| && AllRendered(configured, n, verb)
    ensures forall k :: 0 <= k < |Additions(configured, n, verb)| ==>
      Additions(configured, n, verb)[k].name in AppliedNames(configured, n, verb)
  {
    if n > 0 {
      AdditionNames(configured, n - 1, verb);
      GatherStep(configured, n, verb);
      hide AppliesTo;
    }
  }

  /** With distinct names the loop's result is the fields that no applied header overrides, in their order, and then the
      applied headers in theirs; it fails exactly when an applied header cannot be rendered. */
  lemma {:induction false} AppliedMeans(fields: seq<HeaderField>, configured: seq<Configured>, n: nat, verb: Bytes)
    requires n <= |configured|
    requires forall i, j :: 0 <= i < j < |configured| ==> configured[i].name != configured[j].name
    ensures Applied(fields, configured, n, verb).Done? <==> AllRendered(configured, n, verb)
    ensures AllRendered(configured, n, verb) ==>
      Applied(fields, configured, n, verb)
      == Done(Except(fields, AppliedNames(configured, n, verb)) + Additions(configured, n, verb))
  {
    hide AppliesTo;
    if n == 0 {
      ExceptOthers(fields, {});
      assert AppliedNames(configured, 0, verb) == {};
      assert fields + [] == fields;
    } else {
      AppliedMeans(fields, configured, n - 1, verb);
      if AllRendered(configured, n, verb) {
        var header, names, more := configured[n - 1], AppliedNames(configured, n - 1, verb), Additions(configured, n - 1, verb);
        GatherStep(configured, n, verb);
        AdditionNames(configured, n - 1, verb);
        assert header.name !in names;
        hide Additions;
        hide AppliedNames;
        hide Except;
        if AppliesTo(header, verb) {
          ReplaceField(fields, names, more, HeaderField(header.name, header.rendered.value));
        }
      }
    }
  }

  lemma ReplaceField(fields: seq<HeaderField>, names: set<Bytes>, more: seq<HeaderField>, field: HeaderField)
    requires forall k :: 0 <= k < |more| ==> more[k].name != field.name
    ensures Except(Except(fields, names) + more, {field.name}) + [field] ==
            Except(fields, names + {field.name}) + (more + [field])
  {
    hide Except;
    ExceptConcat(Except(fields, names), more, {field.name});
    ExceptTwice(fields, names, {field.name});
    ExceptOthers(more, {field.name});
    ConcatAssociates(Except(fields, names + {field.name}), more, [field]);
  }

  // ---------- what can be printed ----------

  /** The names that configuration lets through and the printers refuse. */
  predicate RefusedName(name: Bytes) {
    name == "proxy-connection" || name == "keep-alive" || name == "proxy-authenticate" || name == "proxy-authorization"
  }

  /** What a configured header needs beyond what configuration checks. */
  predicate Fits(header: Configured) {
    header.rendered.Done? ==>
      !RefusedName(header.name) && AllFieldValue(header.rendered.value) && NoEdgeOws(header.rendered.value)
  }

  predicate AppliedFit(configured: seq<Configured>, n: nat, verb: Bytes)
    requires n <= |configured|
  {
    forall i :: 0 <= i < n && AppliesTo(configured[i], verb) ==> Fits(configured[i])
  }

  lemma RenderedPasses(header: Configured)
    requires ValidHeader(header) && header.rendered.Done?
    ensures Passes(HeaderField(header.name, header.rendered.value)) <==> Fits(header)
  {
    RefusedAreRejected(header.name);
    hide AllToken;
    hide NoUpper;
    hide AllFieldValue;
    hide NoEdgeOws;
    hide Managed;
    hide SurvivorOf;
    hide RefusedName;
  }

  lemma RefusedAreRejected(name: Bytes)
    requires !Managed(name)
    ensures SurvivorOf(name) == Reject <==> RefusedName(name)
  {
    if RefusedName(name) { RefusedAreNotReplaced(name); }
  }

  lemma RefusedAreNotReplaced(name: Bytes)
    requires RefusedName(name)
    ensures !("x-forwarded-" <= name) && name != "host" && name != "content-length" && name != "transfer-encoding"
    ensures name != "connection" && name != "forwarded"
  {
    assert name[0] == 'p' || name[0] == 'k';
  }

  lemma {:induction false} ExceptPasses(fields: seq<HeaderField>, names: set<Bytes>)
    requires AllPass(fields)
    ensures AllPass(Except(fields, names)) && |Except(fields, names)| <= |fields|
  {
    hide Passes;
    if fields != [] { ExceptPasses(fields[..|fields| - 1], names); }
  }

  lemma {:induction false} AdditionsPass(configured: seq<Configured>, n: nat, verb: Bytes)
    requires n <= |configured| && AllRendered(configured, n, verb) && forall i :: 0 <= i < n ==> ValidHeader(configured[i])
    ensures AllPass(Additions(configured, n, verb)) <==> AppliedFit(configured, n, verb)
  {
    hide AppliesTo;
    hide Passes;
    hide ValidHeader;
    hide Fits;
    if n > 0 {
      AdditionsPass(configured, n - 1, verb);
      GatherStep(configured, n, verb);
      var header, more := configured[n - 1], Additions(configured, n - 1, verb);
      if AppliesTo(header, verb) {
        var field := HeaderField(header.name, header.rendered.value);
        RenderedPasses(header);
        PassAppend(more, [field]);
        assert AllPass([field]) <==> Passes([field][0]);
      }
    }
  }

  lemma PassAppend(a: seq<HeaderField>, b: seq<HeaderField>)
    ensures AllPass(a + b) <==> AllPass(a) && AllPass(b)
  {
    hide Passes;
    assert forall i :: 0 <= i < |a| ==> (a + b)[i] == a[i];
    assert forall i :: 0 <= i < |b| ==> (a + b)[|a| + i] == b[i];
  }

  /** Added to fields that pass, the configured headers keep all passing exactly when each one that applies fits. */
  lemma AppliedPasses(fields: seq<HeaderField>, configured: seq<Configured>, verb: Bytes)
    requires AllPass(fields) && ValidConfigured(configured)
    ensures var r := Applied(fields, configured, |configured|, verb);
      && (r.Done? <==> AllRendered(configured, |configured|, verb))
      && (r.Done? ==> (AllPass(r.value) <==> AppliedFit(configured, |configured|, verb)))
  {
    hide AppliesTo;
    hide Passes;
    hide ValidHeader;
    hide Fits;
    var n := |configured|;
    AppliedMeans(fields, configured, n, verb);
    if AllRendered(configured, n, verb) {
      ExceptPasses(fields, AppliedNames(configured, n, verb));
      AdditionsPass(configured, n, verb);
      PassAppend(Except(fields, AppliedNames(configured, n, verb)), Additions(configured, n, verb));
    }
  }

  /** Configuration accepts a header with a hop-by-hop name, and whatever it is added to is refused. */
  lemma CredentialsRefused(fields: seq<HeaderField>, name: Bytes, value: Bytes, verb: Bytes)
    requires RefusedName(name) && |value| <= CONFIGURED_VALUE_MAX && NoBreaks(value)
    ensures ValidConfigured([Configured(name, [], Done(value))])
    ensures var r := Applied(fields, [Configured(name, [], Done(value))], 1, verb); r.Done? && !AllPass(r.value)
  {
    var configured := [Configured(name, [], Done(value))];
    RefusedNamesAreTokens(name);
    RefusedNamesAreFree(name);
    hide AllToken;
    hide NoUpper;
    hide NoBreaks;
    assert Applied(fields, configured, 0, verb) == Done(fields);
    var final := Except(fields, {name}) + [HeaderField(name, value)];
    assert Applied(fields, configured, 1, verb) == Done(final);
    RefusedAreRejected(name);
    assert !Passes(final[|final| - 1]);
  }

  lemma RefusedNamesAreTokens(name: Bytes)
    requires RefusedName(name)
    ensures 1 <= |name| <= CONFIGURED_NAME_MAX && AllToken(name) && NoUpper(name)
  {
  }

  lemma RefusedNamesAreFree(name: Bytes)
    requires RefusedName(name)
    ensures !Managed(name)
  {
    assert name[0] == 'p' || name[0] == 'k';
  }
}
