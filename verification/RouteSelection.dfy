/** Selecting a runtime route twice, by a fold and by a sort, over a compiled route table. */
module RouteSelection {
  import opened Bytes
  import opened Http
  import Sorting

  datatype MatchKind = Exact | Prefix | BoundaryPrefix

  datatype LegacyRoute = LegacyRoute(host: Bytes, pathPrefix: Bytes)

  datatype SiteRoute = SiteRoute(path: Bytes, matchKind: MatchKind, methods: seq<Bytes>, schemes: seq<Bytes>)

  datatype Site = Site(serverNames: seq<Bytes>, isDefault: bool, routes: seq<SiteRoute>)

  datatype Config = Config(routes: seq<LegacyRoute>, sites: seq<Site>)

  datatype RuntimeRoute = RuntimeRoute(
    host: Bytes, path: Bytes, matchKind: MatchKind, methods: seq<Bytes>, schemes: seq<Bytes>, declarationOrder: nat)

  datatype Request = Request(host: Bytes, routingPath: Bytes, verb: Bytes, scheme: Bytes)

  // ---------- compiling the table ----------

  function LowerEach(words: seq<Bytes>): (r: seq<Bytes>)
    ensures |r| == |words|
  {
    seq(|words|, i requires 0 <= i < |words| => LowerAll(words[i]))
  }

  function FromLegacy(route: LegacyRoute, order: nat): RuntimeRoute {
    RuntimeRoute(route.host, route.pathPrefix, BoundaryPrefix, [], [], order)
  }

  function FromSite(name: Bytes, route: SiteRoute, order: nat): RuntimeRoute {
    RuntimeRoute(name, route.path, route.matchKind, LowerEach(route.methods), LowerEach(route.schemes), order)
  }

  function Names(site: Site): seq<Bytes> {
    site.serverNames + (if site.isDefault then ["*"] else [])
  }

  function LegacyTable(routes: seq<LegacyRoute>): (r: seq<RuntimeRoute>)
    ensures |r| == |routes|
  {
    if routes == [] then []
    else LegacyTable(routes[..|routes| - 1]) + [FromLegacy(routes[|routes| - 1], |routes| - 1)]
  }

  function NameTable(name: Bytes, routes: seq<SiteRoute>, first: nat): (r: seq<RuntimeRoute>)
    ensures |r| == |routes|
  {
    if routes == [] then []
    else NameTable(name, routes[..|routes| - 1], first) + [FromSite(name, routes[|routes| - 1], first + |routes| - 1)]
  }

  function NamesTable(names: seq<Bytes>, routes: seq<SiteRoute>, first: nat): (r: seq<RuntimeRoute>)
    ensures |r| == |names| * |routes|
  {
    if names == [] then []
    else
      assert |names| * |routes| == (|names| - 1) * |routes| + |routes|;
      NamesTable(names[..|names| - 1], routes, first)
      + NameTable(names[|names| - 1], routes, first + (|names| - 1) * |routes|)
  }

  function SitesTable(sites: seq<Site>, first: nat): seq<RuntimeRoute> {
    if sites == [] then []
    else
      var before := SitesTable(sites[..|sites| - 1], first);
      var site := sites[|sites| - 1];
      before + NamesTable(Names(site), site.routes, first + |before|)
  }

  function Table(config: Config): seq<RuntimeRoute> {
    LegacyTable(config.routes) + SitesTable(config.sites, |config.routes|)
  }

  /** Declaration orders count up from `first`. */
  predicate Numbered(routes: seq<RuntimeRoute>, first: nat) {
    forall i :: 0 <= i < |routes| ==> routes[i].declarationOrder == first + i
  }

  predicate DistinctOrders(routes: seq<RuntimeRoute>) {
    forall i, j :: 0 <= i < j < |routes| ==> routes[i].declarationOrder != routes[j].declarationOrder
  }

  method CompileRuntimeRoutes(config: Config) returns (routes: seq<RuntimeRoute>)
    ensures routes == Table(config)
    ensures Numbered(routes, 0) && DistinctOrders(routes)
  {
    hide LegacyTable;
    hide NamesTable;
    hide Names;
    routes := CompileLegacy(config.routes);
    ghost var legacy := routes;
    for i := 0 to |config.sites|
      invariant routes == legacy + SitesTable(config.sites[..i], |legacy|)
    {
      assert config.sites[..i + 1][..i] == config.sites[..i];
      routes := AppendSite(routes, config.sites[i]);
    }
    assert config.sites[..|config.sites|] == config.sites;
    TableNumbered(config);
  }

  method CompileLegacy(legacy: seq<LegacyRoute>) returns (routes: seq<RuntimeRoute>)
    ensures routes == LegacyTable(legacy)
  {
    routes := [];
    for i := 0 to |legacy|
      invariant routes == LegacyTable(legacy[..i])
    {
      assert legacy[..i + 1][..i] == legacy[..i];
      routes := routes + [FromLegacy(legacy[i], |routes|)];
    }
    assert legacy[..|legacy|] == legacy;
  }

  /** One table entry for every server name of the site and every one of its routes. */
  method AppendSite(table: seq<RuntimeRoute>, site: Site) returns (routes: seq<RuntimeRoute>)
    ensures routes == table + NamesTable(Names(site), site.routes, |table|)
  {
    routes := table;
    var names := Names(site);
    for j := 0 to |names|
      invariant routes == table + NamesTable(names[..j], site.routes, |table|)
    {
      assert names[..j + 1][..j] == names[..j];
      routes := AppendName(routes, names[j], site.routes);
    }
    assert names[..|names|] == names;
  }

  method AppendName(table: seq<RuntimeRoute>, name: Bytes, siteRoutes: seq<SiteRoute>) returns (routes: seq<RuntimeRoute>)
    ensures routes == table + NameTable(name, siteRoutes, |table|)
  {
    routes := table;
    for k := 0 to |siteRoutes|
      invariant routes == table + NameTable(name, siteRoutes[..k], |table|)
    {
      assert siteRoutes[..k + 1][..k] == siteRoutes[..k];
      routes := routes + [FromSite(name, siteRoutes[k], |routes|)];
    }
    assert siteRoutes[..|siteRoutes|] == siteRoutes;
  }

  /** Compilation makes every declaration order equal to the entry's index. */
  lemma TableNumbered(config: Config)
    ensures Numbered(Table(config), 0) && DistinctOrders(Table(config))
  {
    LegacyNumbered(config.routes);
    SitesNumbered(config.sites, |config.routes|);
  }

  lemma {:induction false} LegacyNumbered(routes: seq<LegacyRoute>)
    ensures Numbered(LegacyTable(routes), 0)
  {
    if routes != [] { LegacyNumbered(routes[..|routes| - 1]); }
  }

  lemma {:induction false} NameNumbered(name: Bytes, routes: seq<SiteRoute>, first: nat)
    ensures Numbered(NameTable(name, routes, first), first)
  {
    if routes != [] { NameNumbered(name, routes[..|routes| - 1], first); }
  }

  lemma {:induction false} NamesNumbered(names: seq<Bytes>, routes: seq<SiteRoute>, first: nat)
    ensures Numbered(NamesTable(names, routes, first), first)
  {
    if names != [] {
      NamesNumbered(names[..|names| - 1], routes, first);
      NameNumbered(names[|names| - 1], routes, first + (|names| - 1) * |routes|);
    }
  }

  lemma {:induction false} SitesNumbered(sites: seq<Site>, first: nat)
    ensures Numbered(SitesTable(sites, first), first)
  {
    if sites != [] {
      var before := SitesTable(sites[..|sites| - 1], first);
      SitesNumbered(sites[..|sites| - 1], first);
      var site := sites[|sites| - 1];
      NamesNumbered(Names(site), site.routes, first + |before|);
    }
  }

  // ---------- what the entries are ----------

  /** How many entries sites have: one for every name, the default one included, and every route. */
  function Entries(sites: seq<Site>): nat {
    if sites == [] then 0
    else
      var site := sites[|sites| - 1];
      Entries(sites[..|sites| - 1]) + (|site.serverNames| + (if site.isDefault then 1 else 0)) * |site.routes|
  }

  lemma {:induction false} SitesCount(sites: seq<Site>, first: nat)
    ensures |SitesTable(sites, first)| == Entries(sites)
  {
    if sites != [] { SitesCount(sites[..|sites| - 1], first); }
  }

  lemma {:induction false} LegacyAt(routes: seq<LegacyRoute>, i: nat)
    requires i < |routes|
    ensures LegacyTable(routes)[i] == RuntimeRoute(routes[i].host, routes[i].pathPrefix, BoundaryPrefix, [], [], i)
  {
    if i < |routes| - 1 { LegacyAt(routes[..|routes| - 1], i); }
  }

  lemma {:induction false} NameAt(name: Bytes, routes: seq<SiteRoute>, first: nat, k: nat)
    requires k < |routes|
    ensures NameTable(name, routes, first)[k] == FromSite(name, routes[k], first + k)
  {
    if k < |routes| - 1 { NameAt(name, routes[..|routes| - 1], first, k); }
  }

  lemma {:induction false} NamesAt(names: seq<Bytes>, routes: seq<SiteRoute>, first: nat, j: nat, k: nat)
    requires j < |names| && k < |routes|
    ensures j * |routes| + k < |NamesTable(names, routes, first)|
    ensures NamesTable(names, routes, first)[j * |routes| + k] == FromSite(names[j], routes[k], first + j * |routes| + k)
  {
    var last := |names| - 1;
    assert |names| * |routes| == last * |routes| + |routes|;
    if j < last {
      NamesAt(names[..last], routes, first, j, k);
    } else {
      NameAt(names[last], routes, first + last * |routes|, k);
    }
  }

  lemma {:induction false} SitesAt(sites: seq<Site>, first: nat, s: nat, j: nat, k: nat)
    requires s < |sites| && j < |Names(sites[s])| && k < |sites[s].routes|
    ensures var at := Entries(sites[..s]) + j * |sites[s].routes| + k;
      at < |SitesTable(sites, first)| && SitesTable(sites, first)[at] == FromSite(Names(sites[s])[j], sites[s].routes[k], first + at)
  {
    hide Names;
    hide NamesTable;
    hide FromSite;
    var last := |sites| - 1;
    var before := SitesTable(sites[..last], first);
    var block := NamesTable(Names(sites[last]), sites[last].routes, first + |before|);
    assert SitesTable(sites, first) == before + block;
    SitesCount(sites[..last], first);
    if s < last {
      SitesAt(sites[..last], first, s, j, k);
      assert sites[..last][..s] == sites[..s];
    } else {
      NamesAt(Names(sites[s]), sites[s].routes, first + |before|, j, k);
      AfterBefore(before, block, j * |sites[s].routes| + k);
    }
  }

  lemma AfterBefore(before: seq<RuntimeRoute>, block: seq<RuntimeRoute>, n: nat)
    requires n < |block|
    ensures (before + block)[|before| + n] == block[n]
  {
  }

  /** The table holds the old-style routes, then for every site, every name of it and every route one entry with that
      name, the path and kind of that route and its methods and schemes in lower case; and nothing else. */
  lemma TableEntries(config: Config, i: nat, s: nat, j: nat, k: nat)
    ensures |Table(config)| == |config.routes| + Entries(config.sites)
    ensures i < |config.routes| ==>
      Table(config)[i] == RuntimeRoute(config.routes[i].host, config.routes[i].pathPrefix, BoundaryPrefix, [], [], i)
    ensures s < |config.sites| && j < |Names(config.sites[s])| && k < |config.sites[s].routes| ==>
      var (site, at) := (config.sites[s], |config.routes| + Entries(config.sites[..s]) + j * |config.sites[s].routes| + k);
      && at < |Table(config)|
      && var entry := Table(config)[at];
         && entry.host == (if j < |site.serverNames| then site.serverNames[j] else "*")
         && entry.path == site.routes[k].path && entry.matchKind == site.routes[k].matchKind && entry.declarationOrder == at
         && |entry.methods| == |site.routes[k].methods| && |entry.schemes| == |site.routes[k].schemes|
         && (forall x :: 0 <= x < |entry.methods| ==> entry.methods[x] == LowerAll(site.routes[k].methods[x]))
         && (forall x :: 0 <= x < |entry.schemes| ==> entry.schemes[x] == LowerAll(site.routes[k].schemes[x]))
  {
    hide LegacyTable;
    hide SitesTable;
    SitesCount(config.sites, |config.routes|);
    if i < |config.routes| { LegacyAt(config.routes, i); }
    if s < |config.sites| && j < |Names(config.sites[s])| && k < |config.sites[s].routes| {
      SitesAt(config.sites, |config.routes|, s, j, k);
    }
  }

  // ---------- eligibility ----------

  predicate EndsWith(s: Bytes, suffix: Bytes) { |s| >= |suffix| && s[|s| - |suffix|..] == suffix }

  predicate IsWildcardHost(pattern: Bytes) { "*." <= pattern }

  predicate HostMatches(pattern: Bytes, host: Bytes) {
    if pattern == "*" then true
    else if IsWildcardHost(pattern) then
      var suffix := pattern[2..];
      |host| > |suffix| && EndsWith(host, suffix) && host[|host| - |suffix| - 1] == '.'
    else EqualIgnoringCase(pattern, host)
  }

  /** Any host, then subdomain patterns by suffix length, then plain hosts by length. */
  function HostSpecificity(pattern: Bytes): (nat, nat) {
    if pattern == "*" then (0, 0)
    else if IsWildcardHost(pattern) then (1, |pattern| - 2)
    else (2, |pattern|)
  }

  predicate PathMatches(route: RuntimeRoute, path: Bytes) {
    match route.matchKind
    case Exact => path == route.path
    case Prefix => route.path <= path
    case BoundaryPrefix =>
      route.path == "/" || path == route.path
      || (route.path <= path && |path| > |route.path| && path[|route.path|] == '/')
  }

  predicate Eligible(route: RuntimeRoute, request: Request) {
    && HostMatches(route.host, request.host)
    && PathMatches(route, request.routingPath)
    && (route.methods == [] || request.verb in route.methods)
    && (route.schemes == [] || request.scheme in route.schemes)
  }

  // ---------- what the best route is ----------

  predicate PairLess(a: (nat, nat), b: (nat, nat)) { a.0 < b.0 || (a.0 == b.0 && a.1 < b.1) }

  /** Host specificity, then exactness, then path length, then earlier declaration. */
  predicate Better(a: RuntimeRoute, b: RuntimeRoute) {
    var (sa, sb) := (HostSpecificity(a.host), HostSpecificity(b.host));
    if sa != sb then PairLess(sb, sa)
    else if a.matchKind.Exact? != b.matchKind.Exact? then a.matchKind.Exact?
    else if |a.path| != |b.path| then |a.path| > |b.path|
    else a.declarationOrder < b.declarationOrder
  }

  predicate Best(routes: seq<RuntimeRoute>, request: Request, i: nat) {
    && i < |routes| && Eligible(routes[i], request)
    && forall j :: 0 <= j < |routes| && j != i && Eligible(routes[j], request) ==> Better(routes[i], routes[j])
  }

  predicate IsChoice(routes: seq<RuntimeRoute>, request: Request, choice: Option<nat>) {
    match choice
    case None => forall j :: 0 <= j < |routes| ==> !Eligible(routes[j], request)
    case Some(i) => Best(routes, request, i)
  }

  lemma BetterTransitive(a: RuntimeRoute, b: RuntimeRoute, c: RuntimeRoute)
    requires Better(a, b) && Better(b, c)
    ensures Better(a, c)
  {
  }

  lemma BetterTotal(a: RuntimeRoute, b: RuntimeRoute)
    requires a.declarationOrder != b.declarationOrder
    ensures Better(a, b) != Better(b, a)
  {
  }

  /** A table with distinct declaration orders has at most one choice for a request. */
  lemma ChoiceUnique(routes: seq<RuntimeRoute>, request: Request, a: Option<nat>, b: Option<nat>)
    requires DistinctOrders(routes)
    requires IsChoice(routes, request, a) && IsChoice(routes, request, b)
    ensures a == b
  {
    if a.Some? && b.Some? && a != b {
      BetterTotal(routes[a.value], routes[b.value]);
    }
  }

  // ---------- what it is to be chosen ----------

  /** Any host, this host in any case, or a host below the one after `*.`. */
  ghost predicate HostServes(pattern: Bytes, host: Bytes) {
    || pattern == "*"
    || (!("*." <= pattern) && EqualIgnoringCase(pattern, host))
    || exists below, parent :: pattern == "*." + parent && host == below + "." + parent
  }

  /** This path, every path it begins, or every path whose whole parts it begins. */
  ghost predicate PathServes(route: RuntimeRoute, path: Bytes) {
    match route.matchKind
    case Exact => route.path == path
    case Prefix => exists rest :: path == route.path + rest
    case BoundaryPrefix => route.path == "/" || route.path == path || exists rest :: path == route.path + "/" + rest
  }

  ghost predicate Serves(route: RuntimeRoute, request: Request) {
    && HostServes(route.host, request.host) && PathServes(route, request.routingPath)
    && (route.methods != [] ==> exists i :: 0 <= i < |route.methods| && route.methods[i] == request.verb)
    && (route.schemes != [] ==> exists i :: 0 <= i < |route.schemes| && route.schemes[i] == request.scheme)
  }

  predicate AnyHost(pattern: Bytes) { pattern == "*" }

  predicate BelowHost(pattern: Bytes) { |pattern| >= 2 && pattern[0] == '*' && pattern[1] == '.' }

  /** A plain host before a subdomain pattern before any host, then the longer pattern, then an exact path, then the
      longer path, then the earlier declaration. */
  predicate Ahead(a: RuntimeRoute, b: RuntimeRoute) {
    if AnyHost(a.host) != AnyHost(b.host) then AnyHost(b.host)
    else if BelowHost(a.host) != BelowHost(b.host) then BelowHost(b.host)
    else if |a.host| != |b.host| then |a.host| > |b.host|
    else if (a.matchKind == Exact) != (b.matchKind == Exact) then a.matchKind == Exact
    else if |a.path| != |b.path| then |b.path| < |a.path|
    else a.declarationOrder < b.declarationOrder
  }

  lemma HostMeans(pattern: Bytes, host: Bytes)
    ensures HostMatches(pattern, host) <==> HostServes(pattern, host)
  {
    if "*." <= pattern {
      var parent := pattern[2..];
      assert pattern == "*." + parent;
      if HostMatches(pattern, host) {
        var below := host[..|host| - |parent| - 1];
        assert host == below + "." + parent;
      }
    }
  }

  /** In a host name something stands before the dot. */
  lemma BelowIsProper(below: Bytes, parent: Bytes)
    ensures LowerDnsName(below + "." + parent) ==> below != []
  {
    if below == [] { DotFirst(below + "." + parent); }
  }

  lemma DotFirst(host: Bytes)
    requires host != [] && host[0] == '.'
    ensures !LowerDnsName(host)
  {
    SplitStep(host, '.', 0);
    assert !LowerDnsLabel([]);
    assert Split(host, '.')[0] == [] && Split(host, '.')[0] in Split(host, '.');
  }

  lemma PathMeans(route: RuntimeRoute, path: Bytes)
    ensures PathMatches(route, path) <==> PathServes(route, path)
  {
    if route.path <= path {
      var rest := path[|route.path|..];
      assert path == route.path + rest;
      if rest != [] && rest[0] == '/' { assert path == route.path + "/" + rest[1..]; }
    }
  }

  lemma EligibleMeans(route: RuntimeRoute, request: Request)
    ensures Eligible(route, request) <==> Serves(route, request)
  {
    HostMeans(route.host, request.host);
    PathMeans(route, request.routingPath);
    hide HostMatches;
    hide HostServes;
    hide PathMatches;
    hide PathServes;
  }

  lemma BetterMeans(a: RuntimeRoute, b: RuntimeRoute)
    ensures Better(a, b) <==> Ahead(a, b)
  {
  }

  /** The chosen route serves the request and is ahead of every other one that does; nothing is chosen exactly when no
      route serves it. */
  lemma ChoiceMeans(routes: seq<RuntimeRoute>, request: Request, choice: Option<nat>)
    ensures IsChoice(routes, request, choice) <==>
      match choice
      case None => forall j :: 0 <= j < |routes| ==> !Serves(routes[j], request)
      case Some(i) =>
        && i < |routes| && Serves(routes[i], request)
        && forall j :: 0 <= j < |routes| && j != i && Serves(routes[j], request) ==> Ahead(routes[i], routes[j])
  {
    hide Eligible;
    hide Serves;
    hide Better;
    hide Ahead;
    forall j | 0 <= j < |routes| ensures Eligible(routes[j], request) <==> Serves(routes[j], request) {
      EligibleMeans(routes[j], request);
    }
    forall i, j | 0 <= i < |routes| && 0 <= j < |routes| ensures Better(routes[i], routes[j]) <==> Ahead(routes[i], routes[j]) {
      BetterMeans(routes[i], routes[j]);
    }
  }

  // ---------- the two selections ----------

  method SelectRouteFold(routes: seq<RuntimeRoute>, request: Request) returns (winner: Option<nat>)
    requires DistinctOrders(routes)
    ensures IsChoice(routes, request, winner)
  {
    hide Eligible;
    hide DistinctOrders;
    winner := None;
    for index := 0 to |routes|
      invariant winner.Some? ==> winner.value < index
      invariant IsChoice(routes[..index], request, winner)
    {
      var route := routes[index];
      ghost var before := winner;
      if Eligible(route, request) {
        if winner.None? {
          winner := Some(index);
        } else {
          var current := routes[winner.value];
          var routeSpecificity, currentSpecificity := HostSpecificity(route.host), HostSpecificity(current.host);
          if routeSpecificity != currentSpecificity {
            if PairLess(currentSpecificity, routeSpecificity) { winner := Some(index); }
          } else if route.matchKind.Exact? != current.matchKind.Exact? {
            if route.matchKind.Exact? { winner := Some(index); }
          } else if |route.path| != |current.path| {
            if |route.path| > |current.path| { winner := Some(index); }
          } else if route.declarationOrder < current.declarationOrder {
            winner := Some(index);
          }
        }
      }
      ExtendChoice(routes, request, index, before, winner);
    }
    assert routes[..|routes|] == routes;
  }

  lemma ExtendChoice(routes: seq<RuntimeRoute>, request: Request, index: nat, before: Option<nat>, after: Option<nat>)
    requires DistinctOrders(routes) && index < |routes| && IsChoice(routes[..index], request, before)
    requires !Eligible(routes[index], request) ==> after == before
    requires Eligible(routes[index], request) ==>
      after == if before.None? || Better(routes[index], routes[before.value]) then Some(index) else before
    ensures IsChoice(routes[..index + 1], request, after)
  {
    var shorter, longer := routes[..index], routes[..index + 1];
    assert forall j :: 0 <= j < index ==> longer[j] == shorter[j];
    if Eligible(routes[index], request) && before.Some? {
      var held := shorter[before.value];
      BetterTotal(routes[index], held);
      if Better(routes[index], held) {
        forall j | 0 <= j < index && Eligible(longer[j], request) ensures Better(routes[index], longer[j]) {
          if j != before.value { BetterTransitive(routes[index], held, shorter[j]); }
        }
      }
    }
  }

  datatype Candidate = Candidate(index: nat, route: RuntimeRoute)

  ghost predicate Sorted(candidates: seq<Candidate>) {
    forall i, j :: 0 <= i < j < |candidates| ==> !Better(candidates[j].route, candidates[i].route)
  }

  predicate Ranked(a: Candidate, b: Candidate) { !Better(b.route, a.route) }

  method SortUnstable(candidates: seq<Candidate>) returns (sorted: seq<Candidate>)
    ensures multiset(sorted) == multiset(candidates) && Sorted(sorted)
  {
    sorted := Sorting.Sort(candidates, Ranked);
  }

  method SelectRouteSorted(routes: seq<RuntimeRoute>, request: Request) returns (winner: Option<nat>)
    requires DistinctOrders(routes)
    ensures IsChoice(routes, request, winner)
  {
    var candidates: seq<Candidate> := [];
    for index := 0 to |routes|
      invariant forall c :: c in candidates <==>
        c.index < index && c.route == routes[c.index] && Eligible(routes[c.index], request)
    {
      if Eligible(routes[index], request) {
        candidates := candidates + [Candidate(index, routes[index])];
      }
    }
    var sorted := SortUnstable(candidates);
    assert forall c :: c in sorted <==> c in multiset(sorted);
    assert forall c :: c in candidates <==> c in multiset(candidates);
    if sorted == [] {
      forall j | 0 <= j < |routes| ensures !Eligible(routes[j], request) {
        assert Candidate(j, routes[j]) !in sorted;
      }
      return None;
    }
    var first := sorted[0];
    forall j | 0 <= j < |routes| && j != first.index && Eligible(routes[j], request)
      ensures Better(first.route, routes[j])
    {
      var c := Candidate(j, routes[j]);
      assert c in candidates && c in sorted;
      var k :| 0 <= k < |sorted| && sorted[k] == c;
      BetterTotal(first.route, routes[j]);
    }
    return Some(first.index);
  }

  datatype Selection = Selected(route: RuntimeRoute) | NoRoute | Disagreement

  /** Both selections run on every request; on a compiled table they cannot differ. */
  method SelectRuntimeRoute(routes: seq<RuntimeRoute>, request: Request) returns (selection: Selection)
    requires DistinctOrders(routes)
    ensures !selection.Disagreement?
    ensures selection.NoRoute? <==> IsChoice(routes, request, None)
    ensures selection.Selected? ==> exists i: nat :: Best(routes, request, i) && selection.route == routes[i]
    ensures selection.NoRoute? <==> forall route :: route in routes ==> !Serves(route, request)
    ensures selection.Selected? ==>
      && selection.route in routes && Serves(selection.route, request)
      && forall route :: route in routes && Serves(route, request) && route != selection.route ==> Ahead(selection.route, route)
  {
    hide Serves;
    hide Ahead;
    hide Best;
    hide DistinctOrders;
    var folded := SelectRouteFold(routes, request);
    var sorted := SelectRouteSorted(routes, request);
    ChoiceUnique(routes, request, folded, sorted);
    if folded != sorted {
      return Selection.Disagreement;
    }
    ChoiceMeans(routes, request, folded);
    ChoiceMeans(routes, request, None);
    match folded
    case None => selection := Selection.NoRoute;
    case Some(i) => selection := Selected(routes[i]);
  }
}
