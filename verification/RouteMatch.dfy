/** Matching a request to an upstream: bounded validation of every rule and one running winner. */
module RouteMatch {
  import opened Bytes
  import D = DeclarationOrders
  import opened Http
  import PercentEncoding

  const MAX_ROUTES := 256
  const MAX_PREFIX_BYTES := 8_192
  const MAX_UPSTREAM_BYTES := 64

  datatype RouteRule = RouteRule(host: Bytes, pathPrefix: Bytes, upstream: Bytes, declarationOrder: nat)

  datatype Matched = Matched(upstream: Bytes, declarationOrder: nat)

  // ---------- rules ----------

  predicate HostOk(text: Bytes, ipv6: Ipv6) {
    var opens, closes := text != [] && text[0] == '[', text != [] && text[|text| - 1] == ']';
    if opens && closes then
      |text| > 2 && (var literal := text[1..|text| - 1]; '%' !in literal && NoUpper(literal) && ipv6(literal))
    else if opens || closes then false
    else LowerDnsName(text)
  }

  /** A canonical escape: upper-case digits of an octet that needs one and may appear in a path. */
  predicate PrefixEscape(text: Bytes, i: nat) {
    && i + 2 < |text| && IsUpperHexDigit(text[i + 1]) && IsUpperHexDigit(text[i + 2])
    && var octet := PercentEncoding.Octet(text[i + 1], text[i + 2]);
       !IsControl(octet) && octet != '\\' && !IsUnreserved(octet)
  }

  predicate PrefixBytesOk(text: Bytes, i: nat)
    requires i <= |text|
    decreases |text| - i
  {
    if i == |text| then true
    else if text[i] == '%' then PrefixEscape(text, i) && PrefixBytesOk(text, i + 3)
    else IsVisible(text[i]) && text[i] != '?' && text[i] != '#' && text[i] != '\\' && PrefixBytesOk(text, i + 1)
  }

  predicate PrefixOk(text: Bytes) {
    && 1 <= |text| <= MAX_PREFIX_BYTES && text[0] == '/' && (text == "/" || text[|text| - 1] != '/')
    && PrefixBytesOk(text, 0)
    && forall part :: part in Split(text[1..], '/') ==> part != "." && part != ".."
  }

  predicate UpstreamOk(text: Bytes) {
    && 1 <= |text| <= MAX_UPSTREAM_BYTES
    && forall i :: 0 <= i < |text| ==> IsAlphanumeric(text[i]) || text[i] == '_' || text[i] == '.' || text[i] == '-'
  }

  function RuleFault(rule: RouteRule, ipv6: Ipv6): Option<Reason> {
    if !HostOk(rule.host, ipv6) then Some(InvalidHost)
    else if !PrefixOk(rule.pathPrefix) then Some(InvalidPathPrefix)
    else if !UpstreamOk(rule.upstream) then Some(InvalidUpstream)
    else None
  }

  predicate OrderUsed(rules: seq<RouteRule>, n: nat, order: nat)
    requires n <= |rules|
  {
    exists k :: 0 <= k < n && rules[k].declarationOrder == order
  }

  /** The first thing wrong with the rules from `i` on, in the order in which they are declared. */
  function FirstFault(rules: seq<RouteRule>, i: nat, ipv6: Ipv6): Option<Reason>
    requires i <= |rules|
    decreases |rules| - i
  {
    if i == |rules| then None
    else if RuleFault(rules[i], ipv6).Some? then RuleFault(rules[i], ipv6)
    else if OrderUsed(rules, i, rules[i].declarationOrder) then Some(DuplicateDeclarationOrder)
    else FirstFault(rules, i + 1, ipv6)
  }

  ghost predicate DistinctOrders(rules: seq<RouteRule>) {
    forall i, j :: 0 <= i < j < |rules| ==> rules[i].declarationOrder != rules[j].declarationOrder
  }

  /** Faultless rules are each well formed and have distinct declaration orders; nothing else is asked of them. */
  lemma {:induction false} Faultless(rules: seq<RouteRule>, i: nat, ipv6: Ipv6)
    requires i <= |rules|
    ensures FirstFault(rules, i, ipv6).None? <==>
      && (forall k :: i <= k < |rules| ==> RuleFault(rules[k], ipv6).None?)
      && (forall j, k :: 0 <= j < k && i <= k < |rules| ==> rules[j].declarationOrder != rules[k].declarationOrder)
    decreases |rules| - i
  {
    if i < |rules| {
      Faultless(rules, i + 1, ipv6);
      if OrderUsed(rules, i, rules[i].declarationOrder) {
        var j :| 0 <= j < i && rules[j].declarationOrder == rules[i].declarationOrder;
      }
    }
  }

  // ---------- eligibility and rank ----------

  predicate PrefixMatches(prefix: Bytes, path: Bytes) {
    prefix == "/" || (prefix <= path && (|path| == |prefix| || path[|prefix|] == '/'))
  }

  predicate Eligible(rule: RouteRule, host: Bytes, path: Bytes) {
    EqualIgnoringCase(rule.host, host) && PrefixMatches(rule.pathPrefix, path)
  }

  /** A longer prefix wins, and of equal ones the rule declared earlier. */
  predicate Outranks(a: RouteRule, b: RouteRule) {
    |a.pathPrefix| > |b.pathPrefix| || (|a.pathPrefix| == |b.pathPrefix| && a.declarationOrder < b.declarationOrder)
  }

  ghost predicate IsWinner(rules: seq<RouteRule>, n: nat, host: Bytes, path: Bytes, winner: Option<RouteRule>)
    requires n <= |rules|
  {
    match winner
    case None => forall k :: 0 <= k < n ==> !Eligible(rules[k], host, path)
    case Some(rule) =>
      && (exists k :: 0 <= k < n && rules[k] == rule) && Eligible(rule, host, path)
      && forall k :: 0 <= k < n && Eligible(rules[k], host, path) ==> rules[k] == rule || Outranks(rule, rules[k])
  }

  lemma WinnerUnique(rules: seq<RouteRule>, host: Bytes, path: Bytes, a: Option<RouteRule>, b: Option<RouteRule>)
    requires IsWinner(rules, |rules|, host, path, a) && IsWinner(rules, |rules|, host, path, b)
    ensures a == b
  {
  }

  /** There is one winner, and it does not depend on the order in which the rules are listed. */
  lemma ListingOrderIsIrrelevant(rules: seq<RouteRule>, shuffled: seq<RouteRule>, host: Bytes, path: Bytes, winner: Option<RouteRule>)
    requires multiset(rules) == multiset(shuffled)
    ensures IsWinner(rules, |rules|, host, path, winner) <==> IsWinner(shuffled, |shuffled|, host, path, winner)
    ensures IsWinner(rules, |rules|, host, path, winner) ==>
      forall other :: IsWinner(shuffled, |shuffled|, host, path, other) ==> other == winner
  {
    SameRules(rules, shuffled);
    SameRules(shuffled, rules);
    if IsWinner(rules, |rules|, host, path, winner) {
      forall other | IsWinner(shuffled, |shuffled|, host, path, other) ensures other == winner {
        WinnerUnique(shuffled, host, path, other, winner);
      }
    }
  }

  lemma SameRules(rules: seq<RouteRule>, shuffled: seq<RouteRule>)
    requires multiset(rules) == multiset(shuffled)
    ensures forall k :: 0 <= k < |rules| ==> exists j :: 0 <= j < |shuffled| && shuffled[j] == rules[k]
  {
    forall k | 0 <= k < |rules| ensures exists j :: 0 <= j < |shuffled| && shuffled[j] == rules[k] {
      assert rules[k] in multiset(rules);
      assert rules[k] in multiset(shuffled);
      assert rules[k] in shuffled;
      var j :| 0 <= j < |shuffled| && shuffled[j] == rules[k];
    }
  }

  /** A shuffled list is accepted exactly when the list is: the faults do not depend on the order either. */
  lemma FaultlessWhenShuffled(rules: seq<RouteRule>, shuffled: seq<RouteRule>, ipv6: Ipv6)
    requires multiset(rules) == multiset(shuffled) && FirstFault(rules, 0, ipv6).None?
    ensures FirstFault(shuffled, 0, ipv6).None?
  {
    Faultless(rules, 0, ipv6);
    Faultless(shuffled, 0, ipv6);
    SameRules(shuffled, rules);
    forall i, j | 0 <= i < j < |shuffled| ensures shuffled[i].declarationOrder != shuffled[j].declarationOrder {
      if shuffled[i].declarationOrder == shuffled[j].declarationOrder {
        TwiceIn(rules, shuffled, i, j);
      }
    }
  }

  lemma TwiceIn(rules: seq<RouteRule>, shuffled: seq<RouteRule>, i: nat, j: nat)
    requires multiset(rules) == multiset(shuffled) && i < j < |shuffled|
    requires shuffled[i].declarationOrder == shuffled[j].declarationOrder
    ensures !DistinctOrders(rules)
  {
    var a, b := shuffled[i], shuffled[j];
    var head, tail := shuffled[..j], shuffled[j..];
    assert shuffled == head + tail;
    assert head[i] == a && tail[0] == b;
    assert multiset(shuffled)[a] >= 1 && multiset(shuffled)[b] >= 1;
    assert a == b ==> multiset(shuffled)[a] >= 2;
    SameRules(shuffled, rules);
    var p :| 0 <= p < |rules| && rules[p] == a;
    var q :| 0 <= q < |rules| && rules[q] == b;
    if a == b {
      var m, n := Repeated(rules, a);
      assert rules[m].declarationOrder == rules[n].declarationOrder;
    } else {
      var x, y := if p < q then p else q, if p < q then q else p;
      assert x < y && rules[x].declarationOrder == rules[y].declarationOrder;
    }
  }

  lemma {:induction false} Repeated(rules: seq<RouteRule>, rule: RouteRule) returns (m: nat, n: nat)
    requires multiset(rules)[rule] >= 2
    ensures m < n < |rules| && rules[m] == rule && rules[n] == rule
  {
    var init, last := rules[..|rules| - 1], rules[|rules| - 1];
    assert rules == init + [last];
    if last == rule {
      assert rule in multiset(init);
      m :| 0 <= m < |init| && init[m] == rule;
      n := |rules| - 1;
    } else {
      m, n := Repeated(init, rule);
    }
  }

  // ---------- what it is to win ----------

  /** The rule's host is the request's, and the parts of its prefix are the first parts of the path. */
  predicate Serves(rule: RouteRule, host: Bytes, path: Bytes) {
    && rule.pathPrefix != [] && path != [] && EqualIgnoringCase(rule.host, host)
    && (rule.pathPrefix == "/" || Split(rule.pathPrefix[1..], '/') <= Split(path[1..], '/'))
  }

  lemma EligibleMeans(rule: RouteRule, host: Bytes, path: Bytes)
    requires PrefixOk(rule.pathPrefix) && path != [] && path[0] == '/'
    ensures Eligible(rule, host, path) <==> Serves(rule, host, path)
  {
    var prefix := rule.pathPrefix;
    assert prefix[0] == '/';
    SplitPrefix(prefix[1..], path[1..], '/');
    hide PrefixOk;
    hide Split;
    assert prefix == [prefix[0]] + prefix[1..] && path == [path[0]] + path[1..];
    assert prefix[1..] <= path[1..] <==> prefix <= path;
    assert prefix[1..] == path[1..] <==> prefix == path;
    assert |prefix| < |path| ==> path[1..][|prefix| - 1] == path[|prefix|];
  }

  /** The rule serves the request, and every other one that does has a shorter prefix, or an equally long one and was
      declared later. */
  ghost predicate Wins(best: RouteRule, rules: seq<RouteRule>, host: Bytes, path: Bytes) {
    && best in rules && Serves(best, host, path)
    && forall rule :: rule in rules && Serves(rule, host, path) && rule != best ==>
         || |rule.pathPrefix| < |best.pathPrefix|
         || (|rule.pathPrefix| == |best.pathPrefix| && best.declarationOrder < rule.declarationOrder)
  }

  /** There is no winner exactly when no rule serves the request. */
  lemma WinnerMeans(rules: seq<RouteRule>, host: Bytes, path: Bytes, winner: Option<RouteRule>, ipv6: Ipv6)
    requires FirstFault(rules, 0, ipv6).None? && path != [] && path[0] == '/'
    ensures IsWinner(rules, |rules|, host, path, winner) <==>
      match winner
      case None => forall rule :: rule in rules ==> !Serves(rule, host, path)
      case Some(best) => Wins(best, rules, host, path)
  {
    Faultless(rules, 0, ipv6);
    forall k | 0 <= k < |rules| ensures Eligible(rules[k], host, path) <==> Serves(rules[k], host, path) {
      assert RuleFault(rules[k], ipv6).None?;
      EligibleMeans(rules[k], host, path);
    }
    hide Eligible;
    hide Serves;
    hide FirstFault;
    hide RuleFault;
  }

  // ---------- matching ----------

  function Choose(current: Option<RouteRule>, challenger: RouteRule): Option<RouteRule> {
    if current.None? then Some(challenger)
    else
      var selected := current.value;
      if |challenger.pathPrefix| > |selected.pathPrefix| then Some(challenger)
      else if |challenger.pathPrefix| < |selected.pathPrefix| then current
      else if challenger.declarationOrder < selected.declarationOrder then Some(challenger)
      else current
  }

  lemma ChooseKeepsWinner(rules: seq<RouteRule>, n: nat, host: Bytes, path: Bytes, winner: Option<RouteRule>)
    requires n < |rules| && IsWinner(rules, n, host, path, winner)
    requires !OrderUsed(rules, n, rules[n].declarationOrder)
    ensures IsWinner(rules, n + 1, host, path, if Eligible(rules[n], host, path) then Choose(winner, rules[n]) else winner)
  {
    if winner.Some? {
      var k :| 0 <= k < n && rules[k] == winner.value;
      assert rules[n].declarationOrder != rules[k].declarationOrder;
    }
  }

  /** The table of declaration orders holds those of the first `n` rules. */
  ghost predicate Recorded(orders: D.Orders, rules: seq<RouteRule>, n: nat)
    requires n <= |rules|
    reads orders, orders.values, orders.occupied
  {
    orders.Valid() && forall order :: orders.View().Holds(order) <==> OrderUsed(rules, n, order)
  }

  ghost function OrdersOf(rules: seq<RouteRule>, n: nat): (orders: set<nat>)
    requires n <= |rules|
    ensures |orders| <= n
  {
    if n == 0 then {} else OrdersOf(rules, n - 1) + {rules[n - 1].declarationOrder}
  }

  lemma {:induction false} OrdersOfAll(rules: seq<RouteRule>, n: nat, order: nat)
    requires n <= |rules|
    ensures order in OrdersOf(rules, n) <==> OrderUsed(rules, n, order)
  {
    if n > 0 { OrdersOfAll(rules, n - 1, order); }
  }

  /** Fewer than 256 rules cannot fill the table. */
  lemma NotFull(t: D.Table, rules: seq<RouteRule>, n: nat)
    requires n < MAX_ROUTES && n <= |rules| && t.Ok() && forall order :: t.Holds(order) <==> OrderUsed(rules, n, order)
    ensures !t.Full()
  {
    if t.Full() {
      forall order | t.Holds(order) ensures order in OrdersOf(rules, n) {
        OrdersOfAll(rules, n, order);
      }
      D.FullHoldsAll(t, OrdersOf(rules, n));
    }
  }

  method Record(orders: D.Orders, rules: seq<RouteRule>, n: nat) returns (isNew: bool)
    requires n < |rules| && n < MAX_ROUTES && Recorded(orders, rules, n)
    modifies orders.values, orders.occupied
    ensures isNew <==> !OrderUsed(rules, n, rules[n].declarationOrder)
    ensures Recorded(orders, rules, n + 1)
  {
    ghost var t := orders.View();
    NotFull(t, rules, n);
    isNew := orders.Insert(rules[n].declarationOrder);
    forall order ensures orders.View().Holds(order) <==> OrderUsed(rules, n + 1, order) {
      assert t.Holds(order) <==> OrderUsed(rules, n, order);
      if order == rules[n].declarationOrder { assert rules[n].declarationOrder == order; }
    }
  }

  predicate HasRoutingPath(target: NormalizedTarget) {
    (target.form.Origin? || target.form.Absolute?) && target.routingPath != [] && target.routingPath[0] == '/'
  }

  /** The single best eligible rule of a faultless list; the first fault of any other. */
  method MatchRoute(host: Bytes, target: NormalizedTarget, rules: seq<RouteRule>, ipv6: Ipv6) returns (r: Result<Matched>)
    ensures |rules| > MAX_ROUTES ==> r == Err(LimitExceeded(RouteCount, MAX_ROUTES, |rules|))
    ensures |rules| <= MAX_ROUTES && !HasRoutingPath(target) ==> r == Err(InvalidRoute(InvalidRouteTarget))
    ensures |rules| <= MAX_ROUTES && HasRoutingPath(target) ==>
      match FirstFault(rules, 0, ipv6)
      case Some(reason) => r == Err(InvalidRoute(reason))
      case None =>
        if r.Ok? then
          exists rule :: IsWinner(rules, |rules|, host, target.routingPath, Some(rule))
                         && r.value == Matched(rule.upstream, rule.declarationOrder)
        else r == Err(NoRoute) && IsWinner(rules, |rules|, host, target.routingPath, None)
    ensures |rules| <= MAX_ROUTES && HasRoutingPath(target) && FirstFault(rules, 0, ipv6).None? ==>
      && (r == Err(NoRoute) <==> forall rule :: rule in rules ==> !Serves(rule, host, target.routingPath))
      && (r.Ok? ==> exists best ::
            Wins(best, rules, host, target.routingPath) && r.value == Matched(best.upstream, best.declarationOrder))
  {
    if |rules| > MAX_ROUTES { return Err(LimitExceeded(RouteCount, MAX_ROUTES, |rules|)); }
    if !HasRoutingPath(target) { return Err(InvalidRoute(InvalidRouteTarget)); }
    var path := target.routingPath;
    var orders := new D.Orders();
    var winner: Option<RouteRule> := None;
    for n := 0 to |rules|
      invariant fresh(orders.values) && fresh(orders.occupied) && Recorded(orders, rules, n)
      invariant FirstFault(rules, n, ipv6) == FirstFault(rules, 0, ipv6)
      invariant IsWinner(rules, n, host, path, winner)
    {
      var rule := rules[n];
      if !HostOk(rule.host, ipv6) { return Err(InvalidRoute(InvalidHost)); }
      if !PrefixOk(rule.pathPrefix) { return Err(InvalidRoute(InvalidPathPrefix)); }
      if !UpstreamOk(rule.upstream) { return Err(InvalidRoute(InvalidUpstream)); }
      var isNew := Record(orders, rules, n);
      if !isNew { return Err(InvalidRoute(DuplicateDeclarationOrder)); }
      ChooseKeepsWinner(rules, n, host, path, winner);
      if EqualIgnoringCase(rule.host, host) && PrefixMatches(rule.pathPrefix, path) {
        winner := Choose(winner, rule);
      }
    }
    WinnerMeans(rules, host, path, winner, ipv6);
    if winner.None? { return Err(NoRoute); }
    return Ok(Matched(winner.value.upstream, winner.value.declarationOrder));
  }
}
