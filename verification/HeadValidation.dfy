/** The checks every head printer makes before it writes anything. */
module HeadValidation {
  import opened Bytes
  import opened CanonicalHead
  import opened HeaderPrinting
  import opened Http
  import opened NameLists
  import PercentEncoding
  import R = RequestTarget
  import W = Words

  const WORD := 128

  // ---------- the mask of retained fields ----------

  /** The bits below `n` say which of the first `n` fields survive. */
  ghost predicate Marks(mask: nat, fields: seq<HeaderField>, n: nat) {
    n <= |fields| && forall i :: 0 <= i < n ==> (W.BitAt(mask, i) <==> SurvivorOf(fields[i].name) == Retain)
  }

  lemma ShiftOne(n: nat, width: nat)
    requires n < width
    ensures W.Shl(1, n, width) == W.Pow2(n) < W.Pow2(width)
  {
    W.PowMonotone(n + 1, width);
    W.ShlFits(1, n, width);
  }

  /** A word with one bit set. */
  function Bit(n: nat): (word: nat)
    requires n < WORD
    ensures word == W.Pow2(n)
  {
    ShiftOne(n, WORD);
    W.Shl(1, n, WORD)
  }

  lemma MarkOne(mask: nat, fields: seq<HeaderField>, i: nat)
    requires i < |fields| && i < WORD && Marks(mask, fields, i) && mask < W.Pow2(i)
    ensures SurvivorOf(fields[i].name) == Retain ==>
      Marks(W.BitOr(mask, Bit(i)), fields, i + 1) && W.BitOr(mask, Bit(i)) < W.Pow2(i + 1)
    ensures SurvivorOf(fields[i].name) != Retain ==> Marks(mask, fields, i + 1) && mask < W.Pow2(i + 1)
  {
    var joined := W.BitOr(mask, W.Pow2(i));
    forall k | 0 <= k <= i ensures W.BitAt(joined, k) <==> W.BitAt(mask, k) || k == i {
      W.OrBits(mask, W.Pow2(i), k);
      W.PowBits(i, k);
    }
    W.OrFits(mask, W.Pow2(i), i + 1);
    assert mask / W.Pow2(i) == 0 by { W.Quotient(mask, W.Pow2(i), 0, mask); }
    W.BitIsQuotient(mask, i);
  }

  /** Testing a bit of the mask. */
  method IsMarked(mask: nat, fields: seq<HeaderField>, i: nat) returns (retained: bool)
    requires Marks(mask, fields, |fields|) && i < |fields| <= WORD
    ensures retained <==> SurvivorOf(fields[i].name) == Retain
  {
    W.AndBit(mask, i);
    retained := W.BitAnd(mask, Bit(i)) != 0;
  }

  /** One pass over the fields fills the mask; a second pass over the removed names compares neighbours. */
  method ValidateFields(headers: SanitizedHeaders) returns (mask: Option<nat>)
    ensures mask.Some? <==> HeadersOk(headers)
    ensures mask.Some? ==> Marks(mask.value, headers.fields, |headers.fields|)
  {
    hide CanonicalField;
    hide CanonicalName;
    hide SurvivorOf;
    var fields := headers.fields;
    if |fields| > FIELD_COUNT_MAX { return None; }
    var retained: nat := 0;
    for i := 0 to |fields|
      invariant Marks(retained, fields, i) && retained < W.Pow2(i)
      invariant forall k :: 0 <= k < i ==> CanonicalField(fields[k]) && SurvivorOf(fields[k].name) != Reject
    {
      if !CanonicalField(fields[i]) { return None; }
      MarkOne(retained, fields, i);
      match SurvivorOf(fields[i].name) {
        case Retain => retained := W.BitOr(retained, Bit(i));
        case Replace =>
        case Reject => return None;
      }
    }
    var ordered := ValidateRemoved(headers.removedNames);
    return if ordered then Some(retained) else None;
  }

  method ValidateRemoved(names: seq<Bytes>) returns (ok: bool)
    ensures ok <==> (forall i :: 0 <= i < |names| ==> CanonicalName(names[i])) && StrictlyIncreasing(names)
  {
    var previous: Option<Bytes> := None;
    for i := 0 to |names|
      invariant forall k :: 0 <= k < i ==> CanonicalName(names[k])
      invariant StrictlyIncreasing(names[..i])
      invariant previous == if i == 0 then None else Some(names[i - 1])
    {
      if !CanonicalName(names[i]) { return false; }
      if previous.Some? && Lexicographic(names[i], previous.value) {
        OutOfOrder(names, i);
        return false;
      }
      InOrderSoFar(names, i);
      previous := Some(names[i]);
    }
    assert names[..|names|] == names;
    return true;
  }

  lemma OutOfOrder(names: seq<Bytes>, i: nat)
    requires 0 < i < |names| && Lexicographic(names[i], names[i - 1])
    ensures !StrictlyIncreasing(names)
  {
    var before, after := names[i - 1], names[i];
    if Lexicographic(before, after) { Antisymmetric(before, after); }
  }

  lemma InOrderSoFar(names: seq<Bytes>, i: nat)
    requires i < |names| && StrictlyIncreasing(names[..i])
    requires i > 0 ==> !Lexicographic(names[i], names[i - 1])
    ensures StrictlyIncreasing(names[..i + 1])
  {
    var longer := names[..i + 1];
    forall a, b | 0 <= a < b < |longer| ensures Lexicographic(longer[a], longer[b]) && longer[a] != longer[b] {
      if b == i {
        Total(names[i], names[i - 1]);
        Reflexive(names[i]);
        if a < i - 1 {
          assert names[..i][a] == names[a] && names[..i][i - 1] == names[i - 1];
          Transitive(names[a], names[i - 1], names[i]);
        }
      } else {
        assert names[..i][a] == names[a] && names[..i][b] == names[b];
      }
    }
  }

  // ---------- the path ----------

  /** A cursor walks the escapes. */
  method ValidateEscapes(text: Bytes, query: nat) returns (ok: bool)
    ensures ok <==> EscapesOk(text, 0, query)
  {
    var cursor: nat := 0;
    while cursor < |text|
      invariant cursor <= |text|
      invariant EscapesOk(text, 0, query) <==> EscapesOk(text, cursor, query)
    {
      if text[cursor] != '%' {
        cursor := cursor + 1;
        continue;
      }
      if cursor + 3 > |text| { return false; }
      if !IsUpperHexDigit(text[cursor + 1]) || !IsUpperHexDigit(text[cursor + 2]) { return false; }
      var decoded := PercentEncoding.Octet(text[cursor + 1], text[cursor + 2]);
      if IsControl(decoded) || IsUnreserved(decoded) || (cursor < query && (decoded == '/' || decoded == '\\')) {
        return false;
      }
      cursor := cursor + 3;
    }
    return true;
  }

  /** Everything about a path but its escapes. */
  method PathShape(pathAndQuery: Bytes, routingPath: Bytes) returns (query: Option<nat>)
    ensures query.None? ==> !PathOk(pathAndQuery, routingPath)
    ensures query.Some? ==> (PathOk(pathAndQuery, routingPath) <==> EscapesOk(pathAndQuery, 0, query.value))
  {
    if pathAndQuery == [] || |pathAndQuery| > TARGET_MAX || pathAndQuery[0] != '/'
       || exists i :: 0 <= i < |pathAndQuery| && R.BadTargetByte(pathAndQuery[i])
    {
      return None;
    }
    var cut := IndexOf(pathAndQuery, '?');
    IndexOfFirst(pathAndQuery, '?');
    if routingPath != pathAndQuery[..cut] { return None; }
    var parts := Split(pathAndQuery[1..cut], '/');
    if exists i :: 0 <= i < |parts| && (parts[i] == "." || parts[i] == "..") {
      var i :| 0 <= i < |parts| && (parts[i] == "." || parts[i] == "..");
      assert parts[i] in parts;
      return None;
    }
    return Some(cut);
  }

  method ValidatePath(pathAndQuery: Bytes, routingPath: Bytes) returns (ok: bool)
    ensures ok <==> PathOk(pathAndQuery, routingPath)
  {
    hide PathOk;
    var query := PathShape(pathAndQuery, routingPath);
    if query.None? { return false; }
    ok := ValidateEscapes(pathAndQuery, query.value);
  }

  datatype Validated = Validated(host: Host, retained: nat)

  /** Every part is checked; one failure and nothing is printed. */
  method Validate(m: Model, ipv6: Ipv6) returns (r: Option<Validated>)
    ensures r.Some? <==> Trusted(m, ipv6)
    ensures r.Some? ==> HostOf(m.authority.host, ipv6) == Some(r.value.host)
    ensures r.Some? ==> Marks(r.value.retained, m.headers.fields, |m.headers.fields|)
  {
    if !VerbOk(m.verb) || m.authority.port == Some(0) { return None; }
    var host := HostOf(m.authority.host, ipv6);
    if host.None? || !FormOk(m.target, host.value, m.authority.port, ipv6) { return None; }
    var path := ValidatePath(m.target.pathAndQuery, m.target.routingPath);
    if !path { return None; }
    var retained := ValidateFields(m.headers);
    if retained.None? || !ForwardingOk(m.forwarding) || !FramingOk(m.framing) { return None; }
    return Some(Validated(host.value, retained.value));
  }
}
