/** What an accepted authority is, and its canonical spelling. */
module Authorities {
  import opened Bytes
  import opened Decimals
  import opened Http
  import opened RequestTarget

  // ---------- case does not change the parts ----------

  function LowerParts(parts: seq<Bytes>): (r: seq<Bytes>)
    ensures |r| == |parts| && forall i :: 0 <= i < |parts| ==> r[i] == LowerAll(parts[i])
  {
    if parts == [] then [] else [LowerAll(parts[0])] + LowerParts(parts[1..])
  }

  lemma {:induction false} SplitLowered(s: Bytes, c: Byte)
    requires !IsUpper(c) && !IsLower(c)
    ensures Split(LowerAll(s), c) == LowerParts(Split(s, c))
    decreases |s|
  {
    hide Split;
    var i, lower := IndexOf(s, c), LowerAll(s);
    IndexOfFirst(s, c);
    assert forall k :: 0 <= k < |s| ==> (lower[k] == c <==> s[k] == c);
    if i < |s| {
      SplitStep(s, c, i);
      SplitStep(lower, c, i);
      LowerOfSlice(s, 0, i);
      LowerOfSlice(s, i + 1, |s|);
      assert lower[..i] == lower[0..i] && s[..i] == s[0..i] && lower[i + 1..] == lower[i + 1..|s|] && s[i + 1..] == s[i + 1..|s|];
      SplitLowered(s[i + 1..], c);
    } else {
      SplitLast(s, c);
      SplitLast(lower, c);
    }
  }

  lemma LabelLowered(part: Bytes)
    ensures DnsLabel(part) <==> LowerDnsLabel(LowerAll(part))
  {
    var lower := LowerAll(part);
    if LowerDnsLabel(lower) {
      forall i | 0 <= i < |part| ensures IsAlphanumeric(part[i]) || part[i] == '-' { assert lower[i] == Lower(part[i]); }
    }
  }

  /** A host is accepted exactly when its lower-case spelling is a canonical host name. */
  lemma NameLowered(host: Bytes)
    ensures DnsName(host) <==> LowerDnsName(LowerAll(host))
  {
    var parts, lower := Split(host, '.'), LowerAll(host);
    SplitLowered(host, '.');
    forall i | 0 <= i < |parts| ensures DnsLabel(parts[i]) <==> LowerDnsLabel(LowerParts(parts)[i]) { LabelLowered(parts[i]); }
    hide Split;
    hide DnsLabel;
    hide LowerDnsLabel;
    if DnsName(host) {
      forall part | part in LowerParts(parts) ensures LowerDnsLabel(part) {
        var i :| 0 <= i < |parts| && LowerParts(parts)[i] == part;
        assert parts[i] in parts;
      }
      NoTrailingDot(host);
    }
    if LowerDnsName(lower) {
      forall part | part in parts ensures DnsLabel(part) {
        var i :| 0 <= i < |parts| && parts[i] == part;
        assert LowerParts(parts)[i] in Split(lower, '.');
      }
    }
  }

  lemma NoTrailingDot(host: Bytes)
    requires host != []
    ensures host[|host| - 1] == '.' ==> !DnsName(host)
    ensures LowerAll(host)[|host| - 1] == '.' <==> host[|host| - 1] == '.'
  {
    hide LowerAll;
    hide DnsName;
    hide Split;
    assert LowerAll(host)[|host| - 1] == Lower(host[|host| - 1]);
    if host[|host| - 1] == '.' { DotLast(host[..|host| - 1], host); }
  }

  lemma DotLast(before: Bytes, host: Bytes)
    requires host == before + ['.']
    ensures !DnsName(host)
  {
    hide Split;
    EmptyLastPart(before, '.');
    assert !DnsLabel([]);
  }

  lemma EmptyLastPart(s: Bytes, c: Byte)
    ensures [] in Split(s + [c], c)
  {
    hide Split;
    SplitAppend(s, [], c);
    SplitLast([], c);
    assert s + [c] + [] == s + [c];
    var parts := Split(s, c) + [[]];
    assert parts[|parts| - 1] == [];
  }

  // ---------- ports ----------

  /** A port with its colon, and the text that stands for it in the canonical spelling. */
  predicate PortText(text: Bytes, spelled: Bytes) {
    if text == [] then spelled == []
    else
      && text[0] == ':' && text != ":" && AllDigits(text[1..]) && 1 <= Decimal(text[1..]) <= 65_535
      && spelled == ":" + Render(Decimal(text[1..]))
  }

  lemma PortMeans(text: Bytes, required: bool, host: Bytes)
    ensures PortSuffix(text, required).Ok? <==> (text == [] ==> !required) && exists spelled :: PortText(text, spelled)
    ensures PortSuffix(text, required).Ok? ==>
      exists spelled :: PortText(text, spelled) && Spelled(host, PortSuffix(text, required).value) == host + spelled
  {
    hide Decimal;
    hide Render;
    if text == [] {
      assert PortText(text, []) && host + [] == host;
    } else if text[0] == ':' && text[1..] != [] && AllDigits(text[1..]) {
      var spelled := ":" + Render(Decimal(text[1..]));
      assert Spelled(host, Some(Decimal(text[1..]))) == host + spelled;
      if 1 <= Decimal(text[1..]) <= 65_535 { assert PortText(text, spelled); }
    }
  }

  // ---------- names ----------

  lemma LowerHostByte(host: Bytes, i: nat)
    requires LowerDnsName(host) && i < |host|
    ensures IsLower(host[i]) || IsDigit(host[i]) || host[i] == '-' || host[i] == '.'
  {
    hide Split;
    if host[i] != '.' { var part, k := InSomePart(host, '.', i); }
  }

  /** The bytes of a host, in any case. */
  lemma HostByte(host: Bytes, i: nat)
    requires LowerDnsName(LowerAll(host)) && i < |host|
    ensures IsAlphanumeric(host[i]) || host[i] == '-' || host[i] == '.'
  {
    LowerHostByte(LowerAll(host), i);
  }

  /** A host name, perhaps with a dot behind it, and perhaps a port. */
  ghost predicate NameAndPort(a: Bytes, required: bool, value: Bytes) {
    exists host: Bytes, dot: Bytes, port: Bytes, spelled: Bytes ::
      NamedBy(a, host, dot, port, spelled) && (required ==> port != []) && value == LowerAll(host) + spelled
  }

  predicate NamedBy(a: Bytes, host: Bytes, dot: Bytes, port: Bytes, spelled: Bytes) {
    a == host + dot + port && (dot == [] || dot == ".") && LowerDnsName(LowerAll(host)) && PortText(port, spelled)
  }

  lemma NamedBytes(a: Bytes, host: Bytes, dot: Bytes, port: Bytes, spelled: Bytes)
    requires NamedBy(a, host, dot, port, spelled)
    ensures a != [] && a[0] != '[' && forall i :: 0 <= i < |a| ==> !ForbiddenInAuthority(a[i])
    ensures IndexOf(a, ':') == |host + dot| && (port != [] ==> ':' !in port[1..])
  {
    forall i | 0 <= i < |host| ensures IsAlphanumeric(host[i]) || host[i] == '-' || host[i] == '.' { HostByte(host, i); }
    hide LowerDnsName;
    hide LowerAll;
    hide Decimal;
    hide Render;
    var named := host + dot;
    assert forall i :: 0 <= i < |named| ==> a[i] == named[i] && !ForbiddenInAuthority(named[i]) && named[i] != ':' && named[i] != '[';
    if port != [] {
      var digits := port[1..];
      assert forall i :: 0 <= i < |digits| ==> IsDigit(digits[i]) && a[|named| + 1 + i] == digits[i];
      assert a[|named|] == ':';
    }
    IndexOfUnique(a, ':', |named|);
  }

  lemma NamedIsAccepted(a: Bytes, required: bool, host: Bytes, dot: Bytes, port: Bytes, spelled: Bytes, ipv6: Ipv6)
    requires NamedBy(a, host, dot, port, spelled) && (required ==> port != [])
    ensures CanonicalAuthority(a, required, ipv6) == Ok(LowerAll(host) + spelled)
  {
    NamedBytes(a, host, dot, port, spelled);
    NameLowered(host);
    NoTrailingDot(host);
    var named := host + dot;
    assert a[..|named|] == named && a[|named|..] == port;
    assert WithoutTrailingDot(named) == host by { if dot != [] { assert named[..|named| - 1] == host; } else { assert named == host; } }
    assert port != [] ==> a[|named| + 1..] == port[1..];
    hide DnsName;
    hide LowerDnsName;
    hide WithoutTrailingDot;
    hide Decimal;
    hide Render;
    PortAccepted(port, required, LowerAll(host), spelled);
    hide PortSuffix;
    hide PortText;
    hide LowerAll;
  }

  lemma PortAccepted(port: Bytes, required: bool, host: Bytes, spelled: Bytes)
    requires PortText(port, spelled) && (required ==> port != [])
    ensures PortSuffix(port, required).Ok? && Spelled(host, PortSuffix(port, required).value) == host + spelled
  {
    hide Decimal;
    hide Render;
    if port == [] { assert host + [] == host; }
  }

  lemma DotBehind(named: Bytes)
    ensures var host := WithoutTrailingDot(named); host <= named && (named == host || named == host + ".")
  {
  }

  lemma AcceptedIsNamed(a: Bytes, required: bool, ipv6: Ipv6)
    requires CanonicalAuthority(a, required, ipv6).Ok? && a[0] != '['
    ensures NameAndPort(a, required, CanonicalAuthority(a, required, ipv6).value)
  {
    hide DnsName;
    hide LowerDnsName;
    hide WithoutTrailingDot;
    hide Decimal;
    hide Render;
    hide LowerAll;
    hide PortSuffix;
    hide PortText;
    hide Spelled;
    var colon := IndexOf(a, ':');
    var named, port := a[..colon], a[colon..];
    var host := WithoutTrailingDot(named);
    DotBehind(named);
    var dot: Bytes := if named == host then [] else ".";
    assert a == host + dot + port;
    NameLowered(host);
    PortMeans(port, required, LowerAll(host));
    var spelled :| PortText(port, spelled) && Spelled(LowerAll(host), PortSuffix(port, required).value) == LowerAll(host) + spelled;
    assert NamedBy(a, host, dot, port, spelled);
  }

  // ---------- addresses ----------

  /** An address in brackets, and perhaps a port. */
  ghost predicate AddressAndPort(a: Bytes, required: bool, value: Bytes, ipv6: Ipv6) {
    exists address: Bytes, port: Bytes, spelled: Bytes ::
      AddressedBy(a, address, port, spelled, ipv6) && (required ==> port != [])
      && value == "[" + LowerAll(address) + "]" + spelled
  }

  ghost predicate AddressedBy(a: Bytes, address: Bytes, port: Bytes, spelled: Bytes, ipv6: Ipv6) {
    && a == "[" + address + "]" + port && ']' !in address && ipv6(address) && PortText(port, spelled)
    && forall i :: 0 <= i < |address| ==> !ForbiddenInAuthority(address[i])
  }

  lemma AddressedIsAccepted(a: Bytes, required: bool, address: Bytes, port: Bytes, spelled: Bytes, ipv6: Ipv6)
    requires AddressedBy(a, address, port, spelled, ipv6) && (required ==> port != [])
    ensures CanonicalAuthority(a, required, ipv6) == Ok("[" + LowerAll(address) + "]" + spelled)
  {
    var rest := a[1..];
    assert rest == address + "]" + port;
    IndexOfUnique(rest, ']', |address|);
    assert rest[..|address|] == address && rest[|address| + 1..] == port;
    hide Decimal;
    hide Render;
    PortAccepted(port, required, "[" + LowerAll(address) + "]", spelled);
    forall i | 0 <= i < |a| ensures !ForbiddenInAuthority(a[i]) {
      if 1 <= i <= |address| { assert a[i] == address[i - 1]; }
      if i > |address| + 1 { assert a[i] == port[i - |address| - 2]; }
    }
  }

  lemma AcceptedIsAddressed(a: Bytes, required: bool, ipv6: Ipv6)
    requires CanonicalAuthority(a, required, ipv6).Ok? && a[0] == '['
    ensures AddressAndPort(a, required, CanonicalAuthority(a, required, ipv6).value, ipv6)
  {
    var rest := a[1..];
    var close := IndexOf(rest, ']');
    IndexOfFirst(rest, ']');
    var address, port := rest[..close], rest[close + 1..];
    assert a == "[" + address + "]" + port;
    hide Decimal;
    hide Render;
    PortMeans(port, required, "[" + LowerAll(address) + "]");
    var spelled :| PortText(port, spelled)
      && Spelled("[" + LowerAll(address) + "]", PortSuffix(port, required).value) == "[" + LowerAll(address) + "]" + spelled;
    assert AddressedBy(a, address, port, spelled, ipv6);
  }

  /** An authority is accepted exactly when it is a host name, in any case and perhaps with a final dot, or an address in
      brackets, with a port from 1 to 65535 where there is one; its canonical spelling is in lower case, without the
      final dot and with the port in plain digits. */
  lemma AuthorityMeans(a: Bytes, required: bool, value: Bytes, ipv6: Ipv6)
    ensures CanonicalAuthority(a, required, ipv6) == Ok(value) <==>
      NameAndPort(a, required, value) || AddressAndPort(a, required, value, ipv6)
  {
    hide CanonicalAuthority;
    hide NamedBy;
    hide AddressedBy;
    hide LowerAll;
    if NameAndPort(a, required, value) {
      var host: Bytes, dot: Bytes, port: Bytes, spelled: Bytes :|
        NamedBy(a, host, dot, port, spelled) && (required ==> port != []) && value == LowerAll(host) + spelled;
      NamedIsAccepted(a, required, host, dot, port, spelled, ipv6);
    }
    if AddressAndPort(a, required, value, ipv6) {
      var address: Bytes, port: Bytes, spelled: Bytes :|
        AddressedBy(a, address, port, spelled, ipv6) && (required ==> port != [])
        && value == "[" + LowerAll(address) + "]" + spelled;
      AddressedIsAccepted(a, required, address, port, spelled, ipv6);
    }
    if CanonicalAuthority(a, required, ipv6) == Ok(value) {
      NothingIsRefused(required, ipv6);
      if a[0] == '[' { AcceptedIsAddressed(a, required, ipv6); } else { AcceptedIsNamed(a, required, ipv6); }
    }
  }

  lemma NothingIsRefused(required: bool, ipv6: Ipv6)
    ensures CanonicalAuthority([], required, ipv6).Err?
  {
  }
}
