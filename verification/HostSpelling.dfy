/** The hosts and authorities that the printers and the route table accept are those that normalisation gives. */
module HostSpelling {
  import opened Authorities
  import opened Bytes
  import opened CanonicalHead
  import D = Decimals
  import opened HeadRoundTrip
  import opened Http
  import R = RequestTarget
  import RM = RouteMatch

  /** What is assumed of the texts that are addresses: their syntax, that none is empty, and that case is no matter. */
  ghost predicate Addresses(ipv6: Ipv6) {
    AddressSyntax(ipv6) && !ipv6([]) && forall text :: ipv6(text) ==> ipv6(LowerAll(text))
  }

  /** A host as an authority has it: an address in brackets. */
  function Bracket(text: Bytes): Bytes {
    if ':' in text && text[0] != '[' then "[" + text + "]" else text
  }

  // ---------- names ----------

  lemma LowerIsFixed(s: Bytes)
    ensures LowerAll(s) == s <==> NoUpper(s)
  {
    var lower := LowerAll(s);
    if lower == s {
      forall i | 0 <= i < |s| ensures !IsUpper(s[i]) { assert lower[i] == Lower(s[i]); }
    }
  }

  lemma NameBytes(text: Bytes)
    requires LowerDnsName(text)
    ensures NoUpper(text) && ':' !in text && ']' !in text && text[0] != '['
  {
    hide Split;
    forall i | 0 <= i < |text| ensures !IsUpper(text[i]) && text[i] != ':' && text[i] != '[' && text[i] != ']' {
      LowerHostByte(text, i);
    }
  }

  /** A name without a port is its own authority exactly when it is spelled canonically. */
  lemma NameIsFixed(text: Bytes, ipv6: Ipv6)
    requires ':' !in text && (text != [] ==> text[0] != '[')
    ensures R.CanonicalAuthority(text, false, ipv6) == Ok(text) <==> LowerDnsName(text)
  {
    hide R.CanonicalAuthority;
    AuthorityMeans(text, false, text, ipv6);
    hide LowerDnsName;
    if LowerDnsName(text) {
      NameBytes(text);
      LowerIsFixed(text);
      assert text == text + [] + [] && NamedBy(text, text, [], [], []) && text == LowerAll(text) + [];
    }
    if NameAndPort(text, false, text) {
      var host: Bytes, dot: Bytes, port: Bytes, spelled: Bytes :|
        NamedBy(text, host, dot, port, spelled) && text == LowerAll(host) + spelled;
      NoPort(text, host, dot, port, spelled);
    }
    AddressBegins(text, false, text, ipv6);
  }

  lemma AddressBegins(a: Bytes, required: bool, value: Bytes, ipv6: Ipv6)
    ensures AddressAndPort(a, required, value, ipv6) ==> a != [] && a[0] == '['
  {
  }

  lemma PortHasColon(named: Bytes, port: Bytes, spelled: Bytes)
    requires PortText(port, spelled)
    ensures port != [] ==> ':' in named + port
  {
    if port != [] { assert (named + port)[|named|] == ':'; }
  }

  lemma NoPort(text: Bytes, host: Bytes, dot: Bytes, port: Bytes, spelled: Bytes)
    requires ':' !in text && NamedBy(text, host, dot, port, spelled) && text == LowerAll(host) + spelled
    ensures LowerDnsName(text)
  {
    hide LowerDnsName;
    PortHasColon(host + dot, port, spelled);
    assert text == LowerAll(host);
  }

  // ---------- addresses ----------

  lemma PlainIsFixed(address: Bytes, ipv6: Ipv6)
    requires Addresses(ipv6) && PlainIpv6(address, ipv6)
    ensures R.CanonicalAuthority("[" + address + "]", false, ipv6) == Ok("[" + address + "]") && ']' !in address
  {
    hide R.CanonicalAuthority;
    hide LowerAll;
    LowerIsFixed(address);
    AddressPlain(address, ipv6);
    hide Addresses;
    var text := "[" + address + "]";
    assert text == "[" + address + "]" + [] && PortText([], []);
    AddressedIsAccepted(text, false, address, [], [], ipv6);
    assert "[" + LowerAll(address) + "]" + [] == text;
  }

  lemma FixedIsPlain(address: Bytes, ipv6: Ipv6)
    requires Addresses(ipv6)
    requires R.CanonicalAuthority("[" + address + "]", false, ipv6) == Ok("[" + address + "]")
    ensures PlainIpv6(address, ipv6)
  {
    hide R.CanonicalAuthority;
    hide LowerAll;
    var text := "[" + address + "]";
    AuthorityMeans(text, false, text, ipv6);
    NameBegins(text, false, text);
    var found: Bytes, port: Bytes, spelled: Bytes :|
      AddressedBy(text, found, port, spelled, ipv6) && text == "[" + LowerAll(found) + "]" + spelled;
    SameAddress(address, found, port, spelled);
    AddressPlain(found, ipv6);
    hide Addresses;
    assert spelled == [];
    assert text[1..|address| + 1] == address && ("[" + LowerAll(found) + "]" + spelled)[1..|address| + 1] == LowerAll(found);
    LowerIsFixed(address);
  }

  /** An address in brackets is its own authority exactly when its letters are lower-case. */
  lemma AddressIsFixed(address: Bytes, ipv6: Ipv6)
    requires Addresses(ipv6)
    ensures R.CanonicalAuthority("[" + address + "]", false, ipv6) == Ok("[" + address + "]") <==> PlainIpv6(address, ipv6)
  {
    hide R.CanonicalAuthority;
    hide PlainIpv6;
    hide Addresses;
    if PlainIpv6(address, ipv6) { PlainIsFixed(address, ipv6); }
    if R.CanonicalAuthority("[" + address + "]", false, ipv6) == Ok("[" + address + "]") { FixedIsPlain(address, ipv6); }
  }

  lemma AddressPlain(address: Bytes, ipv6: Ipv6)
    requires Addresses(ipv6) && ipv6(address)
    ensures address != [] && '%' !in address && ']' !in address
    ensures forall i :: 0 <= i < |address| ==> !R.ForbiddenInAuthority(address[i])
  {
    forall i | 0 <= i < |address| ensures address[i] != ']' && !R.ForbiddenInAuthority(address[i]) {
      assert AddressByte(address[i]);
    }
  }

  lemma NameBegins(a: Bytes, required: bool, value: Bytes)
    requires a != [] && a[0] == '['
    ensures !NameAndPort(a, required, value)
  {
    hide NamedBy;
    forall host: Bytes, dot: Bytes, port: Bytes, spelled: Bytes ensures !NamedBy(a, host, dot, port, spelled) {
      if NamedBy(a, host, dot, port, spelled) { NamedBytes(a, host, dot, port, spelled); }
    }
  }

  /** A port ends in a digit, so nothing follows a closing bracket at the end. */
  lemma SameAddress(address: Bytes, found: Bytes, port: Bytes, spelled: Bytes)
    requires "[" + address + "]" == "[" + found + "]" + port && PortText(port, spelled)
    ensures address == found && port == []
  {
    var a, b := "[" + address + "]", "[" + found + "]" + port;
    PortEnd("[" + found + "]", port, spelled);
    assert a[|a| - 1] == ']';
    assert a[1..|a| - 1] == address && ("[" + found + "]")[1..|found| + 1] == found;
  }

  lemma PortEnd(before: Bytes, port: Bytes, spelled: Bytes)
    requires PortText(port, spelled) && before != []
    ensures port != [] ==> (before + port)[|before + port| - 1] != ']'
  {
    if port != [] {
      var digits := port[1..];
      assert digits != [] && IsDigit(digits[|digits| - 1]);
      assert (before + port)[|before + port| - 1] == digits[|digits| - 1];
    }
  }

  // ---------- the hosts of the printers and of the rules ----------

  /** The printers accept a host exactly when normalising it as an authority gives it back, without a port. */
  lemma HostIsFixed(text: Bytes, ipv6: Ipv6)
    requires Addresses(ipv6)
    ensures HostOf(text, ipv6).Some? <==>
      && R.CanonicalAuthority(Bracket(text), false, ipv6) == Ok(Bracket(text))
      && (text != [] && text[0] == '[' ==> text[|text| - 1] == ']')
  {
    hide R.CanonicalAuthority;
    hide LowerDnsName;
    if text == [] || (':' !in text && text[0] != '[') {
      NameIsFixed(text, ipv6);
    } else if text[0] != '[' {
      AddressIsFixed(text, ipv6);
    } else if Bracketed(text) {
      var inner := text[1..|text| - 1];
      assert text == "[" + inner + "]";
      AddressIsFixed(inner, ipv6);
    } else {
      OpenBracket(text, ipv6);
    }
  }

  lemma OpenBracket(text: Bytes, ipv6: Ipv6)
    requires Addresses(ipv6) && text != [] && text[0] == '[' && !Bracketed(text)
    ensures HostOf(text, ipv6).None? && (text[|text| - 1] != ']' || |text| == 1)
  {
    assert !AddressByte(text[0]);
    if LowerDnsName(text) { NameBytes(text); }
  }

  /** The hosts that route rules accept are those, but for addresses without brackets. */
  lemma RuleHostIsFixed(text: Bytes, ipv6: Ipv6)
    requires Addresses(ipv6)
    ensures RM.HostOk(text, ipv6) <==> HostOf(text, ipv6).Some? && Bracket(text) == text
  {
    hide LowerDnsName;
    if LowerDnsName(text) { NameBytes(text); }
    if PlainIpv6(text, ipv6) { AddressPlain(text, ipv6); }
    if text != [] && text[0] == '[' && !Bracketed(text) { OpenBracket(text, ipv6); }
    assert ':' in text && text[0] != '[' ==> Bracket(text) != text;
  }

  // ---------- the authority of a normalised target ----------

  lemma PortIsRead(name: Bytes, port: nat, ipv6: Ipv6)
    requires LowerDnsName(name) && 0 < port < 65_536
    ensures TargetAuthority(name + ([':'] + D.Render(port)), ipv6) == Some((Name(name), Some(port)))
  {
    var digits := D.Render(port);
    var raw := name + ([':'] + digits);
    D.DecimalOfRender(port);
    forall i | 0 <= i < |name| ensures raw[i] != ':' && raw[i] != '[' { LowerHostByte(name, i); }
    forall i | 0 <= i < |digits| ensures digits[i] != ':' { assert IsDigit(digits[i]); }
    IndexOfUnique(raw, ':', |name|);
    hide LowerDnsName;
    hide AllDigits;
    hide D.Render;
    assert raw[0] == name[0] && raw[..|name|] == name;
    assert raw[|name|..] == [':'] + digits && raw[|name| + 1..] == digits && ([':'] + digits)[1..] == digits;
  }

  lemma NameIsRead(name: Bytes, ipv6: Ipv6)
    requires LowerDnsName(name)
    ensures TargetAuthority(name, ipv6) == Some((Name(name), None))
  {
    NameBytes(name);
    hide LowerDnsName;
    IndexOfUnique(name, ':', |name|);
    assert name[..|name|] == name && name[|name|..] == [];
  }

  lemma AddressIsRead(address: Bytes, port: Option<nat>, ipv6: Ipv6)
    requires Addresses(ipv6) && PlainIpv6(address, ipv6) && (port.Some? ==> 0 < port.value < 65_536)
    ensures var spelled := if port.Some? then [':'] + D.Render(port.value) else [];
      TargetAuthority(['['] + address + [']'] + spelled, ipv6) == Some((V6(address), port))
  {
    var spelled := if port.Some? then [':'] + D.Render(port.value) else [];
    var raw := ['['] + address + [']'] + spelled;
    var rest := raw[1..];
    AddressPlain(address, ipv6);
    hide Addresses;
    PortIsReadBack(port);
    hide D.Render;
    hide PlainIpv6;
    hide R.PortSuffix;
    assert rest == address + [']'] + spelled;
    IndexOfUnique(rest, ']', |address|);
    assert rest[..|address|] == address && rest[|address| + 1..] == spelled;
  }

  lemma PortIsReadBack(port: Option<nat>)
    requires port.Some? ==> 0 < port.value < 65_536
    ensures R.PortSuffix(if port.Some? then [':'] + D.Render(port.value) else [], false) == Ok(port)
  {
    if port.Some? {
      D.DecimalOfRender(port.value);
      hide D.Render;
      hide D.Decimal;
      assert ([':'] + D.Render(port.value))[1..] == D.Render(port.value);
    }
  }

  lemma PortOfText(text: Bytes, spelled: Bytes) returns (port: Option<nat>)
    requires PortText(text, spelled)
    ensures spelled == (if port.Some? then [':'] + D.Render(port.value) else [])
    ensures port.Some? ==> 0 < port.value < 65_536
  {
    port := if text == [] then None else Some(D.Decimal(text[1..]));
  }

  /** Every accepted authority is spelled so that the printers read it as the host and the port it was spelled from. */
  lemma AuthorityIsRead(a: Bytes, value: Bytes, ipv6: Ipv6) returns (host: Host, port: Option<nat>)
    requires Addresses(ipv6) && R.CanonicalAuthority(a, false, ipv6) == Ok(value)
    ensures TargetAuthority(value, ipv6) == Some((host, port)) && AuthorityText(host, port) == value
    ensures port.Some? ==> 0 < port.value < 65_536
    ensures HostOf(HostText(host), ipv6) == Some(host)
  {
    hide R.CanonicalAuthority;
    hide D.Render;
    hide D.Decimal;
    hide LowerAll;
    hide TargetAuthority;
    hide Addresses;
    AuthorityMeans(a, false, value, ipv6);
    if NameAndPort(a, false, value) {
      var name: Bytes, dot: Bytes, text: Bytes, spelled: Bytes :|
        NamedBy(a, name, dot, text, spelled) && value == LowerAll(name) + spelled;
      port := PortOfText(text, spelled);
      host := Name(LowerAll(name));
      if port.Some? {
        PortIsRead(LowerAll(name), port.value, ipv6);
      } else {
        NameIsRead(LowerAll(name), ipv6);
        assert LowerAll(name) + [] == LowerAll(name);
      }
      NameBytes(LowerAll(name));
    } else {
      var address: Bytes, text: Bytes, spelled: Bytes :|
        AddressedBy(a, address, text, spelled, ipv6) && value == "[" + LowerAll(address) + "]" + spelled;
      port := PortOfText(text, spelled);
      host := V6(LowerAll(address));
      LowerAddress(address, ipv6);
      AddressIsRead(LowerAll(address), port, ipv6);
      assert port.None? ==> "[" + LowerAll(address) + "]" + [] == "[" + LowerAll(address) + "]";
      assert HostText(host)[1..|HostText(host)| - 1] == LowerAll(address);
    }
  }

  lemma LowerAddress(address: Bytes, ipv6: Ipv6)
    requires Addresses(ipv6) && ipv6(address)
    ensures PlainIpv6(LowerAll(address), ipv6)
  {
    var lower := LowerAll(address);
    AddressPlain(lower, ipv6);
    assert LowerAll(lower) == lower;
    LowerIsFixed(lower);
  }

  /** A normalised absolute target fits its own authority, once the default port is left out of it. */
  lemma AbsoluteFits(verb: Bytes, target: Bytes, t: NormalizedTarget, ipv6: Ipv6) returns (host: Host, port: Option<nat>)
    requires Addresses(ipv6) && R.Normalize(verb, target, ipv6) == Ok(t) && t.form == Absolute
    ensures t.authority == Some(AuthorityText(host, port)) && HostOf(HostText(host), ipv6) == Some(host)
    ensures var standard := if t.scheme == Some("http") then 80 else 443;
      FormOk(t, host, if port == Some(standard) then None else port, ipv6)
  {
    hide R.EnvelopeFault;
    hide R.CanonicalAuthority;
    hide R.CanonicalPath;
    hide R.AuthorityEnd;
    hide R.PathInput;
    hide Addresses;
    hide TargetAuthority;
    hide AuthorityText;
    hide HostOf;
    var syntax := R.ClassifySyntax(target);
    assert syntax.AbsoluteSyntax? && t.scheme == Some(syntax.scheme) && (syntax.scheme == "http" || syntax.scheme == "https");
    var a := syntax.remainder[..R.AuthorityEnd(syntax.remainder, 0)];
    host, port := AuthorityIsRead(a, t.authority.value, ipv6);
  }
}
