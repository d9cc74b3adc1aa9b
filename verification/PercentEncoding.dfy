/** Percent-encoded text: what is refused, and the canonical spelling of what is not. */
module PercentEncoding {
  import opened Bytes
  import opened Http

  function Octet(high: Byte, low: Byte): Byte
    requires IsHexDigit(high) && IsHexDigit(low)
  {
    (16 * HexValue(high) + HexValue(low)) as char
  }

  predicate EscapeAt(s: Bytes, i: nat) {
    i + 2 < |s| && s[i] == '%' && IsHexDigit(s[i + 1]) && IsHexDigit(s[i + 2])
  }

  /** Every percent sign from `i` on begins a complete escape. */
  predicate WellEscaped(s: Bytes, i: nat)
    requires i <= |s|
    decreases |s| - i
  {
    i == |s| || (if s[i] == '%' then EscapeAt(s, i) && WellEscaped(s, i + 3) else WellEscaped(s, i + 1))
  }

  /** The first thing wrong with the text from `i` on. */
  function EncodingFault(s: Bytes, i: nat, inPath: bool): Option<Reason>
    requires i <= |s|
    decreases |s| - i
  {
    if i == |s| then None
    else if s[i] != '%' then EncodingFault(s, i + 1, inPath)
    else if !EscapeAt(s, i) then Some(InvalidPercentEncoding)
    else
      var octet := Octet(s[i + 1], s[i + 2]);
      if inPath && (octet == '/' || octet == '\\') then Some(EncodedSeparator)
      else if IsControl(octet) then Some(EncodedControl)
      else EncodingFault(s, i + 3, inPath)
  }

  function HexDigit(n: nat): (c: Byte)
    requires n < 16
    ensures IsUpperHexDigit(c) && HexValue(c) == n
  {
    if n < 10 then (48 + n) as char else (55 + n) as char
  }

  /** An unreserved octet stands for itself; any other keeps its escape, in upper case. */
  function SpellOctet(octet: Byte): Bytes {
    if IsUnreserved(octet) then [octet] else ['%', HexDigit(octet as int / 16), HexDigit(octet as int % 16)]
  }

  function CanonFrom(s: Bytes, i: nat): (r: Bytes)
    requires i <= |s| && WellEscaped(s, i)
    ensures |r| <= |s| - i
    decreases |s| - i
  {
    if i == |s| then []
    else if s[i] != '%' then [s[i]] + CanonFrom(s, i + 1)
    else SpellOctet(Octet(s[i + 1], s[i + 2])) + CanonFrom(s, i + 3)
  }

  /** The canonical spelling of well-escaped text. */
  function Canon(s: Bytes): (r: Bytes)
    requires WellEscaped(s, 0)
    ensures |r| <= |s|
  {
    CanonFrom(s, 0)
  }

  lemma {:induction false} FaultlessIsWellEscaped(s: Bytes, i: nat, inPath: bool)
    requires i <= |s| && EncodingFault(s, i, inPath) == None
    ensures WellEscaped(s, i)
    decreases |s| - i
  {
    if i < |s| { FaultlessIsWellEscaped(s, if s[i] == '%' then i + 3 else i + 1, inPath); }
  }

  // ---------- concatenation ----------

  lemma {:induction false} InSuffix(a: Bytes, b: Bytes, i: nat, inPath: bool)
    requires i <= |b|
    ensures WellEscaped(a + b, |a| + i) <==> WellEscaped(b, i)
    ensures EncodingFault(a + b, |a| + i, inPath) == EncodingFault(b, i, inPath)
    ensures WellEscaped(b, i) ==> CanonFrom(a + b, |a| + i) == CanonFrom(b, i)
    decreases |b| - i
  {
    if i < |b| {
      assert (a + b)[|a| + i] == b[i];
      assert EscapeAt(a + b, |a| + i) <==> EscapeAt(b, i);
      if b[i] != '%' {
        InSuffix(a, b, i + 1, inPath);
      } else if EscapeAt(b, i) {
        assert (a + b)[|a| + i + 1] == b[i + 1] && (a + b)[|a| + i + 2] == b[i + 2];
        InSuffix(a, b, i + 3, inPath);
      }
    }
  }

  /** Text after complete escapes is read on its own. */
  lemma {:induction false} ConcatFrom(a: Bytes, b: Bytes, i: nat, inPath: bool)
    requires i <= |a| && WellEscaped(a, i)
    ensures WellEscaped(a + b, i) <==> WellEscaped(b, 0)
    ensures WellEscaped(b, 0) ==> CanonFrom(a + b, i) == CanonFrom(a, i) + Canon(b)
    ensures EncodingFault(a + b, i, inPath) ==
            if EncodingFault(a, i, inPath).Some? then EncodingFault(a, i, inPath) else EncodingFault(b, 0, inPath)
    decreases |a| - i
  {
    if i == |a| {
      InSuffix(a, b, 0, inPath);
    } else if a[i] != '%' {
      assert (a + b)[i] == a[i];
      ConcatFrom(a, b, i + 1, inPath);
    } else {
      assert forall k :: i <= k < i + 3 ==> (a + b)[k] == a[k];
      assert EscapeAt(a + b, i);
      ConcatFrom(a, b, i + 3, inPath);
      if WellEscaped(b, 0) {
        ConcatAssociates(SpellOctet(Octet(a[i + 1], a[i + 2])), CanonFrom(a, i + 3), Canon(b));
      }
    }
  }

  /** An escape cut short by a separator is not completed by what follows it. */
  lemma {:induction false} CutShort(a: Bytes, b: Bytes, i: nat)
    requires i <= |a| && !WellEscaped(a, i)
    ensures !WellEscaped(a + ['/'] + b, i)
    decreases |a| - i
  {
    var s := a + ['/'] + b;
    assert forall k :: 0 <= k < |a| ==> s[k] == a[k];
    assert s[|a|] == '/';
    if a[i] != '%' {
      CutShort(a, b, i + 1);
    } else if EscapeAt(a, i) {
      CutShort(a, b, i + 3);
    }
  }

  lemma AroundSlash(a: Bytes, b: Bytes)
    ensures WellEscaped(a + ['/'] + b, 0) <==> WellEscaped(a, 0) && WellEscaped(b, 0)
    ensures WellEscaped(a, 0) && WellEscaped(b, 0) ==> Canon(a + ['/'] + b) == Canon(a) + ['/'] + Canon(b)
    ensures WellEscaped(a, 0) && WellEscaped(b, 0) ==>
      (EncodingFault(a + ['/'] + b, 0, true).None? <==> EncodingFault(a, 0, true).None? && EncodingFault(b, 0, true).None?)
  {
    var slash: Bytes := ['/'];
    if WellEscaped(a, 0) {
      assert WellEscaped(slash, 1) && WellEscaped(slash, 0) && Canon(slash) == slash;
      assert EncodingFault(slash, 1, true).None? && EncodingFault(slash, 0, true).None?;
      ConcatFrom(a, slash, 0, true);
      ConcatFrom(a + slash, b, 0, true);
    } else {
      CutShort(a, b, 0);
    }
  }

  // ---------- canonical text ----------

  /** Reading one canonical piece leaves the rest. */
  lemma PieceOfByte(c: Byte, rest: Bytes, inPath: bool)
    requires c != '%'
    ensures WellEscaped([c] + rest, 0) <==> WellEscaped(rest, 0)
    ensures EncodingFault([c] + rest, 0, inPath) == EncodingFault(rest, 0, inPath)
    ensures WellEscaped(rest, 0) ==> Canon([c] + rest) == [c] + Canon(rest)
  {
    InSuffix([c], rest, 0, inPath);
  }

  lemma PieceOfOctet(octet: Byte, rest: Bytes, inPath: bool)
    requires !IsControl(octet) && (inPath ==> octet != '/' && octet != '\\')
    ensures WellEscaped(SpellOctet(octet) + rest, 0) <==> WellEscaped(rest, 0)
    ensures EncodingFault(SpellOctet(octet) + rest, 0, inPath) == EncodingFault(rest, 0, inPath)
    ensures WellEscaped(rest, 0) ==> Canon(SpellOctet(octet) + rest) == SpellOctet(octet) + Canon(rest)
  {
    var piece := SpellOctet(octet);
    if IsUnreserved(octet) {
      PieceOfByte(octet, rest, inPath);
    } else {
      InSuffix(piece, rest, 0, inPath);
      var s := piece + rest;
      assert s[0] == '%' && s[1] == piece[1] && s[2] == piece[2];
      assert Octet(s[1], s[2]) == octet;
    }
  }

  /** Canonical text stays acceptable and is its own canonical spelling. */
  lemma {:induction false} CanonIsCanonical(s: Bytes, i: nat, inPath: bool)
    requires i <= |s| && EncodingFault(s, i, inPath) == None && WellEscaped(s, i)
    ensures EncodingFault(CanonFrom(s, i), 0, inPath) == None && WellEscaped(CanonFrom(s, i), 0)
    ensures Canon(CanonFrom(s, i)) == CanonFrom(s, i)
    decreases |s| - i
  {
    if i < |s| {
      if s[i] != '%' {
        CanonIsCanonical(s, i + 1, inPath);
        PieceOfByte(s[i], CanonFrom(s, i + 1), inPath);
      } else {
        CanonIsCanonical(s, i + 3, inPath);
        PieceOfOctet(Octet(s[i + 1], s[i + 2]), CanonFrom(s, i + 3), inPath);
      }
    }
  }

  /** The canonical spelling brings in no byte but unreserved ones and percent signs. */
  lemma {:induction false} CanonBytes(s: Bytes, i: nat)
    requires i <= |s| && WellEscaped(s, i)
    ensures forall c :: c in CanonFrom(s, i) ==> c in s || IsUnreserved(c)
    decreases |s| - i
  {
    if i < |s| { CanonBytes(s, if s[i] == '%' then i + 3 else i + 1); }
  }

  lemma CanonKeepsOut(s: Bytes, c: Byte)
    requires WellEscaped(s, 0) && c !in s && !IsUnreserved(c)
    ensures c !in Canon(s)
  {
    CanonBytes(s, 0);
  }

  // ---------- splitting before or after ----------

  function CanonEach(parts: seq<Bytes>): (r: seq<Bytes>)
    requires forall part :: part in parts ==> WellEscaped(part, 0)
    ensures |r| == |parts|
  {
    if parts == [] then [] else [Canon(parts[0])] + CanonEach(parts[1..])
  }

  lemma {:induction false} CanonEachAt(parts: seq<Bytes>, i: nat)
    requires i < |parts| && forall part :: part in parts ==> WellEscaped(part, 0)
    ensures CanonEach(parts)[i] == Canon(parts[i])
  {
    if i > 0 { CanonEachAt(parts[1..], i - 1); }
  }

  lemma {:induction false} CanonOfJoin(parts: seq<Bytes>)
    requires parts != []
    ensures WellEscaped(Join(parts, '/'), 0) <==> forall part :: part in parts ==> WellEscaped(part, 0)
    ensures (forall part :: part in parts ==> WellEscaped(part, 0)) ==>
              Canon(Join(parts, '/')) == Join(CanonEach(parts), '/')
  {
    if |parts| > 1 {
      var first, rest := parts[0], parts[1..];
      assert parts == [first] + rest;
      CanonOfJoin(rest);
      AroundSlash(first, Join(rest, '/'));
      if forall part :: part in parts ==> WellEscaped(part, 0) {
        assert CanonEach(parts) == [Canon(first)] + CanonEach(rest);
        JoinCons(Canon(first), CanonEach(rest), '/');
      }
    } else {
      assert parts == [parts[0]];
    }
  }

  /** Splitting before or after canonicalising gives the same segments. */
  lemma CanonDistributes(s: Bytes)
    requires WellEscaped(s, 0)
    ensures forall part :: part in Split(s, '/') ==> WellEscaped(part, 0)
    ensures Split(Canon(s), '/') == CanonEach(Split(s, '/'))
  {
    var parts := Split(s, '/');
    JoinSplit(s, '/');
    CanonOfJoin(parts);
    SplitHasNoSeparator(s, '/');
    var canonical := CanonEach(parts);
    forall part | part in canonical ensures '/' !in part {
      var i :| 0 <= i < |canonical| && canonical[i] == part;
      CanonEachAt(parts, i);
      assert parts[i] in parts;
      CanonKeepsOut(parts[i], '/');
    }
    SplitJoin(canonical, '/');
  }
}
