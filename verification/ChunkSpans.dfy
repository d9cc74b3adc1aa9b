/** The chunk metadata parser that packs what it validated into one word per extension and cuts the text out later. */
module ChunkSpans {
  import opened Bytes
  import opened Chunks
  import opened Http
  import Utf8
  import opened Words

  type Word = w: nat | w < 0x1_0000_0000_0000_0000

  const OFFSET_BITS := 11
  const OFFSET_MASK := 2047
  const HAS_VALUE_BIT := OFFSET_BITS * 4
  const QUOTED_BIT := HAS_VALUE_BIT + 1

  // ---------- packed spans ----------

  function Flag(b: bool): nat { if b then 1 else 0 }

  /** Four fields and two flags, each placed at its own bit of one word. */
  function Joined(a: nat, b: nat, c: nat, d: nat, h: nat, q: nat, step: nat): nat {
    BitOr(BitOr(BitOr(BitOr(BitOr(a, Shl(b, step, 64)), Shl(c, 2 * step, 64)), Shl(d, 3 * step, 64)),
                Shl(h, 4 * step, 64)),
          Shl(q, 4 * step + 1, 64))
  }

  function PackSpan(nameStart: nat, nameEnd: nat, valueStart: nat, valueEnd: nat, hasValue: bool, quoted: bool): nat {
    Joined(nameStart, nameEnd, valueStart, valueEnd, Flag(hasValue), Flag(quoted), OFFSET_BITS)
  }

  function UnpackOffset(span: nat, ordinal: nat): nat {
    BitAnd(Shr(span, OFFSET_BITS * ordinal), OFFSET_MASK)
  }

  predicate HasBit(span: nat, bit: nat) { BitAnd(span, Shl(1, bit, 64)) != 0 }

  lemma Powers()
    ensures Pow2(11) == 2048 && Pow2(22) == 4194304 && Pow2(33) == 8589934592
    ensures Pow2(44) == 17592186044416 && Pow2(45) == 35184372088832 && Pow2(64) == 0x1_0000_0000_0000_0000
  {
    assert Pow2(11) == 2048 by {
      assert Pow2(4) == 16 by { assert Pow2(2) == 4; }
      assert Pow2(8) == 256 by { assert Pow2(6) == 64; }
      assert Pow2(10) == 1024;
    }
    PowSum(11, 11);
    PowSum(22, 11);
    PowSum(33, 11);
    PowSum(45, 11);
    PowSum(56, 8);
    assert Pow2(45) == 2 * Pow2(44);
    assert Pow2(8) == 256 by { assert Pow2(4) == 16 by { assert Pow2(2) == 4; } assert Pow2(6) == 64; }
  }

  /** Joining a field above what is already there. */
  lemma JoinAt(low: nat, field: nat, n: nat, p: nat)
    requires Pow2(n) == p && low < p && field * p < Pow2(64)
    ensures BitOr(low, Shl(field, n, 64)) == low + field * p
  {
    ShlFits(field, n, 64);
    Quotient(field * p, p, field, 0);
    OrDisjoint(field * p, low, n);
  }

  lemma JoinedIsSum(a: nat, b: nat, c: nat, d: nat, h: nat, q: nat, step: nat)
    requires Pow2(step) == 2048 && Pow2(2 * step) == 4194304 && Pow2(3 * step) == 8589934592
    requires Pow2(4 * step) == 17592186044416 && Pow2(4 * step + 1) == 35184372088832
    requires Pow2(64) == 0x1_0000_0000_0000_0000
    requires a < 2048 && b < 2048 && c < 2048 && d < 2048 && h <= 1 && q <= 1
    ensures Joined(a, b, c, d, h, q, step) ==
            a + b * 2048 + c * 4194304 + d * 8589934592 + h * 17592186044416 + q * 35184372088832
  {
    JoinAt(a, b, step, 2048);
    JoinAt(a + b * 2048, c, 2 * step, 4194304);
    JoinAt(a + b * 2048 + c * 4194304, d, 3 * step, 8589934592);
    JoinAt(a + b * 2048 + c * 4194304 + d * 8589934592, h, 4 * step, 17592186044416);
    JoinAt(a + b * 2048 + c * 4194304 + d * 8589934592 + h * 17592186044416, q, 4 * step + 1, 35184372088832);
  }

  /** Offsets of at most 1024 are joined without touching each other. */
  lemma PackIsSum(a: nat, b: nat, c: nat, d: nat, hasValue: bool, quoted: bool)
    requires a <= LINE_MAX && b <= LINE_MAX && c <= LINE_MAX && d <= LINE_MAX
    ensures PackSpan(a, b, c, d, hasValue, quoted) ==
            a + b * 2048 + c * 4194304 + d * 8589934592 + Flag(hasValue) * 17592186044416 + Flag(quoted) * 35184372088832
  {
    Powers();
    JoinedIsSum(a, b, c, d, Flag(hasValue), Flag(quoted), OFFSET_BITS);
  }

  lemma UnpackIsDigit(span: nat, ordinal: nat)
    requires ordinal <= 3
    ensures UnpackOffset(span, ordinal) ==
            (if ordinal == 0 then span else if ordinal == 1 then span / 2048
             else if ordinal == 2 then span / 4194304 else span / 8589934592) % 2048
  {
    Powers();
    ShrIsQuotient(span, OFFSET_BITS * ordinal);
    AndMask(Shr(span, OFFSET_BITS * ordinal), 11);
    assert OFFSET_BITS * ordinal == 11 * ordinal;
  }

  lemma HasBitIsDigit(span: nat)
    ensures HasBit(span, HAS_VALUE_BIT) <==> span / 17592186044416 % 2 == 1
    ensures HasBit(span, QUOTED_BIT) <==> span / 35184372088832 % 2 == 1
  {
    Powers();
    ShlFits(1, 44, 64);
    ShlFits(1, 45, 64);
    AndBit(span, 44);
    AndBit(span, 45);
    BitIsQuotient(span, 44);
    BitIsQuotient(span, 45);
  }

  lemma DigitsOfSum(a: nat, b: nat, c: nat, d: nat, h: nat, q: nat)
    requires a < 2048 && b < 2048 && c < 2048 && d < 2048 && h <= 1 && q <= 1
    ensures var n := a + b * 2048 + c * 4194304 + d * 8589934592 + h * 17592186044416 + q * 35184372088832;
      && n % 2048 == a && n / 2048 % 2048 == b && n / 4194304 % 2048 == c && n / 8589934592 % 2048 == d
      && n / 17592186044416 % 2 == h && n / 35184372088832 % 2 == q
  {
    var n := a + b * 2048 + c * 4194304 + d * 8589934592 + h * 17592186044416 + q * 35184372088832;
    var n4 := h + 2 * q;
    var n3 := d + 2048 * n4;
    var n2 := c + 2048 * n3;
    var n1 := b + 2048 * n2;
    Quotient(n, 2048, n1, a);
    Quotient(n, 4194304, n2, a + b * 2048);
    Quotient(n, 8589934592, n3, a + b * 2048 + c * 4194304);
    Quotient(n, 17592186044416, n4, a + b * 2048 + c * 4194304 + d * 8589934592);
    Quotient(n, 35184372088832, q, a + b * 2048 + c * 4194304 + d * 8589934592 + h * 17592186044416);
    Quotient(n1, 2048, n2, b);
    Quotient(n2, 2048, n3, c);
    Quotient(n3, 2048, n4, d);
  }

  lemma DigitsUnpack(span: nat, a: nat, b: nat, c: nat, d: nat, h: nat, q: nat)
    requires a < 2048 && b < 2048 && c < 2048 && d < 2048 && h <= 1 && q <= 1
    requires span == a + b * 2048 + c * 4194304 + d * 8589934592 + h * 17592186044416 + q * 35184372088832
    ensures UnpackOffset(span, 0) == a && UnpackOffset(span, 1) == b
    ensures UnpackOffset(span, 2) == c && UnpackOffset(span, 3) == d
    ensures (HasBit(span, HAS_VALUE_BIT) <==> h == 1) && (HasBit(span, QUOTED_BIT) <==> q == 1)
  {
    DigitsOfSum(a, b, c, d, h, q);
    UnpackIsDigit(span, 0);
    UnpackIsDigit(span, 1);
    UnpackIsDigit(span, 2);
    UnpackIsDigit(span, 3);
    HasBitIsDigit(span);
  }

  /** Unpacking gives back what was packed. */
  lemma UnpackPack(a: nat, b: nat, c: nat, d: nat, hasValue: bool, quoted: bool)
    requires a <= LINE_MAX && b <= LINE_MAX && c <= LINE_MAX && d <= LINE_MAX
    ensures var span := PackSpan(a, b, c, d, hasValue, quoted);
      && span < 0x1_0000_0000_0000_0000
      && UnpackOffset(span, 0) == a && UnpackOffset(span, 1) == b
      && UnpackOffset(span, 2) == c && UnpackOffset(span, 3) == d
      && (HasBit(span, HAS_VALUE_BIT) <==> hasValue) && (HasBit(span, QUOTED_BIT) <==> quoted)
  {
    PackIsSum(a, b, c, d, hasValue, quoted);
    DigitsUnpack(PackSpan(a, b, c, d, hasValue, quoted), a, b, c, d, Flag(hasValue), Flag(quoted));
  }

  // ---------- what a span describes ----------

  /** The span tells which extension of the line to cut out. */
  ghost predicate Describes(line: Bytes, span: Word, extension: ChunkExtension) {
    var (nameStart, nameEnd) := (UnpackOffset(span, 0), UnpackOffset(span, 1));
    && nameStart <= nameEnd <= |line| && extension.name == LowerAll(line[nameStart..nameEnd])
    && if !HasBit(span, HAS_VALUE_BIT) then extension.value == None
       else
         var (valueStart, valueEnd) := (UnpackOffset(span, 2), UnpackOffset(span, 3));
         && valueStart <= valueEnd <= |line|
         && extension.value ==
              Some(if HasBit(span, QUOTED_BIT) then Unescape(line, valueStart, valueEnd) else line[valueStart..valueEnd])
  }

  /** A span for an extension without a value, a token value or a quoted value. */
  method Descriptor(line: Bytes, nameStart: nat, nameEnd: nat, valueStart: nat, valueEnd: nat, hasValue: bool, quoted: bool)
    returns (span: Word)
    requires |line| <= LINE_MAX && nameStart <= nameEnd <= |line| && valueStart <= valueEnd <= |line|
    ensures Describes(line, span, ChunkExtension(LowerAll(line[nameStart..nameEnd]),
      if !hasValue then None
      else Some(if quoted then Unescape(line, valueStart, valueEnd) else line[valueStart..valueEnd])))
  {
    UnpackPack(nameStart, nameEnd, valueStart, valueEnd, hasValue, quoted);
    span := PackSpan(nameStart, nameEnd, valueStart, valueEnd, hasValue, quoted);
  }

  // ---------- phase one and the size ----------

  method IsolateLine(input: Bytes) returns (r: Result<nat>)
    ensures r == LineFrom(input, 0)
  {
    var offset := 0;
    while offset < |input|
      invariant offset <= |input| && offset <= LINE_MAX && LineFrom(input, offset) == LineFrom(input, 0)
    {
      var byte := input[offset];
      if byte == '\r' && offset + 1 < |input| && input[offset + 1] == '\n' {
        assert offset <= LINE_MAX;
        return Ok(offset);
      }
      if IsControl(byte) { return Err(InvalidChunk(InvalidLineEndingOrControl)); }
      if offset == LINE_MAX { return Err(LimitExceeded(ChunkLineBytes, LINE_MAX, LINE_MAX + 1)); }
      offset := offset + 1;
    }
    return Err(Incomplete);
  }

  /** Shifting digits in never loses a bit of sixteen of them. */
  method ValidateSize(text: Bytes) returns (r: Result<nat>)
    ensures r == SizeOf(text)
  {
    if |text| < 1 || |text| > 16 { return Err(InvalidChunk(InvalidSize)); }
    var size := 0;
    for i := 0 to |text|
      invariant AllHex(text[..i]) && size == HexNumber(text[..i])
    {
      if !IsHexDigit(text[i]) { return Err(InvalidChunk(InvalidSize)); }
      var digit := HexValue(text[i]);
      assert size * 16 + digit == HexNumber(text[..i + 1]) by {
        assert text[..i + 1][..i] == text[..i];
      }
      assert size * 16 + digit < Pow2(64) by {
        HexNumberFits(text[..i + 1]);
        PowMonotone(4 * (i + 1), 64);
      }
      ShiftOrIsMultiplyAdd(size, digit);
      size := BitOr(Shl(size, 4, 64), digit);
    }
    assert text[..|text|] == text;
    if size > SIZE_MAX { return Err(LimitExceeded(ChunkSize, SIZE_MAX, size)); }
    return Ok(size);
  }

  // ---------- the projection of a quoted value ----------

  /** The bytes of a quoted value with each pair's backslash skipped, one at a time. */
  class ProjectedBytes {
    const raw: Bytes
    var offset: nat

    constructor (raw: Bytes)
      ensures this.raw == raw && offset == 0
    {
      this.raw := raw;
      offset := 0;
    }

    function Rest(): Bytes
      reads this
    {
      Unescape(raw, offset, |raw|)
    }

    method Next() returns (byte: Option<Byte>)
      modifies this
      ensures old(Rest()) == [] ==> byte.None? && Rest() == [] && offset >= old(offset)
      ensures old(Rest()) != [] ==> byte == Some(old(Rest())[0]) && Rest() == old(Rest())[1..] && offset > old(offset)
    {
      if offset >= |raw| { return None; }
      var first := raw[offset];
      offset := offset + (if first == '\\' then 2 else 1);
      if first == '\\' {
        return if offset - 1 < |raw| then Some(raw[offset - 1]) else None;
      }
      return Some(first);
    }
  }

  /** The ranges for what follows the first byte of a sequence; nothing for a byte that begins none. */
  function Ranges(first: Byte): Option<seq<(int, int)>> {
    var c := first as int;
    if c <= 0x7F then Some([])
    else if 0xC2 <= c <= 0xDF then Some([(0x80, 0xBF)])
    else if c == 0xE0 then Some([(0xA0, 0xBF), (0x80, 0xBF)])
    else if 0xE1 <= c <= 0xEC || 0xEE <= c <= 0xEF then Some([(0x80, 0xBF), (0x80, 0xBF)])
    else if c == 0xED then Some([(0x80, 0x9F), (0x80, 0xBF)])
    else if c == 0xF0 then Some([(0x90, 0xBF), (0x80, 0xBF), (0x80, 0xBF)])
    else if 0xF1 <= c <= 0xF3 then Some([(0x80, 0xBF), (0x80, 0xBF), (0x80, 0xBF)])
    else if c == 0xF4 then Some([(0x80, 0x8F), (0x80, 0xBF), (0x80, 0xBF)])
    else None
  }

  /** The next bytes lie in the ranges from the `k`-th on. */
  predicate InRanges(s: Bytes, ranges: seq<(int, int)>, k: nat)
    requires k <= |ranges|
    decreases |ranges| - k
  {
    k == |ranges|
    || (s != [] && ranges[k].0 <= s[0] as int <= ranges[k].1 && InRanges(s[1..], ranges, k + 1))
  }

  /** The table of ranges is the syntax of section 4 of RFC 3629. */
  lemma RangesAreSyntax(s: Bytes)
    requires s != []
    ensures var ranges, n := Ranges(s[0]), Utf8.SequenceLength(s);
      && (n > 0 <==> ranges.Some? && InRanges(s[1..], ranges.value, 0))
      && (n > 0 ==> n == 1 + |ranges.value|)
  {
    var ranges := Ranges(s[0]);
    if ranges.Some? {
      var r, t := ranges.value, s[1..];
      if |r| == 1 {
        assert InRanges(t, r, 0) <==> t != [] && r[0].0 <= t[0] as int <= r[0].1;
      } else if |r| == 2 {
        TwoRanges(t, r);
      } else if |r| == 3 {
        ThreeRanges(t, r);
      }
    }
  }

  lemma TwoRanges(t: Bytes, r: seq<(int, int)>)
    requires |r| == 2
    ensures InRanges(t, r, 0) <==>
      |t| >= 2 && r[0].0 <= t[0] as int <= r[0].1 && r[1].0 <= t[1] as int <= r[1].1
  {
    assert InRanges(t, r, 0) <==> t != [] && r[0].0 <= t[0] as int <= r[0].1 && InRanges(t[1..], r, 1);
    if t != [] { assert InRanges(t[1..], r, 1) <==> t[1..] != [] && r[1].0 <= t[1..][0] as int <= r[1].1; }
  }

  lemma ThreeRanges(t: Bytes, r: seq<(int, int)>)
    requires |r| == 3
    ensures InRanges(t, r, 0) <==>
      |t| >= 3 && r[0].0 <= t[0] as int <= r[0].1 && r[1].0 <= t[1] as int <= r[1].1 && r[2].0 <= t[2] as int <= r[2].1
  {
    assert InRanges(t, r, 0) <==> t != [] && r[0].0 <= t[0] as int <= r[0].1 && InRanges(t[1..], r, 1);
    if t != [] {
      var u := t[1..];
      assert InRanges(u, r, 1) <==> u != [] && r[1].0 <= u[0] as int <= r[1].1 && InRanges(u[1..], r, 2);
      if u != [] { assert InRanges(u[1..], r, 2) <==> u[1..] != [] && r[2].0 <= u[1..][0] as int <= r[2].1; }
    }
  }

  method TakeRanges(projected: ProjectedBytes, ranges: seq<(int, int)>) returns (ok: bool)
    modifies projected
    ensures ok == InRanges(old(projected.Rest()), ranges, 0)
    ensures ok ==> |ranges| <= |old(projected.Rest())| && projected.Rest() == old(projected.Rest())[|ranges|..]
    ensures projected.offset >= old(projected.offset)
  {
    ghost var s := projected.Rest();
    for k := 0 to |ranges|
      invariant k <= |s| && projected.Rest() == s[k..] && projected.offset >= old(projected.offset)
      invariant InRanges(s[k..], ranges, k) == InRanges(s, ranges, 0)
    {
      var byte := projected.Next();
      if byte.None? || byte.value as int < ranges[k].0 || byte.value as int > ranges[k].1 {
        return false;
      }
      assert s[k..][1..] == s[k + 1..];
    }
    return true;
  }

  method ValidUnescapedUtf8(raw: Bytes) returns (valid: bool)
    ensures valid == Utf8.Valid(Unescape(raw, 0, |raw|))
  {
    var projected := new ProjectedBytes(raw);
    while true
      invariant Utf8.Valid(projected.Rest()) == Utf8.Valid(Unescape(raw, 0, |raw|))
      invariant fresh(projected) && projected.raw == raw
      decreases |projected.Rest()|
    {
      ghost var s := projected.Rest();
      var first := projected.Next();
      if first.None? { return true; }
      RangesAreSyntax(s);
      var ranges := Ranges(first.value);
      if ranges.None? { return false; }
      var ok := TakeRanges(projected, ranges.value);
      if !ok { return false; }
      assert projected.Rest() == s[1..][|ranges.value|..] == s[1 + |ranges.value|..];
    }
  }

  method Collect(raw: Bytes) returns (bytes: Bytes)
    ensures bytes == Unescape(raw, 0, |raw|)
  {
    var projected := new ProjectedBytes(raw);
    bytes := [];
    while true
      invariant fresh(projected) && projected.raw == raw
      invariant bytes + projected.Rest() == Unescape(raw, 0, |raw|)
      decreases |projected.Rest()|
    {
      ghost var rest := projected.Rest();
      var byte := projected.Next();
      if byte.None? { break; }
      assert rest == [byte.value] + projected.Rest();
      ConcatAssociates(bytes, [byte.value], projected.Rest());
      bytes := bytes + [byte.value];
    }
    assert bytes + [] == bytes;
  }

  lemma {:induction false} ProjectShifted(s: Bytes, i: nat, j: nat, t: Bytes, d: nat)
    requires j <= |s| && j + d <= |t| && forall k :: i <= k < j ==> s[k] == t[k + d]
    ensures Unescape(s, i, j) == Unescape(t, i + d, j + d)
    decreases if i <= j then j - i else 0
  {
    if i < j {
      assert s[i] == t[i + d];
      if s[i] != '\\' {
        ProjectShifted(s, i + 1, j, t, d);
      } else if i + 1 < j {
        assert s[i + 1] == t[i + 1 + d];
        ProjectShifted(s, i + 2, j, t, d);
      }
    }
  }

  /** Projecting a slice is projecting that part of the line. */
  lemma ProjectSlice(line: Bytes, a: nat, b: nat)
    requires a <= b <= |line|
    ensures Unescape(line[a..b], 0, b - a) == Unescape(line, a, b)
  {
    ProjectShifted(line[a..b], 0, b - a, line, a);
  }

  // ---------- phase two: the grammar ----------

  method SkipToken(line: Bytes, start: nat) returns (cursor: nat)
    requires start <= |line|
    ensures cursor == TokenEnd(line, start)
  {
    cursor := start;
    while cursor < |line| && IsToken(line[cursor])
      invariant start <= cursor <= |line| && TokenEnd(line, cursor) == TokenEnd(line, start)
    {
      cursor := cursor + 1;
    }
  }

  /** A validated extension: its span, and where the line goes on. */
  ghost predicate SpanFor(line: Bytes, r: Result<(Word, nat)>, at: Result<Read<ChunkExtension>>) {
    if at.Err? then r == Err(at.error)
    else r.Ok? && r.value.1 == at.value.end && Describes(line, r.value.0, at.value.item)
  }

  /** The extension a name and the value that begins at `i` make up. */
  function WithValue(line: Bytes, nameStart: nat, nameEnd: nat, i: nat): Result<Read<ChunkExtension>>
    requires nameStart <= nameEnd <= |line| && i <= |line|
  {
    var value := ValueAt(line, i);
    if value.Err? then Err(value.error)
    else Ok(Read(ChunkExtension(LowerAll(line[nameStart..nameEnd]), Some(value.value.item)), value.value.end))
  }

  /** Where the scan for the closing quote has come to: past a backslash the next byte does not count. */
  method FindClosingQuote(line: Bytes, start: nat) returns (close: Option<nat>)
    requires start <= |line|
    ensures close == QuoteEnd(line, start)
  {
    var escaped := false;
    var cursor := start;
    while cursor < |line|
      invariant start <= cursor <= |line|
      invariant QuoteEnd(line, if escaped then cursor + 1 else cursor) == QuoteEnd(line, start)
    {
      if escaped {
        escaped := false;
      } else if line[cursor] == '\\' {
        escaped := true;
      } else if line[cursor] == '"' {
        return Some(cursor);
      }
      cursor := cursor + 1;
    }
    return None;
  }

  method ValidateTokenValue(line: Bytes, start: nat, nameStart: nat, nameEnd: nat) returns (r: Result<(Word, nat)>)
    requires |line| <= LINE_MAX && nameStart <= nameEnd <= |line| && start <= |line|
    requires start == |line| || line[start] != '"'
    ensures SpanFor(line, r, WithValue(line, nameStart, nameEnd, start))
  {
    var cursor := SkipToken(line, start);
    if cursor == start { return Err(InvalidChunk(InvalidExtensionValue)); }
    if cursor < |line| && line[cursor] != ';' { return Err(InvalidChunk(InvalidExtensionValue)); }
    var span := Descriptor(line, nameStart, nameEnd, start, cursor, true, false);
    return Ok((span, cursor));
  }

  method ValidateQuotedValue(line: Bytes, start: nat, nameStart: nat, nameEnd: nat) returns (r: Result<(Word, nat)>)
    requires |line| <= LINE_MAX && nameStart <= nameEnd <= |line| && start < |line| && line[start] == '"'
    ensures SpanFor(line, r, WithValue(line, nameStart, nameEnd, start))
  {
    var valueStart := start + 1;
    var close := FindClosingQuote(line, valueStart);
    if close.None? { return Err(InvalidChunk(InvalidQuotedString)); }
    var valueEnd := close.value;
    assert Unescape(line[valueStart..valueEnd], 0, valueEnd - valueStart) == Unescape(line, valueStart, valueEnd) by {
      ProjectSlice(line, valueStart, valueEnd);
    }
    var valid := ValidUnescapedUtf8(line[valueStart..valueEnd]);
    if !valid { return Err(InvalidChunk(InvalidQuotedString)); }
    var cursor := valueEnd + 1;
    if cursor < |line| && line[cursor] != ';' { return Err(InvalidChunk(InvalidExtensionValue)); }
    var span := Descriptor(line, nameStart, nameEnd, valueStart, valueEnd, true, true);
    return Ok((span, cursor));
  }

  method ValidateExtension(line: Bytes, nameStart: nat) returns (r: Result<(Word, nat)>)
    requires |line| <= LINE_MAX && nameStart <= |line|
    ensures SpanFor(line, r, ExtensionAt(line, nameStart))
  {
    var nameEnd := SkipToken(line, nameStart);
    if nameEnd - nameStart < 1 || nameEnd - nameStart > NAME_MAX { return Err(InvalidChunk(InvalidExtensionName)); }
    if nameEnd == |line| || line[nameEnd] == ';' {
      var span := Descriptor(line, nameStart, nameEnd, 0, 0, false, false);
      return Ok((span, nameEnd));
    }
    if line[nameEnd] == '=' {
      if nameEnd + 1 == |line| || line[nameEnd + 1] != '"' {
        r := ValidateTokenValue(line, nameEnd + 1, nameStart, nameEnd);
      } else {
        r := ValidateQuotedValue(line, nameEnd + 1, nameStart, nameEnd);
      }
      return;
    }
    return Err(InvalidChunk(InvalidExtensionName));
  }

  ghost predicate AllDescribed(line: Bytes, spans: array<Word>, extensions: seq<ChunkExtension>)
    reads spans
  {
    |extensions| <= spans.Length && forall i :: 0 <= i < |extensions| ==> Describes(line, spans[i], extensions[i])
  }

  method StoreSpan(line: Bytes, spans: array<Word>, count: nat, span: Word, ghost extensions: seq<ChunkExtension>,
                   ghost extension: ChunkExtension)
    requires count == |extensions| < spans.Length && AllDescribed(line, spans, extensions) && Describes(line, span, extension)
    modifies spans
    ensures AllDescribed(line, spans, extensions + [extension])
  {
    spans[count] := span;
  }

  method ValidateExtensions(line: Bytes, start: nat, spans: array<Word>) returns (r: Result<nat>, ghost extensions: seq<ChunkExtension>)
    requires |line| <= LINE_MAX && start <= |line| && spans.Length == EXTENSION_MAX
    requires start < |line| ==> line[start] == ';'
    modifies spans
    ensures r.Err? ==> ExtensionsFrom(line, start, []) == Err(r.error)
    ensures r.Ok? ==>
      ExtensionsFrom(line, start, []) == Ok(extensions) && r.value == |extensions| && AllDescribed(line, spans, extensions)
  {
    var cursor := start;
    var count := 0;
    extensions := [];
    while cursor < |line|
      invariant cursor <= |line| && count == |extensions| <= EXTENSION_MAX
      invariant AllDescribed(line, spans, extensions)
      invariant ExtensionsFrom(line, cursor, extensions) == ExtensionsFrom(line, start, [])
    {
      var ordinal := count + 1;
      if ordinal > EXTENSION_MAX { return Err(LimitExceeded(ChunkExtensions, EXTENSION_MAX, ordinal)), extensions; }
      var checked := ValidateExtension(line, cursor + 1);
      if checked.Err? { return Err(checked.error), extensions; }
      ghost var next := ExtensionAt(line, cursor + 1).value;
      assert ExtensionsFrom(line, cursor, extensions) == ExtensionsFrom(line, next.end, extensions + [next.item]) by {
        ExtensionsStep(line, cursor, extensions, next);
      }
      StoreSpan(line, spans, count, checked.value.0, extensions, next.item);
      cursor := checked.value.1;
      count := ordinal;
      extensions := extensions + [next.item];
    }
    return Ok(count), extensions;
  }

  // ---------- phase three: cutting the text out ----------

  method MaterializeValue(line: Bytes, valueStart: nat, valueEnd: nat, quoted: bool) returns (value: Bytes)
    requires valueStart <= valueEnd <= |line|
    ensures value == if quoted then Unescape(line, valueStart, valueEnd) else line[valueStart..valueEnd]
  {
    value := line[valueStart..valueEnd];
    if quoted {
      ProjectSlice(line, valueStart, valueEnd);
      value := Collect(value);
    }
  }

  method MaterializeExtension(line: Bytes, span: Word, ghost extension: ChunkExtension) returns (r: ChunkExtension)
    requires Describes(line, span, extension)
    ensures r == extension
  {
    var name := LowerAll(line[UnpackOffset(span, 0)..UnpackOffset(span, 1)]);
    if !HasBit(span, HAS_VALUE_BIT) { return ChunkExtension(name, None); }
    var value := MaterializeValue(line, UnpackOffset(span, 2), UnpackOffset(span, 3), HasBit(span, QUOTED_BIT));
    return ChunkExtension(name, Some(value));
  }

  method MaterializeExtensions(line: Bytes, spans: array<Word>, count: nat, ghost extensions: seq<ChunkExtension>)
    returns (r: seq<ChunkExtension>)
    requires count == |extensions| && AllDescribed(line, spans, extensions)
    ensures r == extensions
  {
    r := [];
    for i := 0 to count
      invariant r == extensions[..i]
    {
      assert Describes(line, spans[i], extensions[i]);
      var extension := MaterializeExtension(line, spans[i], extensions[i]);
      r := r + [extension];
    }
  }

  /** Packing spans first and cutting later is the direct parse, errors included. */
  method ParseBySpans(input: Bytes) returns (r: Result<ChunkMeta>)
    ensures r == ParseChunk(input)
  {
    var end := IsolateLine(input);
    if end.Err? { return Err(end.error); }
    var line := input[..end.value];
    var sizeEnd := IndexOf(line, ';');
    IndexOfFirst(line, ';');
    var size := ValidateSize(line[..sizeEnd]);
    if size.Err? { return Err(size.error); }
    var spans := new Word[EXTENSION_MAX](_ => 0);
    var count, described := ValidateExtensions(line, sizeEnd, spans);
    if count.Err? { return Err(count.error); }
    var extensions := MaterializeExtensions(line, spans, count.value, described);
    return Ok(ChunkMeta(size.value, extensions, end.value + 2));
  }
}
