/** The grammar of the line that introduces a chunk, and the parser against it. */
module ChunkLines {
  import opened ByteClasses
  import opened Bytes
  import opened Chunks
  import opened Http
  import Utf8

  // ---------- sizes ----------

  /** Hexadecimal digits of either case, the last one for the remainder and those before it for the quotient. */
  predicate SpellsSize(text: Bytes, n: nat) {
    if text == [] then n == 0 else Spells(text[|text| - 1], n % 16) && SpellsSize(text[..|text| - 1], n / 16)
  }

  lemma {:induction false} SizeSpelled(text: Bytes, n: nat)
    ensures SpellsSize(text, n) <==> AllHex(text) && HexNumber(text) == n
  {
    hide Spells;
    if text != [] {
      var init, last := text[..|text| - 1], text[|text| - 1];
      HexDigits(last, n % 16);
      SizeSpelled(init, n / 16);
      assert AllHex(text) <==> AllHex(init) && IsHexDigit(last) by {
        assert forall i :: 0 <= i < |init| ==> init[i] == text[i];
      }
    }
  }

  // ---------- extensions as they are written ----------

  /** A byte between quotes, with a backslash before it or not. */
  datatype QuotedByte = QuotedByte(byte: Byte, escaped: bool)

  datatype WrittenValue = Absent | TokenText(text: Bytes) | QuotedText(bytes: seq<QuotedByte>)

  datatype Written = Written(name: Bytes, value: WrittenValue)

  function Piece(b: QuotedByte): Bytes { if b.escaped then ['\\', b.byte] else [b.byte] }

  function Inside(bytes: seq<QuotedByte>): Bytes {
    if bytes == [] then []
    else Piece(bytes[0]) + Inside(bytes[1..])
  }

  function Plain(bytes: seq<QuotedByte>): Bytes {
    if bytes == [] then [] else [bytes[0].byte] + Plain(bytes[1..])
  }

  predicate Quotable(bytes: seq<QuotedByte>) {
    forall i :: 0 <= i < |bytes| ==> bytes[i].escaped || (bytes[i].byte != '"' && bytes[i].byte != '\\')
  }

  predicate ValueAllowed(value: WrittenValue) {
    match value
    case Absent => true
    case TokenText(text) => text != [] && AllToken(text)
    case QuotedText(bytes) => Quotable(bytes) && Utf8.Valid(Plain(bytes))
  }

  predicate Allowed(w: Written) { 1 <= |w.name| <= NAME_MAX && AllToken(w.name) && ValueAllowed(w.value) }

  function ValueText(value: WrittenValue): Bytes {
    match value
    case Absent => []
    case TokenText(text) => ['='] + text
    case QuotedText(bytes) => ['=', '"'] + Inside(bytes) + ['"']
  }

  function ValueMeaning(value: WrittenValue): Option<Bytes> {
    match value
    case Absent => None
    case TokenText(text) => Some(text)
    case QuotedText(bytes) => Some(Plain(bytes))
  }

  function Text(w: Written): Bytes { w.name + ValueText(w.value) }

  function Meaning(w: Written): ChunkExtension {
    ChunkExtension(LowerAll(w.name), ValueMeaning(w.value))
  }

  predicate AllAllowed(list: seq<Written>) { forall i :: 0 <= i < |list| ==> Allowed(list[i]) }

  function ListText(list: seq<Written>): Bytes {
    if list == [] then [] else [';'] + Text(list[0]) + ListText(list[1..])
  }

  function Meanings(list: seq<Written>): (r: seq<ChunkExtension>)
    ensures |r| == |list|
  {
    if list == [] then [] else [Meaning(list[0])] + Meanings(list[1..])
  }

  // ---------- reading what is written ----------

  /** An item ends where the line does or a semicolon stands. */
  predicate EndsAt(line: Bytes, end: nat) { end == |line| || (end < |line| && line[end] == ';') }

  lemma {:induction false} TokenRun(line: Bytes, i: nat, j: nat)
    requires i <= j <= |line| && (forall k :: i <= k < j ==> IsToken(line[k])) && (j < |line| ==> !IsToken(line[j]))
    ensures TokenEnd(line, i) == j
    decreases j - i
  {
    if i < j { TokenRun(line, i + 1, j); }
  }

  lemma TokenStands(line: Bytes, i: nat, text: Bytes)
    requires StandsAt(line, i, text) && AllToken(text)
    requires i + |text| < |line| ==> line[i + |text|] == ';' || line[i + |text|] == '='
    ensures TokenEnd(line, i) == i + |text|
  {
    forall k | i <= k < i + |text| ensures IsToken(line[k]) { StandsByte(line, i, text, k - i); }
    TokenRun(line, i, i + |text|);
  }

  lemma PlainStep(line: Bytes, i: nat, j: nat)
    requires i < j <= |line| && line[i] != '\\' && line[i] != '"'
    ensures QuoteEnd(line, i) == QuoteEnd(line, i + 1) && Unescape(line, i, j) == [line[i]] + Unescape(line, i + 1, j)
  {
  }

  lemma EscapedStep(line: Bytes, i: nat, j: nat)
    requires i + 1 < j <= |line| && line[i] == '\\'
    ensures QuoteEnd(line, i) == QuoteEnd(line, i + 2) && Unescape(line, i, j) == [line[i + 1]] + Unescape(line, i + 2, j)
  {
  }

  lemma InsideCons(bytes: seq<QuotedByte>)
    requires bytes != [] && Quotable(bytes)
    ensures Inside(bytes) == Piece(bytes[0]) + Inside(bytes[1..])
    ensures Inside(bytes) + ['"'] == Piece(bytes[0]) + (Inside(bytes[1..]) + ['"'])
    ensures Plain(bytes) == [bytes[0].byte] + Plain(bytes[1..])
    ensures Quotable(bytes[1..]) && (bytes[0].escaped || (bytes[0].byte != '"' && bytes[0].byte != '\\'))
  {
    ConcatAssociates(Piece(bytes[0]), Inside(bytes[1..]), ['"']);
    assert forall k :: 0 <= k < |bytes[1..]| ==> bytes[1..][k] == bytes[k + 1];
  }

  lemma NothingInside(bytes: seq<QuotedByte>)
    requires bytes == []
    ensures Inside(bytes) == [] && Plain(bytes) == [] && Inside(bytes) + ['"'] == ['"']
  {
  }

  /** Quoted bytes are read up to their closing quote, as what they stand for. */
  lemma {:induction false} QuotedStands(line: Bytes, i: nat, bytes: seq<QuotedByte>)
    requires Quotable(bytes) && StandsAt(line, i, Inside(bytes) + ['"'])
    ensures i + |Inside(bytes)| < |line|
    ensures QuoteEnd(line, i) == Some(i + |Inside(bytes)|)
    ensures Unescape(line, i, i + |Inside(bytes)|) == Plain(bytes)
    decreases |bytes|
  {
    hide StandsAt;
    hide Quotable;
    hide Inside;
    hide Plain;
    StandsWithin(line, i, Inside(bytes) + ['"']);
    if bytes == [] {
      NothingInside(bytes);
      StandsByte(line, i, ['"'], 0);
    } else {
      hide QuoteEnd;
      hide Unescape;
      InsideCons(bytes);
      var first, rest := Piece(bytes[0]), Inside(bytes[1..]) + ['"'];
      StandsParts(line, i, first, rest);
      StandsByte(line, i, first, 0);
      QuotedStands(line, i + |first|, bytes[1..]);
      if bytes[0].escaped {
        StandsByte(line, i, first, 1);
        EscapedStep(line, i, i + |Inside(bytes)|);
      } else {
        PlainStep(line, i, i + |Inside(bytes)|);
      }
    }
  }

  lemma TokenValueStands(line: Bytes, i: nat, text: Bytes)
    requires text != [] && AllToken(text) && StandsAt(line, i, ['='] + text) && EndsAt(line, i + 1 + |text|)
    ensures i < |line| && line[i] == '=' && ValueAt(line, i + 1) == Ok(Read(text, i + 1 + |text|))
  {
    StandsParts(line, i, ['='], text);
    StandsByte(line, i, ['='], 0);
    StandsByte(line, i + 1, text, 0);
    TokenStands(line, i + 1, text);
    assert IsToken(text[0]) && line[i + 1] != '"';
    assert line[i + 1..i + 1 + |text|] == text;
    hide TokenEnd;
  }

  lemma QuotedValueStands(line: Bytes, i: nat, bytes: seq<QuotedByte>)
    requires Quotable(bytes) && Utf8.Valid(Plain(bytes))
    requires StandsAt(line, i, ['=', '"'] + (Inside(bytes) + ['"'])) && EndsAt(line, i + 3 + |Inside(bytes)|)
    ensures i < |line| && line[i] == '=' && ValueAt(line, i + 1) == Ok(Read(Plain(bytes), i + 3 + |Inside(bytes)|))
  {
    hide Quotable;
    hide Inside;
    hide Plain;
    hide Utf8.Valid;
    hide QuoteEnd;
    hide Unescape;
    var inside := Inside(bytes) + ['"'];
    StandsParts(line, i, ['=', '"'], inside);
    StandsByte(line, i, ['=', '"'], 0);
    StandsByte(line, i, ['=', '"'], 1);
    QuotedStands(line, i + 2, bytes);
  }

  lemma ValueStands(line: Bytes, i: nat, value: WrittenValue)
    requires ValueAllowed(value) && value != Absent && StandsAt(line, i, ValueText(value)) && EndsAt(line, i + |ValueText(value)|)
    ensures i < |line| && line[i] == '='
    ensures ValueAt(line, i + 1) == Ok(Read(ValueMeaning(value).value, i + |ValueText(value)|))
  {
    hide ValueAt;
    hide StandsAt;
    match value {
      case TokenText(text) => TokenValueStands(line, i, text);
      case QuotedText(bytes) =>
        ConcatAssociates(['=', '"'], Inside(bytes), ['"']);
        QuotedValueStands(line, i, bytes);
    }
  }

  /** A written extension is read as what it means. */
  lemma WrittenReads(line: Bytes, i: nat, w: Written)
    requires Allowed(w) && StandsAt(line, i, Text(w)) && EndsAt(line, i + |Text(w)|)
    ensures i <= |line| && ExtensionAt(line, i) == Ok(Read(Meaning(w), i + |Text(w)|))
  {
    hide ValueAt;
    hide ValueAllowed;
    hide TokenEnd;
    hide LowerAll;
    StandsParts(line, i, w.name, ValueText(w.value));
    if w.value == Absent {
      assert w.name + [] == w.name;
    } else {
      ValueStands(line, i + |w.name|, w.value);
    }
    TokenStands(line, i, w.name);
    hide ValueText;
    assert line[i..i + |w.name|] == w.name;
  }

  lemma ListCons(list: seq<Written>)
    requires list != []
    ensures ListText(list) == [';'] + (Text(list[0]) + ListText(list[1..]))
    ensures Meanings(list) == [Meaning(list[0])] + Meanings(list[1..])
    ensures AllAllowed(list) ==> Allowed(list[0]) && AllAllowed(list[1..])
  {
    hide Text;
    hide Meaning;
    hide Allowed;
    assert forall k :: 0 <= k < |list[1..]| ==> list[1..][k] == list[k + 1];
  }

  /** The rest of a line is the texts of these extensions. */
  predicate RestOf(line: Bytes, i: nat, list: seq<Written>) { i + |ListText(list)| == |line| && StandsAt(line, i, ListText(list)) }

  lemma RestStep(line: Bytes, i: nat, list: seq<Written>)
    requires RestOf(line, i, list) && list != []
    ensures i < |line| && line[i] == ';' && StandsAt(line, i + 1, Text(list[0])) && RestOf(line, i + 1 + |Text(list[0])|, list[1..])
    ensures EndsAt(line, i + 1 + |Text(list[0])|)
  {
    hide ListText;
    hide Text;
    hide StandsAt;
    hide AllAllowed;
    hide Meanings;
    var first, rest := Text(list[0]), ListText(list[1..]);
    ListCons(list);
    StandsWithin(line, i, ListText(list));
    StandsParts(line, i, [';'], first + rest);
    StandsParts(line, i + 1, first, rest);
    StandsByte(line, i, [';'], 0);
    if list[1..] != [] {
      ListCons(list[1..]);
      StandsByte(line, i + 1 + |first|, rest, 0);
    } else {
      NoList(list[1..]);
    }
  }

  lemma NoList(list: seq<Written>)
    requires list == []
    ensures ListText(list) == [] && Meanings(list) == []
  {
  }

  lemma NoneLeft(line: Bytes, i: nat, list: seq<Written>, done: seq<ChunkExtension>)
    requires list == [] && RestOf(line, i, list)
    ensures i <= |line| && ExtensionsFrom(line, i, done) == Ok(done + Meanings(list))
  {
    NoList(list);
    assert done + [] == done;
  }

  /** A list of extensions is read as what they mean, in order. */
  lemma {:induction false} ListReads(line: Bytes, i: nat, list: seq<Written>, done: seq<ChunkExtension>)
    requires AllAllowed(list) && RestOf(line, i, list) && |done| + |list| <= EXTENSION_MAX
    ensures i <= |line| && ExtensionsFrom(line, i, done) == Ok(done + Meanings(list))
    decreases |list|
  {
    hide RestOf;
    hide EndsAt;
    hide StandsAt;
    hide ListText;
    hide Text;
    hide Meaning;
    hide Meanings;
    hide Allowed;
    hide AllAllowed;
    hide ExtensionAt;
    hide ExtensionsFrom;
    if list == [] {
      NoneLeft(line, i, list, done);
    } else {
      RestStep(line, i, list);
      ListCons(list);
      var n := i + 1 + |Text(list[0])|;
      WrittenReads(line, i + 1, list[0]);
      ListReads(line, n, list[1..], done + [Meaning(list[0])]);
      ExtensionsStep(line, i, done, Read(Meaning(list[0]), n));
      ConcatAssociates(done, [Meaning(list[0])], Meanings(list[1..]));
    }
  }

  // ---------- the whole line ----------

  /** A size of at most sixteen digits and at most sixteen extensions, within 1024 bytes and without control bytes. */
  predicate LineParts(size: Bytes, n: nat, list: seq<Written>) {
    && 1 <= |size| <= 16 && SpellsSize(size, n) && n <= SIZE_MAX && |list| <= EXTENSION_MAX && AllAllowed(list)
    && |size + ListText(list)| <= LINE_MAX
    && forall i :: 0 <= i < |size + ListText(list)| ==> !IsControl((size + ListText(list))[i])
  }

  lemma LineSplits(size: Bytes, list: seq<Written>)
    requires AllHex(size)
    ensures var line := size + ListText(list);
      IndexOf(line, ';') == |size| && line[..|size|] == size && RestOf(line, |size|, list)
  {
    hide ListText;
    hide Text;
    hide Meanings;
    hide Meaning;
    hide AllAllowed;
    if list == [] { NoList(list); } else { ListCons(list); }
    HexThenList(size, ListText(list));
  }

  lemma HexThenList(size: Bytes, after: Bytes)
    requires AllHex(size) && (after != [] ==> after[0] == ';')
    ensures var line := size + after; IndexOf(line, ';') == |size| && line[..|size|] == size && line[|size|..|line|] == after
  {
    var line := size + after;
    forall k | 0 <= k < |size| ensures line[k] != ';' { assert line[k] == size[k] && IsHexDigit(size[k]); }
    IndexOfUnique(line, ';', |size|);
  }

  lemma LineEnds(line: Bytes, rest: Bytes)
    requires |line| <= LINE_MAX && forall i :: 0 <= i < |line| ==> !IsControl(line[i])
    ensures LineFrom(line + CRLF + rest, 0) == Ok(|line|) && (line + CRLF + rest)[..|line|] == line
  {
    var input := line + CRLF + rest;
    assert forall k :: 0 <= k < |line| ==> input[k] == line[k];
    assert input[|line|] == '\r' && input[|line| + 1] == '\n';
    LineMeaning(input, 0, |line|);
  }

  /** A written line is read as its size and its extensions, whatever follows it. */
  lemma LineReads(size: Bytes, n: nat, list: seq<Written>, rest: Bytes)
    requires LineParts(size, n, list)
    ensures ParseChunk(size + ListText(list) + CRLF + rest) ==
            Ok(ChunkMeta(n, Meanings(list), |size + ListText(list)| + 2))
  {
    hide AllHex;
    hide HexNumber;
    hide SpellsSize;
    hide ListText;
    hide AllAllowed;
    hide RestOf;
    hide LineFrom;
    hide ExtensionsFrom;
    hide Meanings;
    var line := size + ListText(list);
    SizeSpelled(size, n);
    LineEnds(line, rest);
    LineSplits(size, list);
    ListReads(line, |size|, list, []);
    assert [] + Meanings(list) == Meanings(list);
  }

  // ---------- and nothing else is accepted ----------

  lemma {:induction false} TokenEndAll(line: Bytes, i: nat)
    requires i <= |line|
    ensures AllToken(line[i..TokenEnd(line, i)])
    decreases |line| - i
  {
    if i < |line| && IsToken(line[i]) {
      TokenEndAll(line, i + 1);
      assert line[i..TokenEnd(line, i)] == [line[i]] + line[i + 1..TokenEnd(line, i)];
    }
  }

  /** What stands before a closing quote is quoted bytes. */
  lemma {:induction false} QuotedFrom(line: Bytes, i: nat, j: nat) returns (bytes: seq<QuotedByte>)
    requires QuoteEnd(line, i) == Some(j)
    ensures i <= j < |line| && Quotable(bytes) && Inside(bytes) == line[i..j] && Plain(bytes) == Unescape(line, i, j)
    decreases j - i
  {
    if line[i] == '"' {
      bytes := [];
    } else {
      var escaped := line[i] == '\\';
      var next := if escaped then i + 2 else i + 1;
      var rest := QuotedFrom(line, next, j);
      var first := QuotedByte(line[next - 1], escaped);
      bytes := [first] + rest;
      QuotedCons(line, i, j, first, rest);
      if escaped { EscapedStep(line, i, j); } else { PlainStep(line, i, j); }
    }
  }

  lemma QuotedCons(line: Bytes, i: nat, j: nat, first: QuotedByte, rest: seq<QuotedByte>)
    requires Quotable(rest) && (first.escaped || (first.byte != '"' && first.byte != '\\'))
    requires i + |Piece(first)| <= j <= |line| && Piece(first) == line[i..i + |Piece(first)|]
    requires Inside(rest) == line[i + |Piece(first)|..j]
    ensures Quotable([first] + rest) && Inside([first] + rest) == line[i..j]
    ensures Plain([first] + rest) == [first.byte] + Plain(rest)
  {
    assert ([first] + rest)[1..] == rest;
  }

  lemma QuotedValueFrom(line: Bytes, i: nat) returns (value: WrittenValue)
    requires i < |line| && line[i] == '"' && ValueAt(line, i).Ok?
    ensures var read := ValueAt(line, i).value;
      && value != Absent && ValueAllowed(value) && ValueText(value) == ['='] + line[i..read.end]
      && ValueMeaning(value) == Some(read.item)
  {
    hide QuoteEnd;
    hide Unescape;
    hide Inside;
    hide Plain;
    hide Quotable;
    hide Utf8.Valid;
    hide TokenEnd;
    var close := QuoteEnd(line, i + 1).value;
    var bytes := QuotedFrom(line, i + 1, close);
    value := QuotedText(bytes);
    assert line[i..close + 1] == ['"'] + line[i + 1..close] + ['"'];
  }

  lemma ValueFrom(line: Bytes, i: nat) returns (value: WrittenValue)
    requires i <= |line| && ValueAt(line, i).Ok?
    ensures var read := ValueAt(line, i).value;
      && value != Absent && ValueAllowed(value) && ValueText(value) == ['='] + line[i..read.end]
      && ValueMeaning(value) == Some(read.item)
  {
    hide QuoteEnd;
    hide Unescape;
    hide Utf8.Valid;
    hide TokenEnd;
    if i < |line| && line[i] == '"' {
      value := QuotedValueFrom(line, i);
    } else {
      TokenEndAll(line, i);
      value := TokenText(line[i..TokenEnd(line, i)]);
    }
  }

  lemma WrittenFrom(line: Bytes, i: nat) returns (w: Written)
    requires i <= |line| && ExtensionAt(line, i).Ok?
    ensures var read := ExtensionAt(line, i).value; Allowed(w) && Text(w) == line[i..read.end] && Meaning(w) == read.item
  {
    hide TokenEnd;
    hide AllToken;
    hide LowerAll;
    hide ValueAt;
    hide ValueText;
    hide ValueMeaning;
    hide ValueAllowed;
    var end := TokenEnd(line, i);
    TokenEndAll(line, i);
    var name := line[i..end];
    if end == |line| || line[end] == ';' {
      w := Written(name, Absent);
      AbsentText();
      assert name + [] == name;
    } else {
      var value := ValueFrom(line, end + 1);
      var after := ValueAt(line, end + 1).value.end;
      w := Written(name, value);
      assert line[i..after] == name + (['='] + line[end + 1..after]);
    }
  }

  lemma AbsentText()
    ensures ValueText(Absent) == [] && ValueMeaning(Absent) == None && ValueAllowed(Absent)
  {
  }

  lemma {:induction false} ListFrom(line: Bytes, i: nat, done: seq<ChunkExtension>) returns (list: seq<Written>)
    requires i <= |line| && ExtensionsFrom(line, i, done).Ok? && EndsAt(line, i) && |done| <= EXTENSION_MAX
    ensures AllAllowed(list) && ListText(list) == line[i..] && |done| + |list| <= EXTENSION_MAX
    ensures ExtensionsFrom(line, i, done).value == done + Meanings(list)
    decreases |line| - i
  {
    hide ExtensionAt;
    hide Text;
    hide Meaning;
    hide Allowed;
    if i == |line| {
      list := [];
      assert done + [] == done;
    } else {
      var next := ExtensionAt(line, i + 1).value;
      var w := WrittenFrom(line, i + 1);
      var rest := ListFrom(line, next.end, done + [next.item]);
      list := [w] + rest;
      assert list[1..] == rest;
      ConcatAssociates(done, [next.item], Meanings(rest));
      assert line[i..] == [';'] + line[i + 1..next.end] + line[next.end..];
    }
  }

  lemma MetaFrom(line: Bytes, bytesConsumed: nat) returns (size: Bytes, list: seq<Written>)
    requires MetaOfLine(line, bytesConsumed).Ok?
    ensures var meta := MetaOfLine(line, bytesConsumed).value;
      && 1 <= |size| <= 16 && SpellsSize(size, meta.size) && meta.size <= SIZE_MAX
      && |list| <= EXTENSION_MAX && AllAllowed(list) && line == size + ListText(list)
      && meta == ChunkMeta(meta.size, Meanings(list), bytesConsumed)
  {
    hide SpellsSize;
    hide HexNumber;
    hide AllHex;
    hide ExtensionsFrom;
    hide ListText;
    hide Meanings;
    hide AllAllowed;
    var semicolon := IndexOf(line, ';');
    IndexOfFirst(line, ';');
    hide IndexOf;
    size := line[..semicolon];
    SizeSpelled(size, HexNumber(size));
    list := ListFrom(line, semicolon, []);
    assert [] + Meanings(list) == Meanings(list);
    assert line == line[..semicolon] + line[semicolon..];
  }

  /** Whatever is accepted begins with such a line, and is reported as what the line says. */
  lemma AcceptedLine(input: Bytes) returns (size: Bytes, list: seq<Written>)
    requires ParseChunk(input).Ok?
    ensures var meta := ParseChunk(input).value; var line := size + ListText(list);
      && LineParts(size, meta.size, list) && line + CRLF <= input
      && meta == ChunkMeta(meta.size, Meanings(list), |line| + 2)
  {
    hide LineFrom;
    hide MetaOfLine;
    hide LineParts;
    hide ListText;
    hide Meanings;
    hide SpellsSize;
    hide AllAllowed;
    hide IsControl;
    var end := LineFrom(input, 0).value;
    var line := input[..end];
    size, list := MetaFrom(line, end + 2);
    assert |line| <= LINE_MAX && line + CRLF <= input && forall i :: 0 <= i < |line| ==> !IsControl(line[i]) by {
      LineMeaning(input, 0, end);
      assert line + CRLF == input[..end + 2];
    }
    LinePartsOf(line, size, ParseChunk(input).value.size, list);
  }

  lemma LinePartsOf(line: Bytes, size: Bytes, n: nat, list: seq<Written>)
    requires line == size + ListText(list) && |line| <= LINE_MAX && forall i :: 0 <= i < |line| ==> !IsControl(line[i])
    requires 1 <= |size| <= 16 && SpellsSize(size, n) && n <= SIZE_MAX && |list| <= EXTENSION_MAX && AllAllowed(list)
    ensures LineParts(size, n, list)
  {
    hide SpellsSize;
    hide ListText;
    hide AllAllowed;
  }
}
