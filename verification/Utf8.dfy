/** UTF-8 by the syntax of section 4 of RFC 3629, and by what the octets encode. */
module Utf8 {
  import opened Bytes

  predicate In(low: int, c: Byte, high: int) { low <= c as int <= high }

  predicate Tail(c: Byte) { In(0x80, c, 0xBF) }

  /** The length of the sequence that `s` begins with, or 0. */
  function SequenceLength(s: Bytes): (n: nat)
    ensures n <= |s| && n <= 4
  {
    if s == [] then 0
    else if In(0x00, s[0], 0x7F) then 1
    else if |s| >= 2 && In(0xC2, s[0], 0xDF) && Tail(s[1]) then 2
    else if |s| >= 3 && Tail(s[2]) && ThreeHead(s[0], s[1]) then 3
    else if |s| >= 4 && Tail(s[2]) && Tail(s[3]) && FourHead(s[0], s[1]) then 4
    else 0
  }

  predicate ThreeHead(a: Byte, b: Byte) {
    || (In(0xE0, a, 0xE0) && In(0xA0, b, 0xBF))
    || (In(0xE1, a, 0xEC) && Tail(b))
    || (In(0xED, a, 0xED) && In(0x80, b, 0x9F))
    || (In(0xEE, a, 0xEF) && Tail(b))
  }

  predicate FourHead(a: Byte, b: Byte) {
    || (In(0xF0, a, 0xF0) && In(0x90, b, 0xBF))
    || (In(0xF1, a, 0xF3) && Tail(b))
    || (In(0xF4, a, 0xF4) && In(0x80, b, 0x8F))
  }

  predicate Valid(s: Bytes) {
    s == [] || (var n := SequenceLength(s); n > 0 && Valid(s[n..]))
  }

  // ---------- characters and their octets ----------

  /** A character number: not beyond U+10FFFF and not a surrogate. */
  type Scalar = c: nat | c < 0xD800 || 0xE000 <= c < 0x110000

  function TailOctet(bits: nat): Byte
    requires bits < 64
  {
    (0x80 + bits) as char
  }

  /** The octets of one character, as section 3 of RFC 3629 lays its bits out. */
  function Encode(c: Scalar): Bytes {
    if c < 0x80 then [c as char]
    else if c < 0x800 then [(0xC0 + c / 64) as char, TailOctet(c % 64)]
    else if c < 0x10000 then [(0xE0 + c / 4096) as char, TailOctet(c / 64 % 64), TailOctet(c % 64)]
    else [(0xF0 + c / 262144) as char, TailOctet(c / 4096 % 64), TailOctet(c / 64 % 64), TailOctet(c % 64)]
  }

  function EncodeAll(text: seq<Scalar>): Bytes {
    if text == [] then [] else Encode(text[0]) + EncodeAll(text[1..])
  }

  lemma EncodedIsSequence(c: Scalar, rest: Bytes)
    ensures SequenceLength(Encode(c) + rest) == |Encode(c)| > 0
  {
    var s := Encode(c) + rest;
    if c < 0x80 {
      assert s[0] == Encode(c)[0];
    } else if c < 0x800 {
      assert s[0] == Encode(c)[0] && s[1] == Encode(c)[1];
    } else if c < 0x10000 {
      assert s[0] == Encode(c)[0] && s[1] == Encode(c)[1] && s[2] == Encode(c)[2];
    } else {
      assert s[0] == Encode(c)[0] && s[1] == Encode(c)[1] && s[2] == Encode(c)[2] && s[3] == Encode(c)[3];
    }
  }

  /** The character a sequence stands for. */
  function Decode(s: Bytes): (c: Scalar)
    requires SequenceLength(s) > 0
  {
    var n := SequenceLength(s);
    if n == 1 then s[0] as int
    else if n == 2 then (s[0] as int - 0xC0) * 64 + (s[1] as int - 0x80)
    else if n == 3 then (s[0] as int - 0xE0) * 4096 + (s[1] as int - 0x80) * 64 + (s[2] as int - 0x80)
    else (s[0] as int - 0xF0) * 262144 + (s[1] as int - 0x80) * 4096 + (s[2] as int - 0x80) * 64 + (s[3] as int - 0x80)
  }

  lemma TwoOctets(a: nat, b: nat)
    requires b < 64
    ensures (a * 64 + b) / 64 == a && (a * 64 + b) % 64 == b
  {
  }

  lemma ThreeOctets(a: nat, b: nat, c: nat)
    requires b < 64 && c < 64
    ensures var n := a * 4096 + b * 64 + c;
      n / 4096 == a && n / 64 % 64 == b && n % 64 == c
  {
    TwoOctets(a * 64 + b, c);
    TwoOctets(a, b);
  }

  lemma FourOctets(a: nat, b: nat, c: nat, d: nat)
    requires b < 64 && c < 64 && d < 64
    ensures var n := a * 262144 + b * 4096 + c * 64 + d;
      n / 262144 == a && n / 4096 % 64 == b && n / 64 % 64 == c && n % 64 == d
  {
    ThreeOctets(a * 64 + b, c, d);
    TwoOctets(a, b);
  }

  lemma EncodeOfDecode(s: Bytes)
    requires SequenceLength(s) > 0
    ensures Encode(Decode(s)) == s[..SequenceLength(s)]
  {
    var n, c := SequenceLength(s), Decode(s);
    if n == 1 {
      assert Encode(c) == [s[0]];
    } else if n == 2 {
      TwoOctets(s[0] as int - 0xC0, s[1] as int - 0x80);
      assert Encode(c) == [s[0], s[1]];
    } else if n == 3 {
      ThreeOctets(s[0] as int - 0xE0, s[1] as int - 0x80, s[2] as int - 0x80);
      assert Encode(c) == [s[0], s[1], s[2]];
    } else {
      FourOctets(s[0] as int - 0xF0, s[1] as int - 0x80, s[2] as int - 0x80, s[3] as int - 0x80);
      assert Encode(c) == [s[0], s[1], s[2], s[3]];
    }
  }

  lemma FirstCharacter(s: Bytes) returns (c: Scalar, n: nat)
    requires s != [] && Valid(s)
    ensures 0 < n <= |s| && Encode(c) == s[..n] && Valid(s[n..])
  {
    n := SequenceLength(s);
    c := Decode(s);
    EncodeOfDecode(s);
  }

  lemma {:induction false} ValidIsEncoded(s: Bytes) returns (text: seq<Scalar>)
    requires Valid(s)
    ensures EncodeAll(text) == s
  {
    if s == [] {
      text := [];
    } else {
      var c, n := FirstCharacter(s);
      var rest := ValidIsEncoded(s[n..]);
      text := [c] + rest;
      assert text[1..] == rest;
      assert s == s[..n] + s[n..];
    }
  }

  lemma {:induction false} EncodedIsValid(text: seq<Scalar>)
    ensures Valid(EncodeAll(text))
  {
    if text != [] {
      EncodedIsValid(text[1..]);
      EncodedIsSequence(text[0], EncodeAll(text[1..]));
      assert EncodeAll(text)[|Encode(text[0])|..] == EncodeAll(text[1..]);
    }
  }

  /** The syntax accepts exactly the octets of character sequences. */
  lemma ValidMeansEncoded(s: Bytes)
    ensures Valid(s) <==> exists text :: EncodeAll(text) == s
  {
    if Valid(s) { var text := ValidIsEncoded(s); }
    if exists text :: EncodeAll(text) == s {
      var text :| EncodeAll(text) == s;
      EncodedIsValid(text);
    }
  }
}
