/** The byte classes and digits that all steps share, against the texts that name them. */
module ByteClasses {
  import opened Bytes
  import D = Decimals

  const DIGITS: Bytes := "0123456789"
  const LOWER_HEX: Bytes := "0123456789abcdef"
  const UPPER_HEX: Bytes := "0123456789ABCDEF"
  const LOWER_LETTERS: Bytes := "abcdefghijklmnopqrstuvwxyz"
  const UPPER_LETTERS: Bytes := "ABCDEFGHIJKLMNOPQRSTUVWXYZ"

  /** A hexadecimal digit, in either case, for this number. */
  predicate Spells(c: Byte, n: nat) { n < 16 && (c == LOWER_HEX[n] || c == UPPER_HEX[n]) }

  lemma LowerHexCodes()
    ensures |LOWER_HEX| == 16
    ensures forall n :: 0 <= n < 16 ==> LOWER_HEX[n] as int == if n < 10 then 48 + n else 87 + n
  {
  }

  lemma UpperHexCodes()
    ensures |UPPER_HEX| == 16
    ensures forall n :: 0 <= n < 16 ==> UPPER_HEX[n] as int == if n < 10 then 48 + n else 55 + n
  {
  }

  lemma LowerCodes()
    ensures |LOWER_LETTERS| == 26
    ensures forall n :: 0 <= n < 26 ==> LOWER_LETTERS[n] as int == 97 + n
  {
  }

  lemma UpperCodes()
    ensures |UPPER_LETTERS| == 26
    ensures forall n :: 0 <= n < 26 ==> UPPER_LETTERS[n] as int == 65 + n
  {
  }

  /** The value of a digit is its place in the digit texts, and nothing else is a digit. */
  lemma HexDigits(c: Byte, n: nat)
    ensures Spells(c, n) <==> IsHexDigit(c) && HexValue(c) == n
  {
    LowerHexCodes();
    UpperHexCodes();
    hide LOWER_HEX;
    hide UPPER_HEX;
  }

  lemma HexTable()
    ensures forall n :: 0 <= n < 16 ==> IsHexDigit(LOWER_HEX[n]) && HexValue(LOWER_HEX[n]) == n
    ensures forall n :: 0 <= n < 16 ==> IsHexDigit(UPPER_HEX[n]) && HexValue(UPPER_HEX[n]) == n
  {
    LowerHexCodes();
    UpperHexCodes();
    hide LOWER_HEX;
    hide UPPER_HEX;
  }

  lemma DecimalDigits(c: Byte, n: nat)
    requires n < 10
    ensures c == DIGITS[n] <==> IsDigit(c) && D.DigitValue(c) == n
    ensures D.Digit(n) == DIGITS[n]
  {
  }

  /** Decimal digits, the last one for the remainder and those before it for the quotient. */
  predicate SpellsNumber(text: Bytes, n: nat) {
    if text == [] then n == 0 else text[|text| - 1] == DIGITS[n % 10] && SpellsNumber(text[..|text| - 1], n / 10)
  }

  lemma {:induction false} NumberSpelled(text: Bytes, n: nat)
    ensures SpellsNumber(text, n) <==> AllDigits(text) && D.Decimal(text) == n
  {
    if text != [] {
      var init, last := text[..|text| - 1], text[|text| - 1];
      DecimalDigits(last, n % 10);
      hide DIGITS;
      NumberSpelled(init, n / 10);
      assert AllDigits(text) <==> AllDigits(init) && IsDigit(last) by {
        assert forall i :: 0 <= i < |init| ==> init[i] == text[i];
      }
    }
  }

  /** A number is printed in digits that spell it, without a leading zero. */
  lemma {:induction false} RenderSpells(n: nat)
    ensures SpellsNumber(D.Render(n), n) && (|D.Render(n)| > 1 ==> D.Render(n)[0] != '0')
    decreases n
  {
    var text := D.Render(n);
    D.DecimalOfRender(n);
    NumberSpelled(text, n);
    if n >= 10 {
      RenderSpells(n / 10);
      if n / 10 < 10 { DecimalDigits(text[0], n / 10); }
    }
  }

  /** Letters change to the letter at the same place of the other alphabet; every other byte stays. */
  lemma LetterCase(c: Byte)
    ensures forall n :: 0 <= n < 26 ==> (c == UPPER_LETTERS[n] ==> Lower(c) == LOWER_LETTERS[n])
    ensures forall n :: 0 <= n < 26 ==> (c == LOWER_LETTERS[n] ==> Upper(c) == UPPER_LETTERS[n])
    ensures c !in UPPER_LETTERS ==> Lower(c) == c
    ensures c !in LOWER_LETTERS ==> Upper(c) == c
  {
    LowerCodes();
    UpperCodes();
    hide LOWER_LETTERS;
    hide UPPER_LETTERS;
    if IsUpper(c) { assert UPPER_LETTERS[c as int - 65] == c; }
    if IsLower(c) { assert LOWER_LETTERS[c as int - 97] == c; }
  }

  lemma AlphanumericBytes(c: Byte)
    ensures IsAlphanumeric(c) <==> c in DIGITS || c in LOWER_LETTERS || c in UPPER_LETTERS
  {
    LowerCodes();
    UpperCodes();
    hide LOWER_LETTERS;
    hide UPPER_LETTERS;
    if IsUpper(c) { assert UPPER_LETTERS[c as int - 65] == c; }
    if IsLower(c) { assert LOWER_LETTERS[c as int - 97] == c; }
    if IsDigit(c) { assert DIGITS[c as int - 48] == c; }
  }

  /** The bytes of a token, section 5.6.2 of RFC 9110, and the unreserved characters, section 2.3 of RFC 3986. */
  lemma TokenBytes(c: Byte)
    ensures IsToken(c) <==> c in "!#$%&'*+-.^_`|~" || c in DIGITS || c in LOWER_LETTERS || c in UPPER_LETTERS
    ensures IsUnreserved(c) <==> c in "-._~" || c in DIGITS || c in LOWER_LETTERS || c in UPPER_LETTERS
  {
    AlphanumericBytes(c);
    hide LOWER_LETTERS;
    hide UPPER_LETTERS;
    hide DIGITS;
    hide IsAlphanumeric;
  }

  // ---------- parts ----------

  /** A piece of a text without separators, between separators or the ends. */
  predicate Between(s: Bytes, c: Byte, i: nat, j: nat) {
    i <= j <= |s| && (i > 0 ==> s[i - 1] == c) && (j < |s| ==> s[j] == c) && c !in s[i..j]
  }

  lemma {:induction false} PartIsBetween(s: Bytes, c: Byte, part: Bytes) returns (i: nat, j: nat)
    requires part in Split(s, c)
    ensures Between(s, c, i, j) && s[i..j] == part
    decreases |s|
  {
    hide Split;
    var cut := IndexOf(s, c);
    IndexOfFirst(s, c);
    if cut < |s| { SplitStep(s, c, cut); } else { SplitLast(s, c); }
    if part == s[..cut] {
      i, j := 0, cut;
      assert s[0..cut] == s[..cut];
    } else {
      var rest := s[cut + 1..];
      var a, b := PartIsBetween(rest, c, part);
      i, j := a + cut + 1, b + cut + 1;
      Shifted(s, c, cut + 1, a, b);
    }
  }

  lemma Shifted(s: Bytes, c: Byte, n: nat, a: nat, b: nat)
    requires 0 < n <= |s| && s[n - 1] == c && Between(s[n..], c, a, b)
    ensures Between(s, c, a + n, b + n) && s[a + n..b + n] == s[n..][a..b]
  {
    assert s[a + n..b + n] == s[n..][a..b];
    assert a > 0 ==> s[n..][a - 1] == s[a + n - 1];
  }

  lemma {:induction false} BetweenIsPart(s: Bytes, c: Byte, i: nat, j: nat)
    requires Between(s, c, i, j)
    ensures s[i..j] in Split(s, c)
    decreases |s|
  {
    hide Split;
    var cut := IndexOf(s, c);
    IndexOfFirst(s, c);
    if i == 0 {
      assert forall k :: 0 <= k < j ==> s[k] == s[0..j][k];
      IndexOfUnique(s, c, j);
      assert s[0..j] == s[..j];
      FirstPart(s, c);
    } else {
      assert cut <= i - 1;
      Unshifted(s, c, cut + 1, i, j);
      BetweenIsPart(s[cut + 1..], c, i - cut - 1, j - cut - 1);
      SplitStep(s, c, cut);
    }
  }

  lemma Unshifted(s: Bytes, c: Byte, n: nat, i: nat, j: nat)
    requires n <= i && Between(s, c, i, j)
    ensures Between(s[n..], c, i - n, j - n) && s[i..j] == s[n..][i - n..j - n]
  {
    assert s[n..][i - n..j - n] == s[i..j];
    assert i > n ==> s[n..][i - n - 1] == s[i - 1];
  }

  lemma FirstPart(s: Bytes, c: Byte)
    ensures s[..IndexOf(s, c)] in Split(s, c)
  {
    assert Split(s, c)[0] == s[..IndexOf(s, c)];
  }

  predicate PieceAt(s: Bytes, c: Byte, i: nat, j: nat, part: Bytes) { Between(s, c, i, j) && s[i..j] == part }

  /** The parts of a text are its pieces between separators. */
  lemma PartsAre(s: Bytes, c: Byte, part: Bytes)
    ensures part in Split(s, c) <==> exists i: nat, j: nat :: PieceAt(s, c, i, j, part)
  {
    hide Split;
    if part in Split(s, c) {
      var i, j := PartIsBetween(s, c, part);
      assert PieceAt(s, c, i, j, part);
    }
    if exists i: nat, j: nat :: PieceAt(s, c, i, j, part) {
      var i: nat, j: nat :| PieceAt(s, c, i, j, part);
      BetweenIsPart(s, c, i, j);
    }
  }
}
