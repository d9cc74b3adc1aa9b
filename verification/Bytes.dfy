/** Bytes, byte classes and the slice helpers that every step of the proxy shares.

A byte is a character below 256, so that wire text can be written as a string literal. */
module Bytes {

  type Byte = c: char | c as int < 256 witness ' '

  type Bytes = seq<Byte>

  const CRLF: Bytes := "\r\n"

  // ---------- byte classes ----------

  predicate IsDigit(c: Byte) { '0' <= c <= '9' }

  predicate IsLower(c: Byte) { 'a' <= c <= 'z' }

  predicate IsUpper(c: Byte) { 'A' <= c <= 'Z' }

  predicate IsAlphanumeric(c: Byte) { IsDigit(c) || IsLower(c) || IsUpper(c) }

  predicate IsTokenPunctuation(c: Byte) {
    c == '!' || c == '#' || c == '$' || c == '%' || c == '&' || c == '\'' || c == '*' || c == '+'
    || c == '-' || c == '.' || c == '^' || c == '_' || c == '`' || c == '|' || c == '~'
  }

  predicate IsToken(c: Byte) { IsAlphanumeric(c) || IsTokenPunctuation(c) }

  predicate IsUnreserved(c: Byte) { IsAlphanumeric(c) || c == '-' || c == '.' || c == '_' || c == '~' }

  predicate IsOws(c: Byte) { c == ' ' || c == '\t' }

  predicate IsVisible(c: Byte) { '!' <= c <= '~' }

  predicate IsControl(c: Byte) { c as int <= 31 || c as int == 127 }

  predicate IsFieldValue(c: Byte) { c == '\t' || ' ' <= c <= '~' || c as int >= 128 }

  predicate IsHexDigit(c: Byte) { IsDigit(c) || 'a' <= c <= 'f' || 'A' <= c <= 'F' }

  predicate IsUpperHexDigit(c: Byte) { IsDigit(c) || 'A' <= c <= 'F' }

  function HexValue(c: Byte): (n: nat)
    requires IsHexDigit(c)
    ensures n < 16
  {
    if IsDigit(c) then c as int - 48 else if c >= 'a' then c as int - 87 else c as int - 55
  }

  function Lower(c: Byte): Byte {
    if IsUpper(c) then (c as int + 32) as char else c
  }

  function Upper(c: Byte): Byte {
    if IsLower(c) then (c as int - 32) as char else c
  }

  function LowerAll(s: Bytes): (r: Bytes)
    ensures |r| == |s|
    ensures forall i {:trigger r[i]} :: 0 <= i < |s| ==> r[i] == Lower(s[i])
  {
    if s == [] then [] else LowerAll(s[..|s| - 1]) + [Lower(s[|s| - 1])]
  }

  lemma LowerOfSlice(s: Bytes, i: nat, j: nat)
    requires i <= j <= |s|
    ensures LowerAll(s[i..j]) == LowerAll(s)[i..j]
  {
    hide LowerAll;
    var part := s[i..j];
    forall k | 0 <= k < |part| ensures LowerAll(part)[k] == LowerAll(s)[i..j][k] {
      assert LowerAll(part)[k] == Lower(part[k]) && LowerAll(s)[i + k] == Lower(s[i + k]);
    }
  }

  function UpperAll(s: Bytes): (r: Bytes)
    ensures |r| == |s|
    ensures forall i {:trigger r[i]} :: 0 <= i < |s| ==> r[i] == Upper(s[i])
  {
    if s == [] then [] else UpperAll(s[..|s| - 1]) + [Upper(s[|s| - 1])]
  }

  predicate AllToken(s: Bytes) { forall i :: 0 <= i < |s| ==> IsToken(s[i]) }

  predicate NoUpper(s: Bytes) { forall i :: 0 <= i < |s| ==> !IsUpper(s[i]) }

  predicate AllFieldValue(s: Bytes) { forall i :: 0 <= i < |s| ==> IsFieldValue(s[i]) }

  predicate AllDigits(s: Bytes) { forall i :: 0 <= i < |s| ==> IsDigit(s[i]) }

  /** Token bytes are none of the bytes that delimit a head. */
  lemma TokenIsPlain(s: Bytes)
    requires AllToken(s)
    ensures forall i :: 0 <= i < |s| ==> s[i] != ':' && s[i] != ' ' && s[i] != '\t' && s[i] != '\r' && s[i] != '\n' && s[i] != ','
  {
    forall i | 0 <= i < |s|
      ensures s[i] != ':' && s[i] != ' ' && s[i] != '\t' && s[i] != '\r' && s[i] != '\n' && s[i] != ','
    {
      assert IsToken(s[i]);
    }
  }

  predicate EqualIgnoringCase(s: Bytes, t: Bytes) { LowerAll(s) == LowerAll(t) }

  predicate StartsWith(s: Bytes, prefix: Bytes) { prefix <= s }

  lemma ConcatAssociates<T>(a: seq<T>, b: seq<T>, c: seq<T>)
    ensures a + (b + c) == a + b + c
  {
  }

  // ---------- searching and splitting ----------

  predicate CrlfAt(input: Bytes, i: nat) { i + 1 < |input| && input[i] == '\r' && input[i + 1] == '\n' }

  /** The first index of `c` in `s`, or the length of `s`. */
  function IndexOf(s: Bytes, c: Byte): (i: nat)
    ensures i <= |s|
  {
    IndexFrom(s, c, 0)
  }

  function IndexFrom(s: Bytes, c: Byte, from: nat): (i: nat)
    requires from <= |s|
    ensures from <= i <= |s|
    decreases |s| - from
  {
    if from == |s| || s[from] == c then from else IndexFrom(s, c, from + 1)
  }

  lemma {:induction false} IndexFromFirst(s: Bytes, c: Byte, from: nat)
    requires from <= |s|
    ensures forall k :: from <= k < IndexFrom(s, c, from) ==> s[k] != c
    ensures IndexFrom(s, c, from) < |s| ==> s[IndexFrom(s, c, from)] == c
    decreases |s| - from
  {
    if from < |s| && s[from] != c { IndexFromFirst(s, c, from + 1); }
  }

  lemma IndexOfFirst(s: Bytes, c: Byte)
    ensures forall k :: 0 <= k < IndexOf(s, c) ==> s[k] != c
    ensures IndexOf(s, c) < |s| ==> s[IndexOf(s, c)] == c
  {
    IndexFromFirst(s, c, 0);
  }

  lemma IndexOfUnique(s: Bytes, c: Byte, i: nat)
    requires i <= |s| && (i < |s| ==> s[i] == c)
    requires forall k :: 0 <= k < i ==> s[k] != c
    ensures IndexOf(s, c) == i
  {
    IndexOfFirst(s, c);
  }

  /** Splitting at every `c`; there is always at least one part. */
  function Split(s: Bytes, c: Byte): (parts: seq<Bytes>)
    ensures |parts| >= 1
    decreases |s|
  {
    var i := IndexOf(s, c);
    if i == |s| then [s] else [s[..i]] + Split(s[i + 1..], c)
  }

  function Join(parts: seq<Bytes>, c: Byte): Bytes {
    if parts == [] then []
    else if |parts| == 1 then parts[0]
    else parts[0] + [c] + Join(parts[1..], c)
  }

  lemma JoinCons(first: Bytes, rest: seq<Bytes>, c: Byte)
    requires rest != []
    ensures Join([first] + rest, c) == first + [c] + Join(rest, c)
  {
    assert ([first] + rest)[1..] == rest;
  }

  lemma {:induction false} JoinSplit(s: Bytes, c: Byte)
    ensures Join(Split(s, c), c) == s
    decreases |s|
  {
    var i := IndexOf(s, c);
    IndexOfFirst(s, c);
    if i < |s| {
      JoinSplit(s[i + 1..], c);
      JoinCons(s[..i], Split(s[i + 1..], c), c);
      assert s == s[..i] + [c] + s[i + 1..];
    }
  }

  lemma {:induction false} SplitHasNoSeparator(s: Bytes, c: Byte)
    ensures forall part :: part in Split(s, c) ==> c !in part
    decreases |s|
  {
    var i := IndexOf(s, c);
    IndexOfFirst(s, c);
    if i < |s| {
      SplitHasNoSeparator(s[i + 1..], c);
    }
  }

  lemma {:induction false} SplitJoin(parts: seq<Bytes>, c: Byte)
    requires |parts| >= 1
    requires forall part :: part in parts ==> c !in part
    ensures Split(Join(parts, c), c) == parts
  {
    var s := Join(parts, c);
    assert parts[0] in parts;
    if |parts| == 1 {
      IndexOfUnique(s, c, |s|);
    } else {
      IndexOfUnique(s, c, |parts[0]|);
      assert s[..|parts[0]|] == parts[0];
      assert s[|parts[0]| + 1..] == Join(parts[1..], c);
      SplitJoin(parts[1..], c);
    }
  }

  /** Splitting a prefix that ends just before a separator. */
  lemma SplitStep(s: Bytes, c: Byte, i: nat)
    requires i < |s| && s[i] == c
    requires forall k :: 0 <= k < i ==> s[k] != c
    ensures Split(s, c) == [s[..i]] + Split(s[i + 1..], c)
  {
    IndexOfUnique(s, c, i);
  }

  lemma SplitLast(s: Bytes, c: Byte)
    requires c !in s
    ensures Split(s, c) == [s]
  {
    IndexOfUnique(s, c, |s|);
  }

  lemma {:induction false} SplitAppend(a: Bytes, b: Bytes, c: Byte)
    ensures Split(a + [c] + b, c) == Split(a, c) + Split(b, c)
    decreases |a|
  {
    hide Split;
    var i, whole := IndexOf(a, c), a + [c] + b;
    IndexOfFirst(a, c);
    if i < |a| {
      SplitAppend(a[i + 1..], b, c);
      SplitStep(whole, c, i);
      SplitStep(a, c, i);
      assert whole[..i] == a[..i] && whole[i + 1..] == a[i + 1..] + [c] + b;
    } else {
      SplitStep(whole, c, |a|);
      SplitLast(a, c);
      assert whole[..|a|] == a && whole[|a| + 1..] == b;
    }
  }

  lemma {:induction false} JoinAppend(a: seq<Bytes>, b: seq<Bytes>, c: Byte)
    requires a != [] && b != []
    ensures Join(a + b, c) == Join(a, c) + [c] + Join(b, c)
  {
    if |a| == 1 {
      assert a + b == [a[0]] + b;
      JoinCons(a[0], b, c);
    } else {
      assert a + b == [a[0]] + (a[1..] + b);
      JoinAppend(a[1..], b, c);
      JoinCons(a[0], a[1..] + b, c);
    }
  }

  /** The parts of one text begin the parts of another exactly when the texts are equal or a separator follows. */
  lemma SplitPrefix(a: Bytes, b: Bytes, c: Byte)
    ensures Split(a, c) <= Split(b, c) <==> b == a || (a <= b && |a| < |b| && b[|a|] == c)
  {
    hide Split;
    if a <= b && |a| < |b| && b[|a|] == c { PartsExtend(a, b, c); }
    if Split(a, c) <= Split(b, c) { PartsPrefix(a, b, c); }
  }

  lemma PartsExtend(a: Bytes, b: Bytes, c: Byte)
    requires a <= b && |a| < |b| && b[|a|] == c
    ensures Split(a, c) <= Split(b, c)
  {
    hide Split;
    SplitAppend(a, b[|a| + 1..], c);
    assert b == a + [c] + b[|a| + 1..];
  }

  lemma PartsPrefix(a: Bytes, b: Bytes, c: Byte)
    requires Split(a, c) <= Split(b, c)
    ensures b == a || (a <= b && |a| < |b| && b[|a|] == c)
  {
    hide Split;
    hide Join;
    JoinSplit(a, c);
    JoinSplit(b, c);
    if Split(a, c) != Split(b, c) { JoinPrefix(Split(a, c), Split(b, c), c); }
  }

  lemma JoinPrefix(first: seq<Bytes>, all: seq<Bytes>, c: Byte)
    requires first != [] && first <= all && first != all
    ensures var (a, b) := (Join(first, c), Join(all, c)); a <= b && |a| < |b| && b[|a|] == c
  {
    hide Join;
    var more := all[|first|..];
    assert all == first + more;
    JoinAppend(first, more, c);
  }

  /** Every byte of a text is a separator or belongs to a part. */
  lemma {:induction false} InSomePart(s: Bytes, c: Byte, i: nat) returns (part: Bytes, k: nat)
    requires i < |s| && s[i] != c
    ensures part in Split(s, c) && k < |part| && part[k] == s[i]
    decreases |s|
  {
    var cut := IndexOf(s, c);
    IndexOfFirst(s, c);
    if cut == |s| {
      part, k := s, i;
    } else if i < cut {
      part, k := s[..cut], i;
    } else {
      part, k := InSomePart(s[cut + 1..], c, i - cut - 1);
    }
  }

  datatype Position = Nowhere | At(index: nat)

  predicate OccursAt(haystack: Bytes, needle: Bytes, i: nat) {
    i + |needle| <= |haystack| && haystack[i..i + |needle|] == needle
  }

  function FindSequence(haystack: Bytes, needle: Bytes): (at: Position)
    ensures at.At? ==> OccursAt(haystack, needle, at.index)
    ensures at.At? ==> forall i :: 0 <= i < at.index ==> !OccursAt(haystack, needle, i)
    ensures at.Nowhere? ==> forall i: nat :: !OccursAt(haystack, needle, i)
  {
    FindFrom(haystack, needle, 0)
  }

  function FindFrom(haystack: Bytes, needle: Bytes, from: nat): (at: Position)
    ensures at.At? ==> from <= at.index && OccursAt(haystack, needle, at.index)
    ensures at.At? ==> forall i :: from <= i < at.index ==> !OccursAt(haystack, needle, i)
    ensures at.Nowhere? ==> forall i :: from <= i ==> !OccursAt(haystack, needle, i)
    decreases if from <= |haystack| then |haystack| - from else 0
  {
    if from + |needle| > |haystack| then Nowhere
    else if OccursAt(haystack, needle, from) then At(from)
    else if from == |haystack| then Nowhere
    else FindFrom(haystack, needle, from + 1)
  }

  // ---------- texts within texts ----------

  /** A text stands in another at this place. */
  predicate StandsAt(s: Bytes, i: nat, text: Bytes) { i + |text| <= |s| && s[i..i + |text|] == text }

  lemma StandsWithin(s: Bytes, i: nat, text: Bytes)
    requires StandsAt(s, i, text)
    ensures i + |text| <= |s|
  {
  }

  lemma StandsByte(s: Bytes, i: nat, text: Bytes, k: nat)
    requires StandsAt(s, i, text) && k < |text|
    ensures i + k < |s| && s[i + k] == text[k]
  {
    assert s[i..i + |text|][k] == text[k];
  }

  lemma StandsParts(s: Bytes, i: nat, a: Bytes, b: Bytes)
    ensures StandsAt(s, i, a + b) <==> StandsAt(s, i, a) && StandsAt(s, i + |a|, b)
  {
    if StandsAt(s, i, a + b) {
      var whole := s[i..i + |a + b|];
      assert whole[..|a|] == a && whole[|a|..] == b;
      assert s[i..i + |a|] == whole[..|a|] && s[i + |a|..i + |a| + |b|] == whole[|a|..];
    }
    if StandsAt(s, i, a) && StandsAt(s, i + |a|, b) {
      assert s[i..i + |a + b|] == s[i..i + |a|] + s[i + |a|..i + |a| + |b|];
    }
  }

  // ---------- optional whitespace ----------

  predicate NoEdgeOws(s: Bytes) {
    s == [] || (!IsOws(s[0]) && !IsOws(s[|s| - 1]))
  }

  /** Where the whitespace that starts at `i` ends. */
  function OwsEnd(s: Bytes, i: nat): (j: nat)
    requires i <= |s|
    ensures i <= j <= |s|
    decreases |s| - i
  {
    if i < |s| && IsOws(s[i]) then OwsEnd(s, i + 1) else i
  }

  /** Where the whitespace that ends at `j` starts, not looking below `low`. */
  function OwsStart(s: Bytes, low: nat, j: nat): (i: nat)
    requires low <= j <= |s|
    ensures low <= i <= j
  {
    if low < j && IsOws(s[j - 1]) then OwsStart(s, low, j - 1) else j
  }

  /** `s` without its leading and trailing spaces and tabs. */
  function TrimOws(s: Bytes): (t: Bytes)
    ensures |t| <= |s|
  {
    var i := OwsEnd(s, 0);
    s[i..OwsStart(s, i, |s|)]
  }

  /** `s[i..j]` is `s` with exactly its edge whitespace cut off. */
  ghost predicate Trims(s: Bytes, i: nat, j: nat) {
    && i <= j <= |s|
    && (forall k :: 0 <= k < i ==> IsOws(s[k]))
    && (forall k :: j <= k < |s| ==> IsOws(s[k]))
    && (i < j ==> !IsOws(s[i]) && !IsOws(s[j - 1]))
  }

  lemma {:induction false} OwsEndAll(s: Bytes, i: nat)
    requires i <= |s|
    ensures forall k :: i <= k < OwsEnd(s, i) ==> IsOws(s[k])
    ensures OwsEnd(s, i) < |s| ==> !IsOws(s[OwsEnd(s, i)])
    decreases |s| - i
  {
    if i < |s| && IsOws(s[i]) { OwsEndAll(s, i + 1); }
  }

  lemma {:induction false} OwsStartAll(s: Bytes, low: nat, j: nat)
    requires low <= j <= |s|
    ensures forall k :: OwsStart(s, low, j) <= k < j ==> IsOws(s[k])
    ensures OwsStart(s, low, j) > low ==> !IsOws(s[OwsStart(s, low, j) - 1])
  {
    if low < j && IsOws(s[j - 1]) { OwsStartAll(s, low, j - 1); }
  }

  lemma TrimOwsResult(s: Bytes) returns (i: nat, j: nat)
    ensures Trims(s, i, j) && TrimOws(s) == s[i..j]
  {
    i := OwsEnd(s, 0);
    j := OwsStart(s, i, |s|);
    OwsEndAll(s, 0);
    OwsStartAll(s, i, |s|);
  }

  /** Every way of trimming gives the same slice. */
  lemma TrimOwsIs(s: Bytes, i: nat, j: nat)
    requires Trims(s, i, j)
    ensures TrimOws(s) == s[i..j]
  {
    var i', j' := TrimOwsResult(s);
    if i < j {
      assert i' <= i && i <= i' && j' <= j && j <= j';
    } else {
      assert i' == j';
    }
  }

  lemma TrimOwsHasNoEdgeOws(s: Bytes)
    ensures NoEdgeOws(TrimOws(s)) && |TrimOws(s)| <= |s|
  {
    var i, j := TrimOwsResult(s);
  }

  lemma TrimOwsOfTrimmed(s: Bytes)
    requires NoEdgeOws(s)
    ensures TrimOws(s) == s
  {
    TrimOwsIs(s, 0, |s|);
  }

  // ---------- a text of any length ----------

  function Letters(n: nat): (s: Bytes)
    ensures |s| == n && forall i :: 0 <= i < n ==> s[i] == 'a'
  {
    if n == 0 then [] else Letters(n - 1) + ['a']
  }

  lemma LettersArePlain(n: nat)
    ensures var s := Letters(n);
      AllToken(s) && NoUpper(s) && AllFieldValue(s) && NoEdgeOws(s) && LowerAll(s) == s
  {
    var s := Letters(n);
    assert forall i :: 0 <= i < |s| ==> IsToken(s[i]) && IsFieldValue(s[i]) && Lower(s[i]) == s[i];
  }
}
