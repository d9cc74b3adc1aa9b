/** Decimal text: reading it, writing it, and how long it is. */
module Decimals {
  import opened Bytes
  import opened Http

  const U64 := 0x1_0000_0000_0000_0000

  function DigitValue(c: Byte): (n: nat)
    requires IsDigit(c)
    ensures n < 10
  {
    c as int - 48
  }

  function Digit(n: nat): (c: Byte)
    requires n < 10
    ensures IsDigit(c) && DigitValue(c) == n
  {
    (n + 48) as char
  }

  function Decimal(s: Bytes): nat
    requires AllDigits(s)
  {
    if s == [] then 0 else Decimal(s[..|s| - 1]) * 10 + DigitValue(s[|s| - 1])
  }

  /** What a 64-bit reader makes of `s`: nothing when it is empty, not all digits or too large. */
  function DecimalValue(s: Bytes): Option<nat> {
    if s == [] || !AllDigits(s) || Decimal(s) >= U64 then None else Some(Decimal(s))
  }

  lemma {:induction false} DecimalPrefix(s: Bytes, i: nat)
    requires AllDigits(s) && i <= |s|
    ensures Decimal(s[..i]) <= Decimal(s)
    decreases |s|
  {
    if i < |s| {
      DecimalPrefix(s[..|s| - 1], i);
      assert s[..|s| - 1][..i] == s[..i];
    } else {
      assert s[..i] == s;
    }
  }

  /** Accumulating with an overflow check at every digit. */
  method ReadDecimal(s: Bytes) returns (r: Option<nat>)
    ensures r == DecimalValue(s)
  {
    if s == [] { return None; }
    var value := 0;
    for i := 0 to |s|
      invariant AllDigits(s[..i]) && value == Decimal(s[..i]) < U64
    {
      if !IsDigit(s[i]) { return None; }
      assert s[..i + 1][..i] == s[..i];
      if value * 10 >= U64 || value * 10 + DigitValue(s[i]) >= U64 {
        if AllDigits(s) { DecimalPrefix(s, i + 1); }
        return None;
      }
      value := value * 10 + DigitValue(s[i]);
    }
    assert s[..|s|] == s;
    return Some(value);
  }

  // ---------- writing ----------

  function Render(n: nat): (s: Bytes)
    ensures |s| >= 1 && AllDigits(s)
  {
    if n < 10 then [Digit(n)] else Render(n / 10) + [Digit(n % 10)]
  }

  lemma {:induction false} DecimalOfRender(n: nat)
    ensures Decimal(Render(n)) == n
  {
    var s := Render(n);
    if n < 10 {
      assert s[..0] == [];
    } else {
      DecimalOfRender(n / 10);
      assert s[..|s| - 1] == Render(n / 10);
    }
  }

  function Pow10(k: nat): (p: nat)
    ensures p >= 1
  {
    if k == 0 then 1 else 10 * Pow10(k - 1)
  }

  /** The integer logarithm: the largest power of ten that fits. */
  ghost predicate IsLog10(n: nat, k: nat) { Pow10(k) <= n < Pow10(k + 1) }

  lemma {:induction false} RenderLength(n: nat)
    ensures n == 0 ==> |Render(n)| == 1
    ensures n > 0 ==> IsLog10(n, |Render(n)| - 1)
  {
    if n >= 10 {
      RenderLength(n / 10);
    } else {
      assert Pow10(1) == 10 * Pow10(0);
    }
  }

  lemma {:induction false} RenderBound(n: nat, k: nat)
    requires k >= 1 && n < Pow10(k)
    ensures |Render(n)| <= k
    decreases k
  {
    if n >= 10 {
      PowStep(0);
      RenderBound(n / 10, k - 1);
    }
  }

  lemma U64FitsTwentyDigits(n: nat)
    requires n < U64
    ensures |Render(n)| <= 20
  {
    assert Pow10(5) == 100000 by { PowStep(4); PowStep(3); PowStep(2); PowStep(1); PowStep(0); }
    assert Pow10(10) == 10000000000 by { PowStep(9); PowStep(8); PowStep(7); PowStep(6); PowStep(5); }
    assert Pow10(15) == 1000000000000000 by { PowStep(14); PowStep(13); PowStep(12); PowStep(11); PowStep(10); }
    assert Pow10(20) == 100000000000000000000 by { PowStep(19); PowStep(18); PowStep(17); PowStep(16); PowStep(15); }
    RenderBound(n, 20);
  }

  lemma PowStep(k: nat)
    ensures Pow10(k + 1) == 10 * Pow10(k)
  {
  }

  /** Digits are filled into a fixed buffer from its end. */
  method RenderDecimal(value: nat) returns (text: Bytes)
    requires value < U64
    ensures text == Render(value)
  {
    var digits := new Byte[20](_ => '0');
    var cursor := digits.Length;
    var n := value;
    U64FitsTwentyDigits(value);
    while true
      invariant 0 < cursor <= digits.Length
      invariant |Render(n)| <= cursor
      invariant Render(n) + digits[cursor..] == Render(value)
      decreases cursor
    {
      ghost var tail := digits[cursor..];
      ghost var before := Render(n);
      cursor := cursor - 1;
      digits[cursor] := Digit(n % 10);
      assert digits[cursor..] == [Digit(n % 10)] + tail;
      if n < 10 {
        assert before == [Digit(n)];
      } else {
        assert before == Render(n / 10) + [Digit(n % 10)];
        assert before + tail == Render(n / 10) + ([Digit(n % 10)] + tail);
      }
      n := n / 10;
      if n == 0 {
        return digits[cursor..];
      }
    }
  }

  /** Counting divisions by ten. */
  method DecimalLen(value: nat) returns (length: nat)
    ensures length == |Render(value)|
  {
    length := 1;
    var n := value;
    while n >= 10
      invariant length + |Render(n)| == |Render(value)| + 1
    {
      n := n / 10;
      length := length + 1;
    }
  }

  lemma {:induction false} PowMonotone(a: nat, b: nat)
    requires a <= b
    ensures Pow10(a) <= Pow10(b)
  {
    if a < b { PowMonotone(a, b - 1); }
  }

  /** The integer logarithm of a positive number. */
  method IntegerLog(n: nat) returns (k: nat)
    requires n > 0
    ensures IsLog10(n, k)
  {
    var power: nat := 1;
    k := 0;
    while power * 10 <= n
      invariant power == Pow10(k) <= n
      decreases n - power
    {
      power := power * 10;
      k := k + 1;
    }
  }

  /** The number of digits by logarithm. */
  method LogLen(value: nat) returns (length: nat)
    ensures length == |Render(value)|
  {
    RenderLength(value);
    if value == 0 { return 1; }
    var log := IntegerLog(value);
    var digits := |Render(value)| - 1;
    if log < digits { PowMonotone(log + 1, digits); }
    if digits < log { PowMonotone(digits + 1, log); }
    return log + 1;
  }
}
