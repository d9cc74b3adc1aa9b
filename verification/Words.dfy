/** Machine words as natural numbers: shifts and the bitwise operators, bit by bit. */
module Words {

  function Pow2(n: nat): (p: nat)
    ensures p >= 1
  {
    if n == 0 then 1 else 2 * Pow2(n - 1)
  }

  function BitOr(x: nat, y: nat): nat
    decreases x + y
  {
    if x == 0 && y == 0 then 0
    else 2 * BitOr(x / 2, y / 2) + (if x % 2 == 1 || y % 2 == 1 then 1 else 0)
  }

  function BitAnd(x: nat, y: nat): nat {
    if x == 0 || y == 0 then 0
    else 2 * BitAnd(x / 2, y / 2) + (if x % 2 == 1 && y % 2 == 1 then 1 else 0)
  }

  /** Shifting left in a word of `width` bits drops what leaves the word. */
  function Shl(x: nat, n: nat, width: nat): nat
    decreases n
  {
    if n == 0 then x else Shl(2 * x % Pow2(width), n - 1, width)
  }

  function Shr(x: nat, n: nat): nat {
    if n == 0 then x else Shr(x / 2, n - 1)
  }

  predicate BitAt(x: nat, n: nat) {
    if n == 0 then x % 2 == 1 else BitAt(x / 2, n - 1)
  }

  // ---------- arithmetic ----------

  lemma Multiple(d: int, m: nat)
    ensures d >= 1 ==> d * m >= m
    ensures d <= -1 ==> d * m <= -1 * m
  {
  }

  lemma Quotient(x: nat, m: nat, q: nat, r: nat)
    requires r < m && x == q * m + r
    ensures x / m == q && x % m == r
  {
    var d := x / m - q;
    assert d * m == (x / m) * m - q * m;
    assert d * m == r - x % m;
    Multiple(d, m);
  }

  lemma {:induction false} HalfMod(x: nat, p: nat)
    requires p >= 1
    ensures x % (2 * p) == 2 * ((x / 2) % p) + x % 2
  {
    var q, r := (x / 2) / p, (x / 2) % p;
    assert x / 2 == q * p + r;
    assert x == q * (2 * p) + (2 * r + x % 2);
    Quotient(x, 2 * p, q, 2 * r + x % 2);
  }

  lemma {:induction false} PowSum(a: nat, b: nat)
    ensures Pow2(a + b) == Pow2(a) * Pow2(b)
  {
    if a > 0 { PowSum(a - 1, b); }
  }

  lemma {:induction false} PowMonotone(a: nat, b: nat)
    requires a <= b
    ensures Pow2(a) <= Pow2(b)
  {
    if a < b { PowMonotone(a, b - 1); }
  }

  lemma {:induction false} ShlFits(x: nat, n: nat, width: nat)
    requires x * Pow2(n) < Pow2(width)
    ensures Shl(x, n, width) == x * Pow2(n)
    decreases n
  {
    if n > 0 {
      var p := Pow2(n - 1);
      assert (2 * x) * p == x * Pow2(n);
      assert 2 * x <= (2 * x) * p by { Multiple(p, 2 * x); }
      Quotient(2 * x, Pow2(width), 0, 2 * x);
      ShlFits(2 * x, n - 1, width);
    }
  }

  lemma {:induction false} ShrIsQuotient(x: nat, n: nat)
    ensures Shr(x, n) == x / Pow2(n)
  {
    if n > 0 {
      ShrIsQuotient(x / 2, n - 1);
      DivDiv(x, Pow2(n - 1));
    }
  }

  // ---------- or ----------

  lemma {:induction false} OrZero(x: nat)
    ensures BitOr(x, 0) == x && BitOr(0, x) == x
  {
    if x > 0 { OrZero(x / 2); }
  }

  /** Words without a common bit are joined by addition. */
  lemma {:induction false} OrDisjoint(x: nat, y: nat, n: nat)
    requires x % Pow2(n) == 0 && y < Pow2(n)
    ensures BitOr(x, y) == x + y && BitOr(y, x) == x + y
  {
    if n == 0 {
      OrZero(x);
    } else {
      HalfMod(x, Pow2(n - 1));
      OrDisjoint(x / 2, y / 2, n - 1);
    }
  }

  lemma {:induction false} OrBits(x: nat, y: nat, n: nat)
    ensures BitAt(BitOr(x, y), n) <==> BitAt(x, n) || BitAt(y, n)
  {
    if x == 0 && y == 0 {
      ZeroBits(n);
    } else if n > 0 {
      OrBits(x / 2, y / 2, n - 1);
    }
  }

  lemma {:induction false} OrFits(x: nat, y: nat, n: nat)
    requires x < Pow2(n) && y < Pow2(n)
    ensures BitOr(x, y) < Pow2(n)
    decreases n
  {
    if n > 0 { OrFits(x / 2, y / 2, n - 1); }
  }

  lemma {:induction false} ZeroBits(n: nat)
    ensures !BitAt(0, n)
  {
    if n > 0 { ZeroBits(n - 1); }
  }

  // ---------- and ----------

  lemma AndOdd(x: nat, half: nat)
    ensures BitAnd(x, 2 * half + 1) == 2 * BitAnd(x / 2, half) + x % 2
  {
    assert (2 * half + 1) / 2 == half && (2 * half + 1) % 2 == 1;
  }

  function LowBits(x: nat, n: nat): nat
    decreases n
  {
    if n == 0 then 0 else 2 * LowBits(x / 2, n - 1) + x % 2
  }

  lemma {:induction false} AndTakesLowBits(x: nat, n: nat)
    ensures BitAnd(x, Pow2(n) - 1) == LowBits(x, n)
  {
    if n > 0 {
      AndTakesLowBits(x / 2, n - 1);
      AndOdd(x, Pow2(n - 1) - 1);
    }
  }

  lemma {:induction false} LowBitsAreRemainder(x: nat, n: nat)
    ensures LowBits(x, n) == x % Pow2(n)
  {
    if n > 0 {
      LowBitsAreRemainder(x / 2, n - 1);
      HalfMod(x, Pow2(n - 1));
    }
  }

  /** A mask of low ones takes the remainder. */
  lemma AndMask(x: nat, n: nat)
    ensures BitAnd(x, Pow2(n) - 1) == x % Pow2(n)
  {
    AndTakesLowBits(x, n);
    LowBitsAreRemainder(x, n);
  }

  /** Testing one bit. */
  lemma {:induction false} AndBit(x: nat, n: nat)
    ensures BitAnd(x, Pow2(n)) != 0 <==> BitAt(x, n)
  {
    if x == 0 {
      ZeroBits(n);
    } else if n > 0 {
      AndBit(x / 2, n - 1);
    } else {
      assert BitAnd(x, 1) == 2 * BitAnd(x / 2, 0) + x % 2;
    }
  }

  lemma {:induction false} PowBits(k: nat, n: nat)
    ensures BitAt(Pow2(k), n) <==> n == k
  {
    if k > 0 && n > 0 {
      PowBits(k - 1, n - 1);
    } else if n > 0 {
      ZeroBits(n - 1);
    }
  }

  lemma {:induction false} BitIsQuotient(x: nat, n: nat)
    ensures BitAt(x, n) <==> x / Pow2(n) % 2 == 1
  {
    if n > 0 {
      BitIsQuotient(x / 2, n - 1);
      DivDiv(x, Pow2(n - 1));
    }
  }

  lemma DivDiv(x: nat, p: nat)
    requires p >= 1
    ensures x / (2 * p) == (x / 2) / p
  {
    var q, r := (x / 2) / p, (x / 2) % p;
    assert x == q * (2 * p) + (2 * r + x % 2);
    Quotient(x, 2 * p, q, 2 * r + x % 2);
  }

  /** Shifting in a digit and joining it is multiplying and adding. */
  lemma ShiftOrIsMultiplyAdd(value: nat, digit: nat)
    requires digit < 16 && value * 16 + digit < Pow2(64)
    ensures BitOr(Shl(value, 4, 64), digit) == value * 16 + digit
  {
    assert Pow2(4) == 16 by { assert Pow2(3) == 8 by { assert Pow2(2) == 4; } }
    ShlFits(value, 4, 64);
    assert value * 16 % 16 == 0;
    OrDisjoint(value * 16, digit, 4);
  }
}
