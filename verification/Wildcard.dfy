/** The include-pattern matcher of the Nginx importer: greedy, with a single backtrack point. */
module Wildcard {
  import opened Bytes
  import opened Http

  predicate MatchesByte(p: Byte, v: Byte) { p == '?' || p == v }

  /** What a pattern means: `*` stands for any run of bytes, `?` for any one byte. */
  ghost predicate Glob(pattern: Bytes, value: Bytes)
    decreases |pattern|
  {
    if pattern == [] then value == []
    else if pattern[0] == '*' then exists k :: 0 <= k <= |value| && Glob(pattern[1..], value[k..])
    else value != [] && MatchesByte(pattern[0], value[0]) && Glob(pattern[1..], value[1..])
  }

  predicate AllStars(pattern: Bytes) { forall i :: 0 <= i < |pattern| ==> pattern[i] == '*' }

  ghost predicate ScanState(pattern: Bytes, value: Bytes, p: nat, v: nat, star: Option<nat>, checkpoint: nat) {
    p <= |pattern| && checkpoint <= v <= |value| && (star.Some? ==> star.value < p)
  }

  /** The verdict of the matcher from any point of its run. */
  ghost predicate Scan(pattern: Bytes, value: Bytes, p: nat, v: nat, star: Option<nat>, checkpoint: nat)
    requires ScanState(pattern, value, p, v, star, checkpoint)
    decreases |value| - checkpoint, if star.Some? then |pattern| - star.value else |pattern| + 1, |value| - v
  {
    if v == |value| then AllStars(pattern[p..])
    else if p < |pattern| && MatchesByte(pattern[p], value[v]) then
      Scan(pattern, value, p + 1, v + 1, star, checkpoint)
    else if p < |pattern| && pattern[p] == '*' then Scan(pattern, value, p + 1, v, Some(p), v)
    else if star.Some? then
      Scan(pattern, value, star.value + 1, checkpoint + 1, star, checkpoint + 1)
    else false
  }

  method WildcardMatches(pattern: Bytes, value: Bytes) returns (matches: bool)
    ensures matches == Scan(pattern, value, 0, 0, None, 0)
    ensures '*' !in value ==> matches == Glob(pattern, value)
  {
    var p: nat, v: nat := 0, 0;
    var star: Option<nat>, checkpoint: nat := None, 0;
    if '*' !in value { ScanIsGlob(pattern, value); }
    while v < |value|
      invariant ScanState(pattern, value, p, v, star, checkpoint)
      invariant Scan(pattern, value, p, v, star, checkpoint) == Scan(pattern, value, 0, 0, None, 0)
      decreases |value| - checkpoint, if star.Some? then |pattern| - star.value else |pattern| + 1, |value| - v
    {
      if p < |pattern| && (pattern[p] == '?' || pattern[p] == value[v]) {
        p, v := p + 1, v + 1;
      } else if p < |pattern| && pattern[p] == '*' {
        star := Some(p);
        p := p + 1;
        checkpoint := v;
      } else if star.Some? {
        p := star.value + 1;
        checkpoint := checkpoint + 1;
        v := checkpoint;
      } else {
        return false;
      }
    }
    ghost var tail := p;
    while p < |pattern| && pattern[p] == '*'
      invariant tail <= p <= |pattern|
      invariant forall i :: tail <= i < p ==> pattern[i] == '*'
    {
      p := p + 1;
    }
    matches := p == |pattern|;
    assert p < |pattern| ==> pattern[tail..][p - tail] != '*';
  }

  // ---------- the greedy scan against the meaning of patterns ----------

  /** `pattern[a..a + n]` matches `value[k..k + n]` byte for byte. */
  ghost predicate Literal(pattern: Bytes, value: Bytes, a: nat, k: nat, n: nat) {
    && a + n <= |pattern| && k + n <= |value|
    && forall i :: a <= i < a + n ==> MatchesByte(pattern[i], value[k + i - a])
  }

  ghost predicate StarFree(pattern: Bytes, a: nat, n: nat) {
    a + n <= |pattern| && forall i :: a <= i < a + n ==> pattern[i] != '*'
  }

  /** A star-free stretch consumes exactly its own length. */
  lemma {:induction false} StarFreePrefix(pattern: Bytes, value: Bytes, a: nat, k: nat, n: nat)
    requires StarFree(pattern, a, n) && k <= |value|
    ensures Glob(pattern[a..], value[k..]) <==>
            Literal(pattern, value, a, k, n) && Glob(pattern[a + n..], value[k + n..])
    decreases n
  {
    if n > 0 {
      assert pattern[a..][1..] == pattern[a + 1..];
      if k < |value| {
        assert value[k..][1..] == value[k + 1..];
        StarFreePrefix(pattern, value, a + 1, k + 1, n - 1);
        assert Literal(pattern, value, a, k, n) <==>
          MatchesByte(pattern[a], value[k]) && Literal(pattern, value, a + 1, k + 1, n - 1);
      }
    }
  }

  /** A leading star either matches nothing or swallows one more byte. */
  lemma StarStep(pattern: Bytes, value: Bytes, s: nat, k: nat)
    requires s < |pattern| && pattern[s] == '*' && k < |value|
    ensures Glob(pattern[s..], value[k..]) <==>
            Glob(pattern[s + 1..], value[k..]) || Glob(pattern[s..], value[k + 1..])
  {
    if Glob(pattern[s..], value[k..]) {
      var j := StarSwallows(pattern, value, s, k);
      if j > k { StarMaySwallow(pattern, value, s, k + 1, j); }
    }
    if Glob(pattern[s + 1..], value[k..]) {
      StarMaySwallow(pattern, value, s, k, k);
    }
    if Glob(pattern[s..], value[k + 1..]) {
      var j := StarSwallows(pattern, value, s, k + 1);
      StarMaySwallow(pattern, value, s, k, j);
    }
  }

  lemma {:induction false} AllStarsMatchNothing(pattern: Bytes)
    ensures Glob(pattern, []) <==> AllStars(pattern)
  {
    if pattern != [] && pattern[0] == '*' {
      AllStarsMatchNothing(pattern[1..]);
      var empty: Bytes := [];
      assert empty[0..] == empty;
      assert forall i :: 0 < i < |pattern| ==> pattern[i] == pattern[1..][i - 1];
    }
  }

  /** Everything still open at a backtrack point is what the latest star still offers. */
  ghost predicate SinceStar(pattern: Bytes, value: Bytes, p: nat, v: nat, star: Option<nat>, checkpoint: nat)
    requires ScanState(pattern, value, p, v, star, checkpoint)
  {
    star.Some? ==>
      && pattern[star.value] == '*'
      && p - (star.value + 1) == v - checkpoint
      && Literal(pattern, value, star.value + 1, checkpoint, v - checkpoint)
  }

  lemma SegmentIsStarFree(pattern: Bytes, value: Bytes, a: nat, k: nat, n: nat)
    requires '*' !in value && Literal(pattern, value, a, k, n)
    ensures StarFree(pattern, a, n)
  {
  }

  /** A star swallows some prefix of the value. */
  lemma StarSwallows(pattern: Bytes, value: Bytes, s: nat, k: nat) returns (j: nat)
    requires s < |pattern| && pattern[s] == '*' && k <= |value| && Glob(pattern[s..], value[k..])
    ensures k <= j <= |value| && Glob(pattern[s + 1..], value[j..])
  {
    assert pattern[s..][1..] == pattern[s + 1..];
    var i :| 0 <= i <= |value[k..]| && Glob(pattern[s + 1..], value[k..][i..]);
    assert value[k..][i..] == value[k + i..];
    j := k + i;
  }

  lemma StarMaySwallow(pattern: Bytes, value: Bytes, s: nat, k: nat, j: nat)
    requires s < |pattern| && pattern[s] == '*' && k <= j <= |value| && Glob(pattern[s + 1..], value[j..])
    ensures Glob(pattern[s..], value[k..])
  {
    assert pattern[s..][1..] == pattern[s + 1..];
    assert value[k..][j - k..] == value[j..];
  }

  /** A star, a literal stretch and another star. */
  ghost predicate TwoStars(pattern: Bytes, value: Bytes, s: nat, p: nat, checkpoint: nat, v: nat) {
    && s < p < |pattern| && checkpoint <= v <= |value|
    && pattern[s] == '*' && pattern[p] == '*' && p - (s + 1) == v - checkpoint
    && Literal(pattern, value, s + 1, checkpoint, v - checkpoint) && StarFree(pattern, s + 1, v - checkpoint)
  }

  lemma OlderStarIsNotNeeded(pattern: Bytes, value: Bytes, s: nat, p: nat, checkpoint: nat, v: nat)
    requires TwoStars(pattern, value, s, p, checkpoint, v) && Glob(pattern[s..], value[checkpoint..])
    ensures Glob(pattern[p..], value[v..])
  {
    var j := StarSwallows(pattern, value, s, checkpoint);
    StarFreePrefix(pattern, value, s + 1, j, v - checkpoint);
    var i := StarSwallows(pattern, value, p, j + (v - checkpoint));
    StarMaySwallow(pattern, value, p, v, i);
  }

  /** Keeping only the newest star loses nothing: an older star can only push the newer one further right. */
  lemma NewestStarSuffices(pattern: Bytes, value: Bytes, s: nat, p: nat, checkpoint: nat, v: nat)
    requires TwoStars(pattern, value, s, p, checkpoint, v)
    ensures Glob(pattern[s..], value[checkpoint..]) <==> Glob(pattern[p..], value[v..])
  {
    if Glob(pattern[s..], value[checkpoint..]) {
      OlderStarIsNotNeeded(pattern, value, s, p, checkpoint, v);
    }
    if Glob(pattern[p..], value[v..]) {
      StarFreePrefix(pattern, value, s + 1, checkpoint, v - checkpoint);
      StarMaySwallow(pattern, value, s, checkpoint, checkpoint);
    }
  }

  /** What the pattern still has to say at a point of the run. */
  ghost predicate Meaning(pattern: Bytes, value: Bytes, p: nat, v: nat, star: Option<nat>, checkpoint: nat)
    requires ScanState(pattern, value, p, v, star, checkpoint)
  {
    if star.Some? then Glob(pattern[star.value..], value[checkpoint..]) else Glob(pattern[p..], value[v..])
  }

  lemma MeaningAtEnd(pattern: Bytes, value: Bytes, p: nat, star: Option<nat>, checkpoint: nat)
    requires ScanState(pattern, value, p, |value|, star, checkpoint)
    requires '*' !in value && SinceStar(pattern, value, p, |value|, star, checkpoint)
    ensures Meaning(pattern, value, p, |value|, star, checkpoint) <==> AllStars(pattern[p..])
  {
    assert value[|value|..] == [];
    AllStarsMatchNothing(pattern[p..]);
    if star.Some? {
      SegmentIsStarFree(pattern, value, star.value + 1, checkpoint, |value| - checkpoint);
      OnlyTheCheckpointFits(pattern, value, p, star.value, checkpoint);
    }
  }

  lemma MeaningAfterMatch(pattern: Bytes, value: Bytes, p: nat, v: nat, star: Option<nat>, checkpoint: nat)
    requires ScanState(pattern, value, p, v, star, checkpoint) && p < |pattern| && v < |value|
    requires pattern[p] != '*' && MatchesByte(pattern[p], value[v])
    ensures Meaning(pattern, value, p, v, star, checkpoint) <==> Meaning(pattern, value, p + 1, v + 1, star, checkpoint)
  {
    assert pattern[p..][1..] == pattern[p + 1..] && value[v..][1..] == value[v + 1..];
  }

  lemma MeaningAfterStar(pattern: Bytes, value: Bytes, p: nat, v: nat, star: Option<nat>, checkpoint: nat)
    requires ScanState(pattern, value, p, v, star, checkpoint) && p < |pattern| && pattern[p] == '*'
    requires '*' !in value && SinceStar(pattern, value, p, v, star, checkpoint)
    ensures Meaning(pattern, value, p, v, star, checkpoint) <==> Meaning(pattern, value, p + 1, v, Some(p), v)
  {
    if star.Some? {
      SegmentIsStarFree(pattern, value, star.value + 1, checkpoint, v - checkpoint);
      NewestStarSuffices(pattern, value, star.value, p, checkpoint, v);
    }
  }

  lemma MeaningAfterMismatch(pattern: Bytes, value: Bytes, p: nat, v: nat, star: Option<nat>, checkpoint: nat)
    requires ScanState(pattern, value, p, v, star, checkpoint) && v < |value|
    requires '*' !in value && SinceStar(pattern, value, p, v, star, checkpoint)
    requires p < |pattern| ==> pattern[p] != '*' && !MatchesByte(pattern[p], value[v])
    ensures Meaning(pattern, value, p, v, star, checkpoint) <==>
            star.Some? && Meaning(pattern, value, star.value + 1, checkpoint + 1, star, checkpoint + 1)
  {
    assert !Glob(pattern[p..], value[v..]);
    if star.Some? {
      SegmentIsStarFree(pattern, value, star.value + 1, checkpoint, v - checkpoint);
      StarFreePrefix(pattern, value, star.value + 1, checkpoint, v - checkpoint);
      StarStep(pattern, value, star.value, checkpoint);
    }
  }

  lemma {:induction false} ScanFromState(pattern: Bytes, value: Bytes, p: nat, v: nat, star: Option<nat>, checkpoint: nat)
    requires ScanState(pattern, value, p, v, star, checkpoint)
    requires '*' !in value && SinceStar(pattern, value, p, v, star, checkpoint)
    ensures Scan(pattern, value, p, v, star, checkpoint) == Meaning(pattern, value, p, v, star, checkpoint)
    decreases |value| - checkpoint, if star.Some? then |pattern| - star.value else |pattern| + 1, |value| - v
  {
    if v == |value| {
      MeaningAtEnd(pattern, value, p, star, checkpoint);
    } else if p < |pattern| && MatchesByte(pattern[p], value[v]) {
      MeaningAfterMatch(pattern, value, p, v, star, checkpoint);
      ScanFromState(pattern, value, p + 1, v + 1, star, checkpoint);
    } else if p < |pattern| && pattern[p] == '*' {
      MeaningAfterStar(pattern, value, p, v, star, checkpoint);
      ScanFromState(pattern, value, p + 1, v, Some(p), v);
    } else {
      MeaningAfterMismatch(pattern, value, p, v, star, checkpoint);
      if star.Some? {
        ScanFromState(pattern, value, star.value + 1, checkpoint + 1, star, checkpoint + 1);
      }
    }
  }

  lemma OnlyTheCheckpointFits(pattern: Bytes, value: Bytes, p: nat, s: nat, checkpoint: nat)
    requires s < p <= |pattern| && checkpoint <= |value| && pattern[s] == '*'
    requires p - (s + 1) == |value| - checkpoint && StarFree(pattern, s + 1, |value| - checkpoint)
    requires Literal(pattern, value, s + 1, checkpoint, |value| - checkpoint)
    ensures Glob(pattern[s..], value[checkpoint..]) <==> Glob(pattern[p..], [])
  {
    var n := |value| - checkpoint;
    assert value[|value|..] == [];
    if Glob(pattern[p..], []) {
      StarFreePrefix(pattern, value, s + 1, checkpoint, n);
      StarMaySwallow(pattern, value, s, checkpoint, checkpoint);
    }
    if Glob(pattern[s..], value[checkpoint..]) {
      var j := StarSwallows(pattern, value, s, checkpoint);
      StarFreePrefix(pattern, value, s + 1, j, n);
    }
  }

  lemma ScanIsGlob(pattern: Bytes, value: Bytes)
    requires '*' !in value
    ensures Scan(pattern, value, 0, 0, None, 0) == Glob(pattern, value)
  {
    ScanFromState(pattern, value, 0, 0, None, 0);
    assert pattern[0..] == pattern && value[0..] == value;
  }

  // ---------- values that contain a star ----------

  /** A pattern the matcher gets wrong for a value whose first star is at `i`. */
  ghost predicate Misjudged(pattern: Bytes, value: Bytes, i: nat) {
    && i < |value| && |pattern| == |value| + 1
    && (forall k :: 0 <= k < i ==> pattern[k] == value[k] && value[k] != '*')
    && pattern[i] == '*' && value[i] == '*'
    && (forall k :: i < k <= |value| ==> pattern[k] == '?')
  }

  lemma {:induction false} ScanLiterals(pattern: Bytes, value: Bytes, p: nat)
    requires p <= |value| < |pattern|
    requires forall i :: p <= i < |value| ==> MatchesByte(pattern[i], value[i])
    requires pattern[|value|] != '*'
    ensures !Scan(pattern, value, p, p, None, 0)
    decreases |value| - p
  {
    if p < |value| {
      ScanLiterals(pattern, value, p + 1);
    } else {
      assert pattern[p..][0] != '*';
    }
  }

  /** Such a pattern is meant to match, and the scan refuses it. */
  lemma MisjudgedPattern(pattern: Bytes, value: Bytes, i: nat)
    requires Misjudged(pattern, value, i)
    ensures Glob(pattern, value) && !Scan(pattern, value, 0, 0, None, 0)
  {
    ScanLiterals(pattern, value, 0);
    assert Glob(pattern[i + 1..], value[i..]) by {
      StarFreePrefix(pattern, value, i + 1, i, |value| - i);
      assert pattern[|value| + 1..] == [] && value[|value|..] == [];
    }
    assert Glob(pattern[i..], value[i..]) by {
      assert value[i..][0..] == value[i..];
      assert pattern[i..][1..] == pattern[i + 1..];
    }
    StarFreePrefix(pattern, value, 0, 0, i);
    assert pattern[0..] == pattern && value[0..] == value;
  }

  lemma StarAgainstStar()
    ensures Glob("*?", "*") && !Scan("*?", "*", 0, 0, None, 0)
  {
    MisjudgedPattern("*?", "*", 0);
  }

  /** The matcher decides every pattern correctly for exactly the values without a star byte. */
  lemma CorrectExactlyWithoutStars(value: Bytes)
    ensures (forall pattern: Bytes :: Scan(pattern, value, 0, 0, None, 0) == Glob(pattern, value)) <==> '*' !in value
  {
    if '*' !in value {
      forall pattern: Bytes ensures Scan(pattern, value, 0, 0, None, 0) == Glob(pattern, value) {
        ScanIsGlob(pattern, value);
      }
    } else {
      var i := IndexOf(value, '*');
      IndexOfFirst(value, '*');
      var pattern: Bytes := value[..i] + ['*'] + seq(|value| - i, _ => '?');
      assert Misjudged(pattern, value, i);
      MisjudgedPattern(pattern, value, i);
      assert Scan(pattern, value, 0, 0, None, 0) != Glob(pattern, value);
    }
  }
}
