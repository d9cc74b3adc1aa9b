/** Sorting declared trailer names: one stable counting pass for every byte position, last position first. */
module RadixOrder {
  import opened Bytes
  import opened NameLists

  const BUCKETS := 257
  const NAME_MAX := 128

  /** A missing byte goes before every byte. */
  function Bucket(name: Bytes, position: nat): (b: nat)
    ensures b < BUCKETS
  {
    if position < |name| then name[position] as int + 1 else 0
  }

  // ---------- one pass, as a function ----------

  /** The names of one bucket, in their order. */
  function InBucket(names: seq<Bytes>, position: nat, b: nat): (group: seq<Bytes>)
    ensures |group| <= |names|
  {
    if names == [] then []
    else
      var before, last := InBucket(names[..|names| - 1], position, b), names[|names| - 1];
      if Bucket(last, position) == b then before + [last] else before
  }

  /** The groups of the first `n` buckets, one after the other. */
  function Grouped(names: seq<Bytes>, position: nat, n: nat): seq<Bytes> {
    if n == 0 then [] else Grouped(names, position, n - 1) + InBucket(names, position, n - 1)
  }

  // ---------- a pass rearranges ----------

  lemma {:induction false} InBucketCount(names: seq<Bytes>, position: nat, b: nat, name: Bytes)
    ensures multiset(InBucket(names, position, b))[name] == if Bucket(name, position) == b then multiset(names)[name] else 0
  {
    if names != [] {
      var init, last := names[..|names| - 1], names[|names| - 1];
      InBucketCount(init, position, b, name);
      assert names == init + [last];
    }
  }

  lemma ConcatCount(a: seq<Bytes>, b: seq<Bytes>, name: Bytes)
    ensures multiset(a + b)[name] == multiset(a)[name] + multiset(b)[name]
  {
  }

  lemma {:induction false} GroupedCount(names: seq<Bytes>, position: nat, n: nat, name: Bytes)
    ensures multiset(Grouped(names, position, n))[name] == if Bucket(name, position) < n then multiset(names)[name] else 0
  {
    if n > 0 {
      GroupedCount(names, position, n - 1, name);
      InBucketCount(names, position, n - 1, name);
      ConcatCount(Grouped(names, position, n - 1), InBucket(names, position, n - 1), name);
    }
  }

  lemma GroupedRearranges(names: seq<Bytes>, position: nat, n: nat)
    requires n >= BUCKETS
    ensures multiset(Grouped(names, position, n)) == multiset(names)
    ensures |Grouped(names, position, n)| == |names|
  {
    forall name ensures multiset(Grouped(names, position, n))[name] == multiset(names)[name] {
      GroupedCount(names, position, n, name);
    }
    assert multiset(Grouped(names, position, n)) == multiset(names);
    assert |multiset(Grouped(names, position, n))| == |multiset(names)|;
  }

  // ---------- a pass is stable ----------

  /** The order of two names from a position on. */
  predicate LessOrEqual(a: Bytes, b: Bytes, position: nat, width: nat)
    decreases width - position
  {
    if position >= width then true
    else if Bucket(a, position) != Bucket(b, position) then Bucket(a, position) < Bucket(b, position)
    else LessOrEqual(a, b, position + 1, width)
  }

  ghost predicate SortedFrom(names: seq<Bytes>, position: nat, width: nat) {
    forall i, j :: 0 <= i < j < |names| ==> LessOrEqual(names[i], names[j], position, width)
  }

  lemma {:induction false} InBucketMembers(names: seq<Bytes>, position: nat, b: nat)
    ensures forall name :: name in InBucket(names, position, b) <==> name in names && Bucket(name, position) == b
  {
    if names != [] { InBucketMembers(names[..|names| - 1], position, b); }
  }

  lemma {:induction false} InBucketSorted(names: seq<Bytes>, position: nat, b: nat, width: nat)
    requires SortedFrom(names, position + 1, width) && position < width
    ensures SortedFrom(InBucket(names, position, b), position, width)
  {
    if names != [] {
      var init, last := names[..|names| - 1], names[|names| - 1];
      InBucketSorted(init, position, b, width);
      InBucketMembers(init, position, b);
      var group := InBucket(init, position, b);
      forall i | 0 <= i < |group| && Bucket(last, position) == b ensures LessOrEqual(group[i], last, position, width) {
        assert group[i] in group;
        var k :| 0 <= k < |init| && init[k] == group[i];
        assert LessOrEqual(names[k], names[|names| - 1], position + 1, width);
      }
    }
  }

  ghost predicate BucketsBelow(names: seq<Bytes>, position: nat, n: nat) {
    forall name :: name in names ==> Bucket(name, position) < n
  }

  lemma ConcatSorted(before: seq<Bytes>, group: seq<Bytes>, position: nat, b: nat, width: nat)
    requires SortedFrom(before, position, width) && BucketsBelow(before, position, b)
    requires SortedFrom(group, position, width) && forall name :: name in group ==> Bucket(name, position) == b
    requires position < width
    ensures SortedFrom(before + group, position, width) && BucketsBelow(before + group, position, b + 1)
  {
    var all := before + group;
    forall i, j | 0 <= i < j < |all| ensures LessOrEqual(all[i], all[j], position, width) {
      if i < |before| <= j {
        assert before[i] in before && group[j - |before|] in group;
      }
    }
  }

  /** Sorting by one position what is sorted from the next one on sorts it from this one on. */
  lemma {:induction false} GroupedSorted(names: seq<Bytes>, position: nat, n: nat, width: nat)
    requires SortedFrom(names, position + 1, width) && position < width
    ensures SortedFrom(Grouped(names, position, n), position, width)
    ensures BucketsBelow(Grouped(names, position, n), position, n)
  {
    if n > 0 {
      GroupedSorted(names, position, n - 1, width);
      InBucketSorted(names, position, n - 1, width);
      InBucketMembers(names, position, n - 1);
      ConcatSorted(Grouped(names, position, n - 1), InBucket(names, position, n - 1), position, n - 1, width);
    }
  }

  // ---------- what sorted names tell ----------

  lemma {:induction false} LessOrEqualIsLexicographic(a: Bytes, b: Bytes, position: nat, width: nat)
    requires |a| <= width && |b| <= width && position <= |a| && position <= |b|
    ensures LessOrEqual(a, b, position, width) <==> Lexicographic(a[position..], b[position..])
    decreases width - position
  {
    if position < |a| && position < |b| {
      assert a[position..][1..] == a[position + 1..] && b[position..][1..] == b[position + 1..];
      if a[position] == b[position] { LessOrEqualIsLexicographic(a, b, position + 1, width); }
    } else if position == |a| && position < width {
      if position == |b| { PastBoth(a, b, position, width); }
    }
  }

  lemma {:induction false} PastBoth(a: Bytes, b: Bytes, position: nat, width: nat)
    requires |a| <= position && |b| <= position
    ensures LessOrEqual(a, b, position, width)
    decreases width - position
  {
    if position < width { PastBoth(a, b, position + 1, width); }
  }

  lemma SortedFromStart(names: seq<Bytes>, width: nat)
    requires SortedFrom(names, 0, width) && forall name :: name in names ==> |name| <= width
    ensures Sorted(names)
  {
    forall i, j | 0 <= i < j < |names| ensures Lexicographic(names[i], names[j]) {
      assert names[i] in names && names[j] in names;
      LessOrEqualIsLexicographic(names[i], names[j], 0, width);
      assert names[i][0..] == names[i] && names[j][0..] == names[j];
    }
  }

  ghost predicate HasDuplicate(names: seq<Bytes>) {
    exists i, j :: 0 <= i < j < |names| && names[i] == names[j]
  }

  predicate AdjacentEqual(names: seq<Bytes>) {
    exists i :: 0 < i < |names| && names[i - 1] == names[i]
  }

  /** In sorted names any duplicate shows as an adjacent pair. */
  lemma DuplicatesAreAdjacent(names: seq<Bytes>)
    requires Sorted(names)
    ensures AdjacentEqual(names) <==> HasDuplicate(names)
  {
    if HasDuplicate(names) {
      var i, j :| 0 <= i < j < |names| && names[i] == names[j];
      if i + 1 < j { Antisymmetric(names[i], names[i + 1]); }
      assert names[i + 1 - 1] == names[i + 1];
    }
  }

  /** Duplicates survive any rearrangement. */
  lemma DuplicatesCount(names: seq<Bytes>)
    ensures HasDuplicate(names) <==> exists name :: multiset(names)[name] >= 2
  {
    if HasDuplicate(names) {
      var i, j :| 0 <= i < j < |names| && names[i] == names[j];
      var head, tail := names[..j], names[j..];
      assert head[i] == names[i] && tail[0] == names[i];
      assert names == head + tail;
      ConcatCount(head, tail, names[i]);
    }
    if exists name :: multiset(names)[name] >= 2 {
      var name :| multiset(names)[name] >= 2;
      RepeatedTwice(names, name);
    }
  }

  lemma {:induction false} RepeatedTwice(names: seq<Bytes>, name: Bytes)
    requires multiset(names)[name] >= 2
    ensures HasDuplicate(names)
  {
    var init, last := names[..|names| - 1], names[|names| - 1];
    assert names == init + [last];
    if last == name {
      assert name in multiset(init);
      var i :| 0 <= i < |init| && init[i] == name;
      assert names[i] == names[|names| - 1];
    } else {
      RepeatedTwice(init, name);
      var i, j :| 0 <= i < j < |init| && init[i] == init[j];
      assert names[i] == names[j];
    }
  }

  // ---------- the pass over arrays ----------

  /** Where the group of a bucket begins. */
  function Start(names: seq<Bytes>, position: nat, b: nat): nat { |Grouped(names, position, b)| }

  lemma {:induction false} StartsGrow(names: seq<Bytes>, position: nat, b: nat, c: nat)
    requires b <= c
    ensures Start(names, position, b) <= Start(names, position, c)
    decreases c - b
  {
    if b < c { StartsGrow(names, position, b, c - 1); }
  }

  lemma {:induction false} GroupOfPrefix(names: seq<Bytes>, position: nat, b: nat, i: nat)
    requires i <= |names|
    ensures |InBucket(names[..i], position, b)| <= |InBucket(names, position, b)|
    decreases |names|
  {
    if i < |names| {
      GroupOfPrefix(names[..|names| - 1], position, b, i);
      assert names[..|names| - 1][..i] == names[..i];
    } else {
      assert names[..i] == names;
    }
  }

  lemma GroupGrows(names: seq<Bytes>, position: nat, b: nat, i: nat)
    requires i < |names|
    ensures InBucket(names[..i + 1], position, b) ==
            InBucket(names[..i], position, b) + (if Bucket(names[i], position) == b then [names[i]] else [])
  {
    assert names[..i + 1][..i] == names[..i];
  }

  /** The part of a group that the first `i` names make up is in its place. */
  ghost predicate Filled(names: seq<Bytes>, position: nat, i: nat, b: nat, placed: seq<Bytes>)
    requires i <= |names|
  {
    var at, group := Start(names, position, b), InBucket(names[..i], position, b);
    at + |group| <= |placed| && placed[at..at + |group|] == group
  }

  ghost predicate AllFilled(names: seq<Bytes>, position: nat, i: nat, placed: seq<Bytes>)
    requires i <= |names|
  {
    |placed| == |names| && forall b :: 0 <= b < BUCKETS ==> Filled(names, position, i, b, placed)
  }

  /** Where the next name goes is still free, and inside its own group. */
  lemma NextPlace(names: seq<Bytes>, position: nat, i: nat)
    requires i < |names|
    ensures var k := Bucket(names[i], position);
      Start(names, position, k) + |InBucket(names[..i], position, k)| < Start(names, position, k + 1) <= |names|
  {
    var k := Bucket(names[i], position);
    GroupOfPrefix(names, position, k, i + 1);
    GroupGrows(names, position, k, i);
    StartsGrow(names, position, k + 1, BUCKETS);
    GroupedRearranges(names, position, BUCKETS);
  }

  lemma OtherGroupsStay(names: seq<Bytes>, position: nat, i: nat, placed: seq<Bytes>, at: nat, b: nat)
    requires i < |names| && |placed| == |names| && b < BUCKETS && b != Bucket(names[i], position)
    requires at == Start(names, position, Bucket(names[i], position)) + |InBucket(names[..i], position, Bucket(names[i], position))|
    requires at < |placed| && Filled(names, position, i, b, placed)
    ensures Filled(names, position, i + 1, b, placed[at := names[i]])
  {
    hide InBucket;
    hide Bucket;
    var k := Bucket(names[i], position);
    var begin, group := Start(names, position, b), InBucket(names[..i], position, b);
    GroupGrows(names, position, b, i);
    GroupOfPrefix(names, position, b, i);
    NextPlace(names, position, i);
    if b < k {
      StartsGrow(names, position, b + 1, k);
    } else {
      StartsGrow(names, position, k + 1, b);
    }
    assert placed[at := names[i]][begin..begin + |group|] == placed[begin..begin + |group|];
  }

  lemma OwnGroupGrows(names: seq<Bytes>, position: nat, i: nat, placed: seq<Bytes>, at: nat)
    requires i < |names| && |placed| == |names|
    requires at == Start(names, position, Bucket(names[i], position)) + |InBucket(names[..i], position, Bucket(names[i], position))|
    requires at < |placed| && Filled(names, position, i, Bucket(names[i], position), placed)
    ensures Filled(names, position, i + 1, Bucket(names[i], position), placed[at := names[i]])
  {
    var k := Bucket(names[i], position);
    var begin, group := Start(names, position, k), InBucket(names[..i], position, k);
    GroupGrows(names, position, k, i);
    assert placed[at := names[i]][begin..at + 1] == placed[begin..at] + [names[i]];
  }

  /** When every group is complete the array holds the groups in order. */
  lemma {:induction false} FilledIsGrouped(names: seq<Bytes>, position: nat, placed: seq<Bytes>, n: nat)
    requires AllFilled(names, position, |names|, placed) && n <= BUCKETS
    ensures Start(names, position, n) <= |placed| && placed[..Start(names, position, n)] == Grouped(names, position, n)
  {
    if n > 0 {
      FilledIsGrouped(names, position, placed, n - 1);
      assert Filled(names, position, |names|, n - 1, placed);
      assert names[..|names|] == names;
      var begin, end := Start(names, position, n - 1), Start(names, position, n);
      assert placed[..end] == placed[..begin] + placed[begin..end];
    }
  }

  method CountBuckets(names: array<Bytes>, position: nat) returns (counts: array<nat>)
    ensures fresh(counts) && counts.Length == BUCKETS
    ensures forall b :: 0 <= b < BUCKETS ==> counts[b] == |InBucket(names[..], position, b)|
  {
    counts := new nat[BUCKETS](_ => 0);
    ghost var s := names[..];
    for i := 0 to names.Length
      invariant names[..] == s
      invariant forall b :: 0 <= b < BUCKETS ==> counts[b] == |InBucket(s[..i], position, b)|
    {
      var k := Bucket(names[i], position);
      ghost var before := counts[..];
      counts[k] := counts[k] + 1;
      forall b | 0 <= b < BUCKETS ensures counts[b] == |InBucket(s[..i + 1], position, b)| {
        assert before[b] == |InBucket(s[..i], position, b)|;
        GroupGrows(s, position, b, i);
      }
    }
    assert s[..names.Length] == s;
  }

  method StartOffsets(counts: array<nat>, ghost names: seq<Bytes>, ghost position: nat) returns (next: array<nat>)
    requires counts.Length == BUCKETS
    requires forall b :: 0 <= b < BUCKETS ==> counts[b] == |InBucket(names, position, b)|
    ensures fresh(next) && next.Length == BUCKETS
    ensures forall b :: 0 <= b < BUCKETS ==> next[b] == Start(names, position, b)
  {
    next := new nat[BUCKETS](_ => 0);
    var runningTotal := 0;
    for bucket := 0 to BUCKETS
      invariant runningTotal == Start(names, position, bucket)
      invariant forall b :: 0 <= b < BUCKETS ==> counts[b] == |InBucket(names, position, b)|
      invariant forall b :: 0 <= b < bucket ==> next[b] == Start(names, position, b)
    {
      next[bucket] := runningTotal;
      runningTotal := runningTotal + counts[bucket];
    }
  }

  /** Where the next name of each bucket goes after the first `i` names. */
  ghost predicate NextOffsets(names: seq<Bytes>, position: nat, i: nat, next: seq<nat>)
    requires i <= |names|
  {
    && |next| == BUCKETS
    && forall b :: 0 <= b < BUCKETS ==> next[b] == Start(names, position, b) + |InBucket(names[..i], position, b)|
  }

  lemma PlaceOne(names: seq<Bytes>, position: nat, i: nat, next: seq<nat>, placed: seq<Bytes>)
    requires i < |names| && NextOffsets(names, position, i, next) && AllFilled(names, position, i, placed)
    ensures var k := Bucket(names[i], position);
      && next[k] < |placed|
      && NextOffsets(names, position, i + 1, next[k := next[k] + 1])
      && AllFilled(names, position, i + 1, placed[next[k] := names[i]])
  {
    var k := Bucket(names[i], position);
    var at := next[k];
    NextPlace(names, position, i);
    forall b | 0 <= b < BUCKETS
      ensures Filled(names, position, i + 1, b, placed[at := names[i]])
      ensures next[k := at + 1][b] == Start(names, position, b) + |InBucket(names[..i + 1], position, b)|
    {
      assert Filled(names, position, i, b, placed);
      GroupGrows(names, position, b, i);
      if b == k { OwnGroupGrows(names, position, i, placed, at); } else { OtherGroupsStay(names, position, i, placed, at, b); }
    }
  }

  lemma NothingPlaced(names: seq<Bytes>, position: nat, next: seq<nat>, placed: seq<Bytes>)
    requires |placed| == |names| && |next| == BUCKETS
    requires forall b :: 0 <= b < BUCKETS ==> next[b] == Start(names, position, b)
    ensures NextOffsets(names, position, 0, next) && AllFilled(names, position, 0, placed)
  {
    assert names[..0] == [];
    forall b | 0 <= b < BUCKETS ensures Filled(names, position, 0, b, placed) {
      StartsGrow(names, position, b, BUCKETS);
      GroupedRearranges(names, position, BUCKETS);
    }
  }

  /** One stable counting pass from `names` into `scratch`. */
  method Pass(names: array<Bytes>, scratch: array<Bytes>, position: nat)
    requires names != scratch && names.Length == scratch.Length
    modifies scratch
    ensures names[..] == old(names[..])
    ensures scratch[..] == Grouped(names[..], position, BUCKETS)
  {
    ghost var s := names[..];
    var counts := CountBuckets(names, position);
    var next := StartOffsets(counts, s, position);
    NothingPlaced(s, position, next[..], scratch[..]);
    for i := 0 to names.Length
      invariant names[..] == s
      invariant NextOffsets(s, position, i, next[..]) && AllFilled(s, position, i, scratch[..])
    {
      PlaceOne(s, position, i, next[..], scratch[..]);
      ghost var offsets, placed := next[..], scratch[..];
      var bucket := Bucket(names[i], position);
      scratch[next[bucket]] := names[i];
      assert scratch[..] == placed[offsets[bucket] := s[i]];
      next[bucket] := next[bucket] + 1;
      assert next[..] == offsets[bucket := offsets[bucket] + 1];
    }
    FilledIsGrouped(s, position, scratch[..], BUCKETS);
    GroupedRearranges(s, position, BUCKETS);
  }

  /** All passes, swapping the two arrays after each: a rearrangement in the order of the first 128 bytes. */
  method Order(input: seq<Bytes>) returns (sorted: seq<Bytes>)
    ensures multiset(sorted) == multiset(input) && |sorted| == |input|
    ensures SortedFrom(sorted, 0, NAME_MAX)
  {
    var names := new Bytes[|input|](i requires 0 <= i < |input| => input[i]);
    assert names[..] == input;
    var scratch := new Bytes[|input|](_ => []);
    var position: nat := NAME_MAX;
    while position > 0
      invariant position <= NAME_MAX && names != scratch && names.Length == scratch.Length == |input|
      invariant fresh(names) && fresh(scratch)
      invariant multiset(names[..]) == multiset(input)
      invariant SortedFrom(names[..], position, NAME_MAX)
    {
      position := position - 1;
      ghost var before := names[..];
      Pass(names, scratch, position);
      GroupedRearranges(before, position, BUCKETS);
      GroupedSorted(before, position, BUCKETS, NAME_MAX);
      names, scratch := scratch, names;
    }
    return names[..];
  }
}
