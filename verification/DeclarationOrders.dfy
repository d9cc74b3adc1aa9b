/** The open-addressed set of declaration orders: 256 slots, a bit for each, and linear probing. */
module DeclarationOrders {
  import opened Http
  import opened Words

  const SLOTS := 256
  const WORD_BITS := 64
  const WORDS := 4
  const MULTIPLIER := 0x9e37_79b9

  lemma LowByte(x: nat)
    ensures BitAnd(x, SLOTS - 1) == x % SLOTS
  {
    assert Pow2(8) == 256 by { assert Pow2(4) == 16 by { assert Pow2(2) == 4; } assert Pow2(6) == 64; }
    AndMask(x, 8);
  }

  /** Where the probing for a value begins; the product wraps in a 64-bit word. */
  function Home(value: nat): (slot: nat)
    ensures slot < SLOTS
  {
    var product := value * MULTIPLIER % Pow2(64);
    LowByte(product);
    BitAnd(product, SLOTS - 1)
  }

  /** The slot after `steps` steps of cyclic probing. */
  function Probe(home: nat, steps: nat): (slot: nat)
    requires home < SLOTS
    ensures slot < SLOTS
  {
    (home + steps) % SLOTS
  }

  lemma ProbeNext(home: nat, steps: nat)
    requires home < SLOTS
    ensures Probe(home, steps + 1) == if Probe(home, steps) == SLOTS - 1 then 0 else Probe(home, steps) + 1
  {
  }

  /** Every slot is on every probe path, and only once. */
  lemma ProbeReaches(home: nat, slot: nat) returns (steps: nat)
    requires home < SLOTS && slot < SLOTS
    ensures steps < SLOTS && Probe(home, steps) == slot
  {
    steps := if slot >= home then slot - home else slot + SLOTS - home;
  }

  predicate TakenIn(occupied: seq<nat>, slot: nat)
    requires |occupied| == WORDS && slot < SLOTS
  {
    BitAt(occupied[slot / WORD_BITS], slot % WORD_BITS)
  }

  /** Setting the bit of one slot leaves the others. */
  lemma SetBit(occupied: seq<nat>, slot: nat, other: nat)
    requires |occupied| == WORDS && slot < SLOTS && other < SLOTS
    ensures var word := slot / WORD_BITS;
      TakenIn(occupied[word := BitOr(occupied[word], Pow2(slot % WORD_BITS))], other) <==> TakenIn(occupied, other) || other == slot
  {
    var word := slot / WORD_BITS;
    if other / WORD_BITS == word {
      OrBits(occupied[word], Pow2(slot % WORD_BITS), other % WORD_BITS);
      PowBits(slot % WORD_BITS, other % WORD_BITS);
    }
  }

  /** The table as values: which slots are taken, and what they hold. */
  datatype Table = Table(taken: seq<bool>, values: seq<nat>) {
    predicate Shaped() { |taken| == SLOTS && |values| == SLOTS }

    /** All slots that probing passes on its way to a stored value are taken. */
    ghost predicate Reachable(slot: nat)
      requires Shaped() && slot < SLOTS
    {
      exists steps: nat {:trigger Probe(Home(values[slot]), steps)} ::
        steps < SLOTS && Probe(Home(values[slot]), steps) == slot
        && forall e :: 0 <= e < steps ==> taken[Probe(Home(values[slot]), e)]
    }

    ghost predicate Ok() {
      && Shaped()
      && (forall slot :: 0 <= slot < SLOTS && taken[slot] ==> Reachable(slot))
      && (forall a, b :: 0 <= a < b < SLOTS && taken[a] && taken[b] ==> values[a] != values[b])
    }

    ghost predicate Holds(value: nat)
      requires Shaped()
    {
      exists slot :: 0 <= slot < SLOTS && taken[slot] && values[slot] == value
    }

    predicate Full()
      requires Shaped()
    {
      forall slot :: 0 <= slot < SLOTS ==> taken[slot]
    }

    function With(slot: nat, value: nat): Table
      requires Shaped() && slot < SLOTS
    {
      Table(taken[slot := true], values[slot := value])
    }
  }

  /** Probing for `value` has passed `steps` slots, all taken by other values. */
  ghost predicate Passed(t: Table, value: nat, steps: nat)
    requires t.Shaped()
  {
    forall e :: 0 <= e < steps ==>
      var slot := Probe(Home(value), e); t.taken[slot] && t.values[slot] != value
  }

  /** A free slot on the probe path shows that the value is not stored. */
  lemma FreeSlotMeansAbsent(t: Table, value: nat, steps: nat)
    requires t.Ok() && steps < SLOTS && Passed(t, value, steps) && !t.taken[Probe(Home(value), steps)]
    ensures !t.Holds(value)
  {
    forall slot | 0 <= slot < SLOTS && t.taken[slot] ensures t.values[slot] != value {
      assert t.Reachable(slot);
      var home := Home(t.values[slot]);
      var d: nat :| d < SLOTS && Probe(home, d) == slot && forall e :: 0 <= e < d ==> t.taken[Probe(home, e)];
      assert t.values[slot] == value ==> d >= steps;
      assert t.values[slot] == value ==> d <= steps;
    }
  }

  /** Passing every slot shows that the table is full and the value is not in it. */
  lemma PassedAll(t: Table, value: nat)
    requires t.Ok() && Passed(t, value, SLOTS)
    ensures t.Full() && !t.Holds(value)
  {
    forall slot | 0 <= slot < SLOTS ensures t.taken[slot] && t.values[slot] != value {
      var steps := ProbeReaches(Home(value), slot);
      assert t.taken[Probe(Home(value), steps)];
    }
  }

  lemma StillReachable(t: Table, slot: nat, value: nat, other: nat)
    requires t.Ok() && slot < SLOTS && !t.taken[slot] && other < SLOTS && t.taken[other]
    ensures t.With(slot, value).Reachable(other)
  {
    assert t.Reachable(other);
    var home := Home(t.values[other]);
    var d: nat :| d < SLOTS && Probe(home, d) == other && forall e :: 0 <= e < d ==> t.taken[Probe(home, e)];
    var u := t.With(slot, value);
    assert u.values[other] == t.values[other];
    forall e | 0 <= e < d ensures u.taken[Probe(home, e)] {
      assert t.taken[Probe(home, e)];
    }
  }

  /** Storing at the first free slot of the probe path keeps the table in order and adds just that value. */
  lemma Stored(t: Table, value: nat, steps: nat)
    requires t.Ok() && steps < SLOTS && Passed(t, value, steps) && !t.taken[Probe(Home(value), steps)]
    ensures var u := t.With(Probe(Home(value), steps), value);
      u.Ok() && forall v :: u.Holds(v) <==> t.Holds(v) || v == value
  {
    var slot := Probe(Home(value), steps);
    var u := t.With(slot, value);
    FreeSlotMeansAbsent(t, value, steps);
    assert u.Reachable(slot) by {
      assert Probe(Home(u.values[slot]), steps) == slot;
      forall e | 0 <= e < steps ensures u.taken[Probe(Home(value), e)] {
        assert t.taken[Probe(Home(value), e)];
      }
    }
    forall other | 0 <= other < SLOTS && u.taken[other] ensures u.Reachable(other) {
      if other != slot { StillReachable(t, slot, value, other); }
    }
    forall a, b | 0 <= a < b < SLOTS && u.taken[a] && u.taken[b] ensures u.values[a] != u.values[b] {
      if a == slot || b == slot { assert t.Holds(u.values[if a == slot then b else a]); }
    }
    forall v ensures u.Holds(v) <==> t.Holds(v) || v == value {
      if t.Holds(v) {
        var s :| 0 <= s < SLOTS && t.taken[s] && t.values[s] == v;
        assert u.taken[s] && u.values[s] == v;
      }
      if v == value { assert u.taken[slot] && u.values[slot] == v; }
      if u.Holds(v) && v != value {
        var s :| 0 <= s < SLOTS && u.taken[s] && u.values[s] == v;
        assert t.taken[s] && t.values[s] == v;
      }
    }
  }

  // ---------- how many values a table can hold ----------

  ghost function FirstValues(t: Table, n: nat): (r: set<nat>)
    requires t.Shaped() && n <= SLOTS
  {
    if n == 0 then {} else FirstValues(t, n - 1) + {t.values[n - 1]}
  }

  lemma {:induction false} FirstValuesMembers(t: Table, n: nat, v: nat)
    requires t.Shaped() && n <= SLOTS
    ensures v in FirstValues(t, n) <==> exists slot :: 0 <= slot < n && t.values[slot] == v
  {
    if n > 0 { FirstValuesMembers(t, n - 1, v); }
  }

  lemma {:induction false} FirstValuesSize(t: Table, n: nat)
    requires t.Shaped() && n <= SLOTS && forall a, b :: 0 <= a < b < n ==> t.values[a] != t.values[b]
    ensures |FirstValues(t, n)| == n
  {
    if n > 0 {
      FirstValuesSize(t, n - 1);
      FirstValuesMembers(t, n - 1, t.values[n - 1]);
    }
  }

  lemma SubsetSize(a: set<nat>, b: set<nat>)
    requires a <= b
    ensures |a| <= |b|
  {
    assert b == a + (b - a);
  }

  /** A full table holds 256 different values. */
  lemma FullHoldsAll(t: Table, contents: set<nat>)
    requires t.Ok() && t.Full() && forall v :: t.Holds(v) ==> v in contents
    ensures |contents| >= SLOTS
  {
    FirstValuesSize(t, SLOTS);
    forall v | v in FirstValues(t, SLOTS) ensures v in contents {
      FirstValuesMembers(t, SLOTS, v);
      var slot :| 0 <= slot < SLOTS && t.values[slot] == v;
      assert t.Holds(v);
    }
    SubsetSize(FirstValues(t, SLOTS), contents);
  }

  // ---------- the set ----------

  class Orders {
    const values: array<nat>
    const occupied: array<nat>

    constructor ()
      ensures Valid() && fresh(values) && fresh(occupied)
      ensures forall v :: !View().Holds(v)
    {
      values := new nat[SLOTS](_ => 0);
      occupied := new nat[WORDS](_ => 0);
      new;
      forall slot | 0 <= slot < SLOTS ensures !TakenIn(occupied[..], slot) {
        ZeroBits(slot % WORD_BITS);
      }
    }

    ghost predicate Shaped()
      reads this, values, occupied
    {
      values.Length == SLOTS && occupied.Length == WORDS
    }

    ghost function View(): Table
      reads this, values, occupied
      requires Shaped()
    {
      Table(seq(SLOTS, slot requires 0 <= slot < SLOTS reads occupied => TakenIn(occupied[..], slot)), values[..])
    }

    ghost predicate Valid()
      reads this, values, occupied
    {
      && Shaped() && View().Ok()
      && forall w :: 0 <= w < WORDS ==> occupied[w] < Pow2(64)
    }

    /** The first slot on the probe path that is free or holds the value; none when all are taken by others. */
    method Seek(value: nat) returns (found: Option<nat>, ghost steps: nat)
      requires Valid()
      ensures steps <= SLOTS && Passed(View(), value, steps)
      ensures found.None? <==> steps == SLOTS
      ensures found.Some? ==>
        found.value == Probe(Home(value), steps) && (View().taken[found.value] ==> View().values[found.value] == value)
    {
      ghost var t := View();
      var slot := Home(value);
      for i := 0 to SLOTS
        invariant slot == Probe(Home(value), i) && Passed(t, value, i)
      {
        var taken := IsTaken(slot);
        if !taken || values[slot] == value { return Some(slot), i; }
        ProbeNext(Home(value), i);
        slot := Next(slot);
      }
      return None, SLOTS;
    }

    /** Testing the bit of one slot. */
    method IsTaken(slot: nat) returns (taken: bool)
      requires Shaped() && slot < SLOTS
      ensures taken == View().taken[slot]
    {
      var word, mask := slot / WORD_BITS, Mask(slot);
      AndBit(occupied[word], slot % WORD_BITS);
      taken := BitAnd(occupied[word], mask) != 0;
    }

    /** True exactly for a value not inserted before; only a full table cannot take a new one. */
    method Insert(value: nat) returns (isNew: bool)
      requires Valid()
      modifies values, occupied
      ensures Valid()
      ensures isNew <==> !old(View().Holds(value))
      ensures !old(View().Full()) ==> forall v :: View().Holds(v) <==> old(View().Holds(v)) || v == value
      ensures old(View().Full()) ==> View() == old(View())
    {
      ghost var t := View();
      var found, steps := Seek(value);
      if found.None? {
        PassedAll(t, value);
        return true;
      }
      var taken := IsTaken(found.value);
      if taken { return false; }
      FreeSlotMeansAbsent(t, value, steps);
      Stored(t, value, steps);
      Store(found.value, value);
      return true;
    }

    method Store(slot: nat, value: nat)
      requires Shaped() && slot < SLOTS && forall w :: 0 <= w < WORDS ==> occupied[w] < Pow2(64)
      modifies values, occupied
      ensures View() == old(View()).With(slot, value)
      ensures forall w :: 0 <= w < WORDS ==> occupied[w] < Pow2(64)
    {
      hide Pow2;
      hide BitOr;
      ghost var bits, held, t := occupied[..], values[..], View();
      var word, mask := slot / WORD_BITS, Mask(slot);
      OrFits(occupied[word], mask, 64);
      values[slot] := value;
      occupied[word] := BitOr(occupied[word], mask);
      assert occupied[..] == bits[word := BitOr(bits[word], mask)] && values[..] == held[slot := value];
      forall other | 0 <= other < SLOTS ensures View().taken[other] == t.With(slot, value).taken[other] {
        SetBit(bits, slot, other);
      }
      assert View().taken == t.With(slot, value).taken;
    }
  }

  /** The bit of a slot within its word. */
  function Mask(slot: nat): (mask: nat)
    ensures mask == Pow2(slot % WORD_BITS) < Pow2(64)
  {
    var bit := slot % WORD_BITS;
    PowLess(bit, 64);
    ShlFits(1, bit, 64);
    Shl(1, bit, 64)
  }

  lemma PowLess(a: nat, b: nat)
    requires a < b
    ensures Pow2(a) < Pow2(b)
  {
    PowMonotone(a + 1, b);
  }

  /** The next slot, masked to the table. */
  function Next(slot: nat): (next: nat)
    requires slot < SLOTS
    ensures next == if slot == SLOTS - 1 then 0 else slot + 1
  {
    LowByte(slot + 1);
    BitAnd(slot + 1, SLOTS - 1)
  }
}
