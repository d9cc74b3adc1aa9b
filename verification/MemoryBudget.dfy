/** The shared body-memory budget as a step machine over every interleaving of its threads.

Loads may be stale: a load of `used` observes anything (the compare-exchange re-validates it) and a
load of `limit` observes any limit stored so far. A compare-exchange may fail spuriously. */
module MemoryBudget {

  const USIZE := 0x1_0000_0000_0000_0000

  type Thread = nat

  type PermitId = nat

  datatype Purpose = Keep | Grow(permit: PermitId)

  datatype Pc =
    | Idle
    | Reserving(bytes: nat, current: nat, purpose: Purpose)
    | Swapping(bytes: nat, current: nat, purpose: Purpose)
    | MergeStart(into: PermitId, other: PermitId)
    | MergeAdded(into: PermitId, other: PermitId)
    | MergeZeroed(into: PermitId, other: PermitId)

  datatype State = State(
    used: nat,
    stored: set<nat>,  // every limit stored so far, the initial one included
    permits: map<PermitId, nat>,
    threads: map<Thread, Pc>)

  datatype Step =
    | StoreLimit(limit: nat)
    | StartReserve(t: Thread, bytes: nat, purpose: Purpose, observed: nat)
    | CheckLimit(t: Thread, observed: nat)
    | CompareExchange(t: Thread, spurious: bool, observed: nat, issued: PermitId)
    | StartAbsorb(t: Thread, into: PermitId, other: PermitId)
    | AddOther(t: Thread)
    | ZeroOther(t: Thread)
    | DropOther(t: Thread)
    | DropPermit(permit: PermitId)

  function Init(limit: nat, threads: set<Thread>): State {
    State(0, {limit}, map[], map t | t in threads :: Idle)
  }

  /** The permits a running operation has borrowed or taken over. */
  function Held(pc: Pc): set<PermitId> {
    match pc
    case Idle => {}
    case Reserving(_, _, purpose) => if purpose.Grow? then {purpose.permit} else {}
    case Swapping(_, _, purpose) => if purpose.Grow? then {purpose.permit} else {}
    case MergeStart(p, o) => {p, o}
    case MergeAdded(p, o) => {p, o}
    case MergeZeroed(p, o) => {p, o}
  }

  ghost predicate Free(s: State, permit: PermitId) {
    permit in s.permits && forall t :: t in s.threads ==> permit !in Held(s.threads[t])
  }

  predicate At(s: State, t: Thread, pc: Pc) { t in s.threads && s.threads[t] == pc }

  ghost predicate Enabled(s: State, step: Step) {
    match step
    case StoreLimit(limit) => limit < USIZE
    case StartReserve(t, bytes, purpose, observed) =>
      At(s, t, Idle) && bytes < USIZE && observed < USIZE && (purpose.Grow? ==> Free(s, purpose.permit))
    case CheckLimit(t, observed) => t in s.threads && s.threads[t].Reserving? && observed in s.stored
    case CompareExchange(t, _, observed, issued) =>
      t in s.threads && s.threads[t].Swapping? && observed < USIZE && issued !in s.permits
    case StartAbsorb(t, into, other) => At(s, t, Idle) && into != other && Free(s, into) && Free(s, other)
    case AddOther(t) => t in s.threads && s.threads[t].MergeStart?
                        && s.threads[t].into in s.permits && s.threads[t].other in s.permits
    case ZeroOther(t) => t in s.threads && s.threads[t].MergeAdded? && s.threads[t].other in s.permits
    case DropOther(t) => t in s.threads && s.threads[t].MergeZeroed? && s.threads[t].other in s.permits
    case DropPermit(permit) => Free(s, permit)
  }

  /** An unsigned counter after subtracting, wrapping as the hardware does. */
  function WrappingSub(used: nat, bytes: nat): nat { (used - bytes) % USIZE }

  /** Adding the other permit's bytes overflows: the operation fails and the other permit is dropped whole. */
  predicate AddOverflows(s: State, t: Thread)
    requires t in s.threads && s.threads[t].MergeStart?
    requires s.threads[t].into in s.permits && s.threads[t].other in s.permits
  {
    s.permits[s.threads[t].into] + s.permits[s.threads[t].other] >= USIZE
  }

  function Apply(s: State, step: Step): State
    requires Enabled(s, step)
  {
    match step
    case StoreLimit(limit) => s.(stored := s.stored + {limit})
    case StartReserve(t, bytes, purpose, observed) =>
      s.(threads := s.threads[t := Reserving(bytes, observed, purpose)])
    case CheckLimit(t, observed) =>
      var Reserving(bytes, current, purpose) := s.threads[t];
      if current + bytes >= USIZE || current + bytes > observed then s.(threads := s.threads[t := Idle])
      else s.(threads := s.threads[t := Swapping(bytes, current, purpose)])
    case CompareExchange(t, spurious, observed, issued) =>
      var Swapping(bytes, current, purpose) := s.threads[t];
      if spurious || s.used != current then s.(threads := s.threads[t := Reserving(bytes, observed, purpose)])
      else s.(used := current + bytes,
              permits := s.permits[issued := bytes],
              threads := s.threads[t := if purpose.Grow? then MergeStart(purpose.permit, issued) else Idle])
    case StartAbsorb(t, into, other) => s.(threads := s.threads[t := MergeStart(into, other)])
    case AddOther(t) =>
      var MergeStart(p, o) := s.threads[t];
      if AddOverflows(s, t) then
        State(WrappingSub(s.used, s.permits[o]), s.stored, s.permits - {o}, s.threads[t := Idle])
      else
        s.(permits := s.permits[p := s.permits[p] + s.permits[o]], threads := s.threads[t := MergeAdded(p, o)])
    case ZeroOther(t) =>
      var MergeAdded(p, o) := s.threads[t];
      s.(permits := s.permits[o := 0], threads := s.threads[t := MergeZeroed(p, o)])
    case DropOther(t) =>
      var MergeZeroed(p, o) := s.threads[t];
      State(WrappingSub(s.used, s.permits[o]), s.stored, s.permits - {o}, s.threads[t := Idle])
    case DropPermit(permit) =>
      s.(used := WrappingSub(s.used, s.permits[permit]), permits := s.permits - {permit})
  }

  ghost predicate IsRun(s: State, steps: seq<Step>, final: State)
    decreases |steps|
  {
    if steps == [] then final == s
    else Enabled(s, steps[0]) && IsRun(Apply(s, steps[0]), steps[1..], final)
  }

  // ---------- what the permits own ----------

  ghost function Total(m: map<PermitId, nat>): nat
    decreases |m|
  {
    if m == map[] then 0 else
    var k :| k in m;
    assert (m - {k}).Keys == m.Keys - {k};
    m[k] + Total(m - {k})
  }

  lemma {:induction false} TotalWithout(m: map<PermitId, nat>, k: PermitId)
    requires k in m
    ensures Total(m) == m[k] + Total(m - {k})
    decreases |m|
  {
    var first :| first in m && Total(m) == m[first] + Total(m - {first});
    if first != k {
      assert (m - {first}).Keys == m.Keys - {first};
      TotalWithout(m - {first}, k);
      assert (m - {k}).Keys == m.Keys - {k};
      TotalWithout(m - {k}, first);
      assert m - {first} - {k} == m - {k} - {first};
    }
  }

  lemma TotalUpdate(m: map<PermitId, nat>, k: PermitId, v: nat)
    ensures Total(m[k := v]) == Total(m) - (if k in m then m[k] else 0) + v
  {
    TotalWithout(m[k := v], k);
    assert m[k := v] - {k} == m - {k};
    if k in m { TotalWithout(m, k); } else { assert m - {k} == m; }
  }

  /** Permits whose bytes are, for a moment, counted in the permit that takes them over as well. */
  function Duplicated(s: State): set<PermitId> {
    set t | t in s.threads && s.threads[t].MergeAdded? :: s.threads[t].other
  }

  function Counted(s: State): map<PermitId, nat> {
    map p | p in s.permits :: if p in Duplicated(s) then 0 else s.permits[p]
  }

  /** The bytes live permits own, a half-finished grow or absorb counted once. */
  ghost function Owned(s: State): nat { Total(Counted(s)) }

  ghost predicate WithinSomeLimit(s: State, n: nat) { exists limit :: limit in s.stored && n <= limit }

  predicate LimitRespected(s: State, limit: nat) { limit in s.stored && s.used <= limit }

  ghost predicate HoldsOk(s: State) {
    && (forall t :: t in s.threads ==> Held(s.threads[t]) <= s.permits.Keys)
    && (forall t, u :: t in s.threads && u in s.threads && t != u ==> Held(s.threads[t]) !! Held(s.threads[u]))
  }

  ghost predicate PcOk(s: State, pc: Pc) {
    match pc
    case Swapping(bytes, current, _) => current + bytes < USIZE && WithinSomeLimit(s, current + bytes)
    case MergeStart(p, o) => p != o
    case MergeAdded(p, o) => p != o
    case MergeZeroed(p, o) => p != o && o in s.permits && s.permits[o] == 0
    case _ => true
  }

  ghost predicate Inv(s: State) {
    && s.used == Owned(s) < USIZE
    && WithinSomeLimit(s, s.used)
    && HoldsOk(s)
    && (forall t :: t in s.threads ==> PcOk(s, s.threads[t]))
  }

  // ---------- every step keeps the invariant ----------

  lemma OwnedBounds(s: State, p: PermitId)
    requires p in s.permits && p !in Duplicated(s)
    ensures s.permits[p] <= Owned(s)
  {
    TotalWithout(Counted(s), p);
  }

  lemma OwnedBoundsTwo(s: State, p: PermitId, o: PermitId)
    requires p in s.permits && o in s.permits && p != o && p !in Duplicated(s) && o !in Duplicated(s)
    ensures s.permits[p] + s.permits[o] <= Owned(s)
  {
    TotalWithout(Counted(s), p);
    TotalWithout(Counted(s) - {p}, o);
  }

  lemma NotDuplicated(s: State, t: Thread, p: PermitId)
    requires HoldsOk(s) && t in s.threads && p in Held(s.threads[t]) && !s.threads[t].MergeAdded?
    ensures p !in Duplicated(s)
  {
  }

  lemma FreeIsNotDuplicated(s: State, p: PermitId)
    requires Free(s, p)
    ensures p !in Duplicated(s)
  {
  }

  /** Moving a thread between points that duplicate nothing leaves the counting alone. */
  lemma SameDuplicates(s: State, t: Thread, pc: Pc)
    requires t in s.threads && !s.threads[t].MergeAdded? && !pc.MergeAdded?
    ensures Duplicated(s.(threads := s.threads[t := pc])) == Duplicated(s)
  {
    var s' := s.(threads := s.threads[t := pc]);
    forall p | p in Duplicated(s) ensures p in Duplicated(s') {
      var u :| u in s.threads && s.threads[u].MergeAdded? && s.threads[u].other == p;
      assert u in s'.threads && s'.threads[u] == s.threads[u];
    }
  }

  lemma MoveKeepsInv(s: State, t: Thread, pc: Pc)
    requires Inv(s) && t in s.threads && !s.threads[t].MergeAdded? && !pc.MergeAdded?
    requires PcOk(s, pc) && Held(pc) <= s.permits.Keys
    requires forall u :: u in s.threads && u != t ==> Held(s.threads[u]) !! Held(pc)
    ensures Inv(s.(threads := s.threads[t := pc]))
  {
    var s' := s.(threads := s.threads[t := pc]);
    SameDuplicates(s, t, pc);
    assert Counted(s') == Counted(s);
    var limit :| limit in s.stored && s.used <= limit;
    assert WithinSomeLimit(s', s'.used);
    forall u | u in s'.threads ensures PcOk(s', s'.threads[u]) {
      if u != t { assert PcOk(s, s.threads[u]); }
      if s'.threads[u].Swapping? {
        var n := s'.threads[u].current + s'.threads[u].bytes;
        var l :| l in s.stored && n <= l;
        assert WithinSomeLimit(s', n);
      }
    }
  }

  lemma StoreLimitKeepsInv(s: State, limit: nat)
    requires Inv(s) && limit < USIZE
    ensures Inv(s.(stored := s.stored + {limit}))
  {
    var s' := s.(stored := s.stored + {limit});
    assert Duplicated(s') == Duplicated(s) && Counted(s') == Counted(s);
    forall n | WithinSomeLimit(s, n) ensures WithinSomeLimit(s', n) {
      var l :| l in s.stored && n <= l;
      assert l in s'.stored;
    }
    forall t | t in s'.threads ensures PcOk(s', s'.threads[t]) {
      assert PcOk(s, s.threads[t]);
    }
  }

  lemma GrantKeepsInv(s: State, t: Thread, issued: PermitId)
    requires Inv(s) && t in s.threads && s.threads[t].Swapping? && s.used == s.threads[t].current
    requires issued !in s.permits
    ensures Inv(Apply(s, CompareExchange(t, false, 0, issued)))
  {
    var Swapping(bytes, current, purpose) := s.threads[t];
    var s' := Apply(s, CompareExchange(t, false, 0, issued));
    SameDuplicates(s, t, s'.threads[t]);
    assert Duplicated(s') == Duplicated(s.(threads := s'.threads));
    assert issued !in Duplicated(s);
    assert Counted(s') == Counted(s)[issued := bytes];
    TotalUpdate(Counted(s), issued, bytes);
    assert PcOk(s, s.threads[t]);
    assert forall n :: WithinSomeLimit(s, n) ==> WithinSomeLimit(s', n);
    forall u | u in s'.threads ensures PcOk(s', s'.threads[u]) {
      assert PcOk(s, s.threads[u]);
    }
    assert HoldsOk(s') by {
      forall u | u in s'.threads ensures Held(s'.threads[u]) <= s'.permits.Keys {
        assert Held(s.threads[u]) <= s.permits.Keys;
      }
      forall u | u in s.threads && u != t ensures Held(s'.threads[u]) !! Held(s'.threads[t]) {
        assert Held(s.threads[u]) <= s.permits.Keys;
        assert Held(s.threads[u]) !! Held(s.threads[t]);
      }
    }
  }

  lemma AddOtherFits(s: State, t: Thread)
    requires Inv(s) && Enabled(s, AddOther(t))
    ensures s.threads[t].into !in Duplicated(s) && s.threads[t].other !in Duplicated(s)
    ensures s.threads[t].into != s.threads[t].other && !AddOverflows(s, t)
  {
    var MergeStart(p, o) := s.threads[t];
    NotDuplicated(s, t, p);
    NotDuplicated(s, t, o);
    assert PcOk(s, s.threads[t]);
    OwnedBoundsTwo(s, p, o);
  }

  lemma AddOtherKeepsOwned(s: State, t: Thread)
    requires Inv(s) && Enabled(s, AddOther(t))
    requires s.threads[t].into !in Duplicated(s) && s.threads[t].other !in Duplicated(s)
    requires s.threads[t].into != s.threads[t].other && !AddOverflows(s, t)
    ensures Owned(Apply(s, AddOther(t))) == Owned(s)
  {
    var MergeStart(p, o) := s.threads[t];
    var s' := Apply(s, AddOther(t));
    assert Duplicated(s') == Duplicated(s) + {o} by {
      forall q | q in Duplicated(s) + {o} ensures q in Duplicated(s') {
        if q == o {
          assert s'.threads[t].other == o;
        } else {
          var u :| u in s.threads && s.threads[u].MergeAdded? && s.threads[u].other == q;
          assert s'.threads[u] == s.threads[u];
        }
      }
    }
    var c: map<PermitId, nat> := Counted(s);
    var grown: map<PermitId, nat> := c[p := c[p] + c[o]];
    assert Counted(s') == grown[o := 0];
    TotalUpdate(c, p, c[p] + c[o]);
    TotalUpdate(grown, o, 0);
  }

  lemma AddOtherKeepsInv(s: State, t: Thread)
    requires Inv(s) && Enabled(s, AddOther(t))
    ensures !AddOverflows(s, t)
    ensures Inv(Apply(s, AddOther(t)))
  {
    AddOtherFits(s, t);
    AddOtherKeepsOwned(s, t);
    KeepOthers(s, Apply(s, AddOther(t)), t);
  }

  lemma ZeroOtherKeepsInv(s: State, t: Thread)
    requires Inv(s) && Enabled(s, ZeroOther(t))
    ensures Inv(Apply(s, ZeroOther(t)))
  {
    var MergeAdded(p, o) := s.threads[t];
    var s' := Apply(s, ZeroOther(t));
    assert o in Duplicated(s);
    assert Duplicated(s') == Duplicated(s) - {o} by {
      forall q | q in Duplicated(s) - {o} ensures q in Duplicated(s') {
        var u :| u in s.threads && s.threads[u].MergeAdded? && s.threads[u].other == q;
        assert s'.threads[u] == s.threads[u];
      }
    }
    assert Counted(s') == Counted(s);
    assert PcOk(s, s.threads[t]);
    KeepOthers(s, s', t);
  }

  /** The side conditions survive a step that changes one thread and only permits that thread holds. */
  lemma KeepOthers(s: State, s': State, t: Thread)
    requires Inv(s) && t in s.threads && s'.threads.Keys == s.threads.Keys
    requires s'.stored == s.stored && s'.used == s.used
    requires forall u :: u in s.threads && u != t ==> s'.threads[u] == s.threads[u]
    requires Held(s'.threads[t]) <= Held(s.threads[t]) && s'.permits.Keys == s.permits.Keys
    requires forall q :: q in s.permits && q !in Held(s.threads[t]) ==> s'.permits[q] == s.permits[q]
    requires PcOk(s', s'.threads[t])
    ensures WithinSomeLimit(s', s'.used) && HoldsOk(s')
    ensures forall u :: u in s'.threads ==> PcOk(s', s'.threads[u])
  {
    assert forall n :: WithinSomeLimit(s, n) ==> WithinSomeLimit(s', n);
    forall u | u in s'.threads && u != t ensures PcOk(s', s'.threads[u]) {
      assert PcOk(s, s.threads[u]);
      assert Held(s.threads[u]) !! Held(s.threads[t]);
      if s.threads[u].MergeZeroed? {
        assert s.threads[u].other in Held(s.threads[u]);
        assert s.threads[u].other !in Held(s.threads[t]);
      }
    }
    forall u | u in s'.threads ensures Held(s'.threads[u]) <= s'.permits.Keys {
      assert Held(s.threads[u]) <= s.permits.Keys;
    }
    forall u, w | u in s'.threads && w in s'.threads && u != w ensures Held(s'.threads[u]) !! Held(s'.threads[w]) {
      assert Held(s.threads[u]) !! Held(s.threads[w]);
    }
  }

  /** Dropping an undisturbed permit gives back exactly its bytes, without wrapping. */
  lemma DropKeepsInv(s: State, p: PermitId, s': State)
    requires Inv(s) && Free(s, p)
    requires s' == s.(used := WrappingSub(s.used, s.permits[p]), permits := s.permits - {p})
    ensures s'.used == s.used - s.permits[p]
    ensures Inv(s')
  {
    FreeIsNotDuplicated(s, p);
    OwnedBounds(s, p);
    assert Duplicated(s') == Duplicated(s);
    assert Counted(s') == Counted(s) - {p};
    TotalWithout(Counted(s), p);
    var limit :| limit in s.stored && s.used <= limit;
    assert WithinSomeLimit(s', s'.used);
    assert forall n :: WithinSomeLimit(s, n) ==> WithinSomeLimit(s', n);
    forall u | u in s'.threads ensures PcOk(s', s'.threads[u]) && Held(s'.threads[u]) <= s'.permits.Keys {
      assert PcOk(s, s.threads[u]);
      assert Held(s.threads[u]) <= s.permits.Keys && p !in Held(s.threads[u]);
      if s.threads[u].MergeZeroed? { assert s.threads[u].other in Held(s.threads[u]); }
    }
  }

  lemma DropOtherKeepsInv(s: State, t: Thread)
    requires Inv(s) && Enabled(s, DropOther(t))
    ensures Inv(Apply(s, DropOther(t)))
  {
    var o := s.threads[t].other;
    var idle := s.(threads := s.threads[t := Idle]);
    MoveKeepsInv(s, t, Idle);
    forall u | u in idle.threads ensures o !in Held(idle.threads[u]) {
      if u != t { assert Held(s.threads[u]) !! Held(s.threads[t]); }
    }
    DropKeepsInv(idle, o, Apply(s, DropOther(t)));
  }

  lemma StepKeepsInv(s: State, step: Step)
    requires Inv(s) && Enabled(s, step)
    ensures Inv(Apply(s, step))
  {
    match step
    case StoreLimit(limit) => StoreLimitKeepsInv(s, limit);
    case StartReserve(t, bytes, purpose, observed) => MoveKeepsInv(s, t, Reserving(bytes, observed, purpose));
    case CheckLimit(t, observed) =>
      var pc := Apply(s, step).threads[t];
      assert pc.Swapping? ==> WithinSomeLimit(s, pc.current + pc.bytes);
      assert forall u :: u in s.threads && u != t ==> Held(s.threads[u]) !! Held(s.threads[t]);
      MoveKeepsInv(s, t, pc);
    case CompareExchange(t, spurious, observed, issued) =>
      if spurious || s.used != s.threads[t].current {
        assert forall u :: u in s.threads && u != t ==> Held(s.threads[u]) !! Held(s.threads[t]);
        MoveKeepsInv(s, t, Apply(s, step).threads[t]);
      } else {
        GrantKeepsInv(s, t, issued);
      }
    case StartAbsorb(t, into, other) => MoveKeepsInv(s, t, MergeStart(into, other));
    case AddOther(t) => AddOtherKeepsInv(s, t);
    case ZeroOther(t) => ZeroOtherKeepsInv(s, t);
    case DropOther(t) => DropOtherKeepsInv(s, t);
    case DropPermit(permit) => DropKeepsInv(s, permit, Apply(s, step));
  }

  lemma {:induction false} RunKeepsInv(s: State, steps: seq<Step>, final: State)
    requires Inv(s) && IsRun(s, steps, final)
    ensures Inv(final)
    decreases |steps|
  {
    if steps != [] {
      StepKeepsInv(s, steps[0]);
      RunKeepsInv(Apply(s, steps[0]), steps[1..], final);
    }
  }

  lemma InitInv(limit: nat, threads: set<Thread>)
    ensures Inv(Init(limit, threads))
  {
    assert Counted(Init(limit, threads)) == map[];
    assert limit in Init(limit, threads).stored;
  }

  // ---------- what holds over whole runs ----------

  /** After any run the counter is the bytes owned by live permits, within the largest limit ever stored. */
  lemma UsedIsOwned(limit: nat, threads: set<Thread>, steps: seq<Step>, final: State)
    requires IsRun(Init(limit, threads), steps, final)
    ensures final.used == Owned(final)
    ensures exists l :: LimitRespected(final, l)
  {
    InitInv(limit, threads);
    RunKeepsInv(Init(limit, threads), steps, final);
    var l :| l in final.stored && final.used <= l;
    assert LimitRespected(final, l);
  }

  /** When no operation is under way, the counter is the plain sum over the permits. */
  lemma UsedAtRest(limit: nat, threads: set<Thread>, steps: seq<Step>, final: State)
    requires IsRun(Init(limit, threads), steps, final)
    requires forall t :: t in final.threads ==> final.threads[t] == Idle
    ensures final.used == Total(final.permits)
    ensures final.permits == map[] ==> final.used == 0
  {
    UsedIsOwned(limit, threads, steps, final);
    assert Counted(final) == final.permits;
  }

  /** No drop ever wraps below zero, and no permit's byte count ever overflows. */
  lemma NeverWraps(limit: nat, threads: set<Thread>, steps: seq<Step>, final: State, step: Step)
    requires IsRun(Init(limit, threads), steps, final) && Enabled(final, step)
    ensures step.AddOther? ==> !AddOverflows(final, step.t)
    ensures step.DropPermit? ==> Apply(final, step).used == final.used - final.permits[step.permit]
    ensures step.DropOther? ==> Apply(final, step).used == final.used
  {
    InitInv(limit, threads);
    RunKeepsInv(Init(limit, threads), steps, final);
    if step.AddOther? { AddOtherKeepsInv(final, step.t); }
    if step.DropPermit? { DropKeepsInv(final, step.permit, Apply(final, step)); }
    if step.DropOther? { assert PcOk(final, final.threads[step.t]); }
  }
}
