/**
 Backend selection in the connect hook: a round-robin scan over one VIP's entry,
 with the 32-bit arithmetic of `rr_index` written out.

 A slot is usable when its backend is healthy and, once the view lease has
 lapsed, runs on this node. `u[s]` says whether slot s is usable.
 */
module OnionSelect {
  import opened Common
  import opened Modular

  const MAX_BACKENDS: nat := 32

  datatype Endpoint = Endpoint(ip: nat, port: nat, healthy: nat, local: nat)

  predicate Usable(b: Endpoint, localOnly: bool) {
    b.healthy == 1 && (!localOnly || b.local == 1)
  }

  type Flags = u: seq<bool> | |u| == MAX_BACKENDS witness seq(MAX_BACKENDS, _ => false)

  function UsableFlags(backends: seq<Endpoint>, localOnly: bool): Flags
    requires |backends| == MAX_BACKENDS
  {
    seq(MAX_BACKENDS, s requires 0 <= s < MAX_BACKENDS => Usable(backends[s], localOnly))
  }

  /** An index, after at most one turn of the 32-bit counter. */
  function Wrap(x: nat): nat {
    if x < TWO32 then x else x - TWO32
  }

  /** The slot the i-th probe looks at: (rr + i) wraps at 32 bits before the remainder is taken. */
  function Slot(rr: nat, i: nat, count: nat): (s: nat)
    requires count > 0
    ensures s < count
  {
    Mod(Wrap(rr + i), count)
  }

  /** The program's own arithmetic: an unsigned 32-bit sum, modulo the count. */
  lemma SlotIsRemainder(rr: nat, i: nat, count: nat)
    requires count > 0 && rr < TWO32 && i <= MAX_BACKENDS
    ensures (rr + i) % TWO32 == Wrap(rr + i)
    ensures (rr + i) % TWO32 % count == Slot(rr, i, count)
  {
    ModIs(Wrap(rr + i), count);
  }

  predicate Hit(rr: nat, i: nat, count: nat, u: Flags)
    requires count > 0
  {
    Slot(rr, i, count) < MAX_BACKENDS && u[Slot(rr, i, count)]
  }

  /** The first probe, from i on, that hits a usable slot. */
  function ScanFrom(rr: nat, count: nat, u: Flags, i: nat): Option<nat>
    requires count > 0
    decreases MAX_BACKENDS - i
  {
    if i >= MAX_BACKENDS || i >= count then None
    else if Hit(rr, i, count, u) then Some(i)
    else ScanFrom(rr, count, u, i + 1)
  }

  function Scan(rr: nat, count: nat, u: Flags): Option<nat>
    requires count > 0
  {
    ScanFrom(rr, count, u, 0)
  }

  predicate NoHitBelow(rr: nat, count: nat, u: Flags, i: nat)
    requires count > 0
  {
    forall j: nat :: j < i ==> !Hit(rr, j, count, u)
  }

  /** What the scan returns: the least hit among the probes it makes, if there is one. */
  lemma {:induction false} ScanFromIs(rr: nat, count: nat, u: Flags, k: nat, i: nat)
    requires count > 0 && k <= i && NoHitBelow(rr, count, u, i)
    ensures i < count && i < MAX_BACKENDS && Hit(rr, i, count, u) ==> ScanFrom(rr, count, u, k) == Some(i)
    ensures i >= count || i >= MAX_BACKENDS ==> ScanFrom(rr, count, u, k) == None
    decreases i - k
  {
    if k < i { ScanFromIs(rr, count, u, k + 1, i); }
  }

  lemma {:induction false} ScanFromSound(rr: nat, count: nat, u: Flags, k: nat)
    requires count > 0 && NoHitBelow(rr, count, u, k)
    ensures var r := ScanFrom(rr, count, u, k);
      if r.Some?
      then r.value < count && r.value < MAX_BACKENDS && Hit(rr, r.value, count, u) && NoHitBelow(rr, count, u, r.value)
      else NoHitBelow(rr, count, u, if count < MAX_BACKENDS then count else MAX_BACKENDS)
    decreases MAX_BACKENDS - k
  {
    if k < MAX_BACKENDS && k < count && !Hit(rr, k, count, u) { ScanFromSound(rr, count, u, k + 1); }
  }

  /** One probe's index arithmetic, as the program computes it. */
  method Probe(rr: nat, i: nat, count: nat) returns (idx: nat, next: nat)
    requires count > 0 && rr < TWO32 && i < MAX_BACKENDS
    ensures idx == Slot(rr, i, count) && next == Wrap(rr + i + 1)
  {
    SlotIsRemainder(rr, i, count);
    SlotIsRemainder(rr, i + 1, count);
    idx, next := (rr + i) % TWO32 % count, (rr + i + 1) % TWO32;
  }

  class BackendValue {
    var count: nat
    var rrIndex: nat
    var backends: seq<Endpoint>

    ghost predicate Valid()
      reads this
    {
      |backends| == MAX_BACKENDS && rrIndex < TWO32 && count < TWO32
    }

    constructor (count: nat, backends: seq<Endpoint>)
      requires |backends| == MAX_BACKENDS && count < TWO32
      ensures Valid() && this.count == count && this.backends == backends && rrIndex == 0
    {
      this.count, this.rrIndex, this.backends := count, 0, backends;
    }

    /** The selection loop: the slot of the first hit, remembering the probe after it. */
    method Select(localOnly: bool) returns (slot: Option<nat>)
      requires Valid() && count > 0
      modifies this`rrIndex
      ensures Valid()
      ensures var r := Connect(count, UsableFlags(backends, localOnly))(old(rrIndex));
              if r.Some? then slot == Some(r.value.0) && rrIndex == r.value.1
              else slot == None && rrIndex == old(rrIndex)
      ensures slot.Some? ==> slot.value < MAX_BACKENDS && slot.value < count && Usable(backends[slot.value], localOnly)
    {
      slot := None;
      var rr := rrIndex;
      ghost var u := UsableFlags(backends, localOnly);
      var i := 0;
      while i < MAX_BACKENDS && i < count
        invariant 0 <= i <= MAX_BACKENDS
        invariant rrIndex == rr && NoHitBelow(rr, count, u, i)
      {
        var idx, next := Probe(rr, i, count);
        if idx < MAX_BACKENDS {
          var b := backends[idx];
          if b.healthy == 1 && (!localOnly || b.local == 1) {
            StepFinds(rr, count, u, i);
            rrIndex := next;
            return Some(idx);
          }
        }
        i := i + 1;
      }
      StepRefuses(rr, count, u, i);
    }
  }

  lemma StepFinds(rr: nat, count: nat, u: Flags, i: nat)
    requires count > 0 && i < count && i < MAX_BACKENDS && NoHitBelow(rr, count, u, i) && Hit(rr, i, count, u)
    ensures Connect(count, u)(rr) == Some((Slot(rr, i, count), Wrap(rr + i + 1)))
  {
    ScanFromIs(rr, count, u, 0, i);
    ConnectIs(count, u, rr, i);
  }

  lemma StepRefuses(rr: nat, count: nat, u: Flags, i: nat)
    requires count > 0 && (i >= count || i >= MAX_BACKENDS) && NoHitBelow(rr, count, u, i)
    ensures Connect(count, u)(rr) == None
  {
    ScanFromIs(rr, count, u, 0, i);
  }

  // ------------------------------------------------------------ completeness

  /** The probes from `rr` run through the slots without a jump. */
  predicate Steady(rr: nat, count: nat)
    requires count > 0
  {
    rr + count <= TWO32 || Mod(TWO32, count) == 0
  }

  predicate AnyUsable(count: nat, u: Flags) {
    exists s: nat :: s < count && s < MAX_BACKENDS && u[s]
  }

  /** A probe that has not wrapped, or whose wrap drops whole turns, looks at position rr + i read cyclically. */
  lemma SteadySlot(rr: nat, i: nat, count: nat)
    requires count > 0 && rr < TWO32 && i <= MAX_BACKENDS && (rr + i < TWO32 || Mod(TWO32, count) == 0)
    ensures Slot(rr, i, count) == Mod(rr + i, count)
  {
    if rr + i >= TWO32 {
      ModAddMultiple(rr + i - TWO32, TWO32, count);
    }
  }

  /** How far slot t lies above slot s, going round past the last slot to 0. */
  function Distance(s: nat, t: nat, count: nat): (d: nat)
    requires s < count && t < count
    ensures d < count
  {
    if t >= s then t - s else t + count - s
  }

  lemma ProbeReaches(rr: nat, s: nat, count: nat)
    requires s < count
    ensures Mod(rr + Distance(Mod(rr, count), s, count), count) == s
  {
    ModAdd(rr, Distance(Mod(rr, count), s, count), count);
  }

  /** Some probe of a steady scan looks at slot s. */
  lemma SteadyProbe(rr: nat, s: nat, count: nat) returns (i: nat)
    requires s < count <= MAX_BACKENDS && rr < TWO32 && Steady(rr, count)
    ensures i < count && Slot(rr, i, count) == s
  {
    ProbeReaches(rr, s, count);
    i := Distance(Mod(rr, count), s, count);
    SteadySlot(rr, i, count);
  }

  /** The scan finds a backend whenever there is a usable one. */
  predicate Finds(rr: nat, count: nat, u: Flags)
    requires count > 0
  {
    Scan(rr, count, u).Some? <==> AnyUsable(count, u)
  }

  lemma SteadyScanIsComplete(rr: nat, count: nat, u: Flags)
    requires 0 < count <= MAX_BACKENDS && rr < TWO32 && Steady(rr, count)
    ensures Finds(rr, count, u)
  {
    ScanFromSound(rr, count, u, 0);
    var r := Scan(rr, count, u);
    if r.Some? { assert u[Slot(rr, r.value, count)]; }
    if AnyUsable(count, u) {
      var s: nat :| s < count && s < MAX_BACKENDS && u[s];
      var i := SteadyProbe(rr, s, count);
      assert Hit(rr, i, count, u);
    }
  }

  /** The slot that no probe reaches when the index wraps mid-scan and the count does not divide 2^32. */
  function Missed(rr: nat, count: nat): nat
    requires 0 < count && TWO32 - count < rr < TWO32
  {
    var m, i0 := Mod(TWO32, count), TWO32 - rr;
    if m >= i0 then count - 1 else count + m - i0 - 1
  }

  lemma MissedIsMissed(rr: nat, count: nat, i: nat)
    requires 1 < count <= MAX_BACKENDS && !Steady(rr, count) && rr < TWO32 && i < count
    ensures Missed(rr, count) < count && Slot(rr, i, count) != Missed(rr, count)
  {
    if i < TWO32 - rr { ModAdd(rr + i, TWO32 - rr - i, count); }
  }

  /**
   A scan over 1 to 32 backends finds a usable one whenever there is one, for
   every pattern of usable slots, exactly when the 32-bit index does not wrap
   during the scan or the count is a power of two.
   */
  lemma CompleteIffSteady(rr: nat, count: nat)
    requires 0 < count <= 32 && rr < TWO32
    ensures (forall u: Flags :: Finds(rr, count, u)) <==> Steady(rr, count)
    ensures Steady(rr, count) <==> rr + count <= TWO32 || count in {1, 2, 4, 8, 16, 32}
  {
    DividesIffPowerOfTwo(count);
    if Steady(rr, count) {
      forall u: Flags ensures Finds(rr, count, u) { SteadyScanIsComplete(rr, count, u); }
    } else {
      var u := WrappingScanMisses(rr, count);
      assert !Finds(rr, count, u);
    }
  }

  /** An entry that claimed more backends than the 32 it has room for would be scanned incompletely from index 1 on. */
  lemma MoreThan32IsTooMany(count: nat) returns (u: Flags)
    requires count > 32
    ensures AnyUsable(count, u) && Scan(1, count, u).None?
  {
    u := seq(MAX_BACKENDS, k => k == 0);
    assert u[0] && AnyUsable(count, u);
    forall i: nat | i < 32 ensures !Hit(1, i, count, u) { ModIs(1 + i, count); }
    ScanFromIs(1, count, u, 0, 32);
  }

  lemma DividesIffPowerOfTwo(count: nat)
    requires 0 < count <= MAX_BACKENDS
    ensures Mod(TWO32, count) == 0 <==> count in {1, 2, 4, 8, 16, 32}
  {
    ModIs(TWO32, count);
    RemaindersOfTwo32(count);
  }

  lemma RemaindersOfTwo32(count: nat)
    requires 0 < count <= MAX_BACKENDS
    ensures TWO32 % count == 0 <==> count in {1, 2, 4, 8, 16, 32}
  {}

  /** With only the slot it misses usable, a wrapping scan finds nothing. */
  lemma WrappingScanMisses(rr: nat, count: nat) returns (u: Flags)
    requires 0 < count <= MAX_BACKENDS && rr < TWO32 && !Steady(rr, count)
    ensures AnyUsable(count, u) && Scan(rr, count, u).None?
  {
    assert count != 1;
    MissedIsMissed(rr, count, 0);
    var s := Missed(rr, count);
    u := seq(MAX_BACKENDS, k => k == s);
    assert u[s] && AnyUsable(count, u);
    forall i: nat | i < count ensures !Hit(rr, i, count, u) { MissedIsMissed(rr, count, i); }
    ScanFromIs(rr, count, u, 0, count);
  }

  // ------------------------------------------------------------ fairness

  /** Slots read cyclically: a window starts at some slot and runs on past the last one. */
  function Turn(v: nat, count: nat): nat
    requires v < 2 * count
  {
    if v < count then v else v - count
  }

  predicate On(u: Flags, count: nat, v: nat)
    requires count <= MAX_BACKENDS && v < 2 * count
  {
    u[Turn(v, count)]
  }

  /** How many usable positions lie in [lo, hi). */
  function Count(u: Flags, count: nat, lo: nat, hi: nat): nat
    requires count <= MAX_BACKENDS && lo <= hi <= 2 * count
    decreases hi - lo
  {
    if lo == hi then 0 else (if On(u, count, lo) then 1 else 0) + Count(u, count, lo + 1, hi)
  }

  lemma {:induction false} CountSplit(u: Flags, count: nat, lo: nat, mid: nat, hi: nat)
    requires count <= MAX_BACKENDS && lo <= mid <= hi <= 2 * count
    ensures Count(u, count, lo, hi) == Count(u, count, lo, mid) + Count(u, count, mid, hi)
    decreases mid - lo
  {
    if lo < mid { CountSplit(u, count, lo + 1, mid, hi); }
  }

  lemma {:induction false} CountTurn(u: Flags, count: nat, lo: nat, hi: nat)
    requires count <= MAX_BACKENDS && lo <= hi <= count
    ensures Count(u, count, lo + count, hi + count) == Count(u, count, lo, hi)
    decreases hi - lo
  {
    if lo < hi { CountTurn(u, count, lo + 1, hi); }
  }

  /** Every window of `count` positions holds each slot once. */
  lemma CountWindow(u: Flags, count: nat, b: nat)
    requires b < count <= MAX_BACKENDS
    ensures Count(u, count, b, b + count) == Count(u, count, 0, count)
  {
    CountSplit(u, count, b, count, b + count);
    CountSplit(u, count, 0, b, count);
    CountTurn(u, count, 0, b);
  }

  lemma {:induction false} CountPositive(u: Flags, count: nat, lo: nat, hi: nat, y: nat)
    requires count <= MAX_BACKENDS && lo <= y < hi <= 2 * count && On(u, count, y)
    ensures Count(u, count, lo, hi) > 0
    decreases hi - lo
  {
    if lo < y { CountPositive(u, count, lo + 1, hi, y); }
  }

  predicate NoneOn(u: Flags, count: nat, lo: nat, hi: nat)
    requires count <= MAX_BACKENDS && hi <= 2 * count
  {
    forall y: nat :: lo <= y < hi ==> !On(u, count, y)
  }

  /** The first usable position from v on, below `end`. */
  lemma {:induction false} FindNext(u: Flags, count: nat, v: nat, end: nat) returns (x: nat)
    requires count <= MAX_BACKENDS && v <= end <= 2 * count && Count(u, count, v, end) > 0
    ensures v <= x < end && On(u, count, x) && NoneOn(u, count, v, x)
    ensures Count(u, count, x + 1, end) == Count(u, count, v, end) - 1
    decreases end - v
  {
    if On(u, count, v) { x := v; } else { x := FindNext(u, count, v + 1, end); }
  }

  /** What one connect does to the stored index: the slot picked and the next index, unless it is refused. */
  type Stepper = nat -> Option<(nat, nat)>

  function Connect(count: nat, u: Flags): Stepper
    requires count > 0
  {
    (rr: nat) =>
      var r := Scan(rr, count, u);
      if r.Some? then Some((Slot(rr, r.value, count), Wrap(rr + r.value + 1))) else None
  }

  /** The slots of n connects in a row, the entry otherwise unchanged; it ends early if one is refused. */
  function Picks(step: Stepper, rr: nat, n: nat): seq<nat>
    decreases n
  {
    if n == 0 || step(rr).None? then [] else [step(rr).value.0] + Picks(step, step(rr).value.1, n - 1)
  }

  /** The stored index stands for position v of a window whose probes up to `end` go round without a jump. */
  predicate Synced(rr: nat, v: nat, end: nat, count: nat)
    requires 0 < count && v <= end < 2 * count
  {
    rr < TWO32 && (v < end ==> Mod(rr, count) == Turn(v, count) && (rr + (end - v) <= TWO32 || Mod(TWO32, count) == 0))
  }

  lemma SlotFollows(rr: nat, v: nat, end: nat, count: nat, j: nat)
    requires 0 < count <= MAX_BACKENDS && v + j < end < 2 * count && end <= v + count && Synced(rr, v, end, count)
    ensures Slot(rr, j, count) == Turn(v + j, count)
  {
    SteadySlot(rr, j, count);
    ModAdd(rr, j, count);
  }

  lemma SyncedAfter(rr: nat, v: nat, end: nat, count: nat, x: nat)
    requires 0 < count <= MAX_BACKENDS && v <= x < end < 2 * count && end <= v + count && Synced(rr, v, end, count)
    ensures Synced(Wrap(rr + (x - v) + 1), x + 1, end, count)
  {
    if x + 1 < end {
      SlotFollows(rr, v, end, count, x + 1 - v);
    }
  }

  lemma NothingBefore(rr: nat, v: nat, end: nat, count: nat, u: Flags, x: nat)
    requires 0 < count <= MAX_BACKENDS && v <= x < end < 2 * count && end <= v + count && Synced(rr, v, end, count)
    requires NoneOn(u, count, v, x)
    ensures NoHitBelow(rr, count, u, x - v)
  {
    forall j: nat | j < x - v ensures !Hit(rr, j, count, u) {
      SlotFollows(rr, v, end, count, j);
      assert !On(u, count, v + j);
    }
  }

  lemma HitHere(rr: nat, v: nat, end: nat, count: nat, u: Flags, x: nat)
    requires 0 < count <= MAX_BACKENDS && v <= x < end < 2 * count && end <= v + count && Synced(rr, v, end, count)
    requires On(u, count, x)
    ensures Hit(rr, x - v, count, u) && Slot(rr, x - v, count) == Turn(x, count)
  {
    SlotFollows(rr, v, end, count, x - v);
  }

  /** Position x is the next usable one for an index that stands for v. */
  predicate Ready(rr: nat, v: nat, end: nat, count: nat, u: Flags, x: nat) {
    && 0 < count <= MAX_BACKENDS && v <= x < end < 2 * count && end <= v + count
    && Synced(rr, v, end, count) && On(u, count, x) && NoneOn(u, count, v, x)
  }

  /** A connect picks x and leaves the index at the position after it. */
  predicate Advances(step: Stepper, rr: nat, v: nat, end: nat, count: nat, x: nat)
    requires 0 < count && v <= x < end < 2 * count
  {
    var next := Wrap(rr + (x - v) + 1);
    step(rr) == Some((Turn(x, count), next)) && Synced(next, x + 1, end, count)
  }

  ghost predicate GoesRound(step: Stepper, count: nat, u: Flags) {
    forall rr: nat, v: nat, end: nat, x: nat :: Ready(rr, v, end, count, u, x) ==> Advances(step, rr, v, end, count, x)
  }

  /** A step takes the first hit of its scan and leaves the index after it. */
  ghost predicate TakesFirst(step: Stepper, count: nat, u: Flags) {
    forall rr: nat, i: nat :: TakesFirstAt(step, count, u, rr, i)
  }

  predicate TakesFirstAt(step: Stepper, count: nat, u: Flags, rr: nat, i: nat) {
    i < count <= MAX_BACKENDS && Hit(rr, i, count, u) && NoHitBelow(rr, count, u, i)
    ==> step(rr) == Some((Slot(rr, i, count), Wrap(rr + i + 1)))
  }

  lemma ConnectTakesFirst(count: nat, u: Flags)
    requires count > 0
    ensures TakesFirst(Connect(count, u), count, u)
  {
    forall rr: nat, i: nat ensures TakesFirstAt(Connect(count, u), count, u, rr, i) {
      if i < count <= MAX_BACKENDS && Hit(rr, i, count, u) && NoHitBelow(rr, count, u, i) {
        StepFinds(rr, count, u, i);
      }
    }
  }

  lemma StepAdvances(step: Stepper, count: nat, u: Flags, rr: nat, v: nat, end: nat, x: nat)
    requires TakesFirst(step, count, u) && Ready(rr, v, end, count, u, x)
    ensures Advances(step, rr, v, end, count, x)
  {
    SyncedAfter(rr, v, end, count, x);
    NothingBefore(rr, v, end, count, u, x);
    HitHere(rr, v, end, count, u, x);
    assert TakesFirstAt(step, count, u, rr, x - v);
  }

  lemma ConnectIs(count: nat, u: Flags, rr: nat, i: nat)
    requires count > 0 && Scan(rr, count, u) == Some(i)
    ensures Connect(count, u)(rr) == Some((Slot(rr, i, count), Wrap(rr + i + 1)))
  {}

  lemma ConnectGoesRound(count: nat, u: Flags)
    requires count > 0
    ensures GoesRound(Connect(count, u), count, u)
  {
    ConnectTakesFirst(count, u);
    StepGoesRound(Connect(count, u), count, u);
  }

  lemma StepGoesRound(step: Stepper, count: nat, u: Flags)
    requires TakesFirst(step, count, u)
    ensures GoesRound(step, count, u)
  {
    forall rr: nat, v: nat, end: nat, x: nat | Ready(rr, v, end, count, u, x)
      ensures Advances(step, rr, v, end, count, x)
    {
      StepAdvances(step, count, u, rr, v, end, x);
    }
  }

  /** The picks of a window are the slots of its usable positions, in the order of the window. */
  predicate Sweeps(u: Flags, count: nat, p: seq<nat>, v: nat, end: nat)
    requires count <= MAX_BACKENDS && v <= end < 2 * count && end <= v + count
    decreases |p|
  {
    if p == [] then NoneOn(u, count, v, end)
    else exists x: nat ::
      && v <= x < end && On(u, count, x) && NoneOn(u, count, v, x)
      && p[0] == Turn(x, count) && Sweeps(u, count, p[1..], x + 1, end)
  }

  lemma SweepCons(u: Flags, count: nat, p: seq<nat>, v: nat, end: nat, x: nat)
    requires count <= MAX_BACKENDS && v <= x < end < 2 * count && end <= v + count
    requires On(u, count, x) && NoneOn(u, count, v, x) && Sweeps(u, count, p, x + 1, end)
    ensures Sweeps(u, count, [Turn(x, count)] + p, v, end)
  {
    assert ([Turn(x, count)] + p)[1..] == p;
  }

  lemma {:induction false} PicksSweep(step: Stepper, rr: nat, v: nat, end: nat, count: nat, u: Flags, n: nat)
    requires 0 < count <= MAX_BACKENDS && v <= end < 2 * count && end <= v + count && Synced(rr, v, end, count)
    requires GoesRound(step, count, u) && n == Count(u, count, v, end)
    ensures |Picks(step, rr, n)| == n && Sweeps(u, count, Picks(step, rr, n), v, end)
    decreases end - v
  {
    if n == 0 {
      forall y: nat | v <= y < end ensures !On(u, count, y) {
        if On(u, count, y) { CountPositive(u, count, v, end, y); }
      }
    } else {
      var x := FindNext(u, count, v, end);
      assert Ready(rr, v, end, count, u, x);
      var next := step(rr).value.1;
      PicksSweep(step, next, x + 1, end, count, u, n - 1);
      SweepCons(u, count, Picks(step, next, n - 1), v, end, x);
    }
  }

  predicate Distinct(p: seq<nat>) {
    forall i, j :: 0 <= i < j < |p| ==> p[i] != p[j]
  }

  /** Each pick is the next usable slot, cyclically, after the one before it. */
  predicate InOrder(u: Flags, count: nat, p: seq<nat>)
    requires count <= MAX_BACKENDS
  {
    forall j :: 0 < j < |p| ==> NoneBetween(u, count, p[j - 1], p[j])
  }

  predicate NoneBetween(u: Flags, count: nat, s: nat, t: nat)
    requires count <= MAX_BACKENDS
  {
    s < count && t < count
    && forall r: nat :: r < count && r != s && Distance(s, r, count) < Distance(s, t, count) ==> !u[r]
  }

  /** Every usable slot of the window is in the sweep, and nothing else is. */
  lemma {:induction false} SweepCovers(u: Flags, count: nat, p: seq<nat>, v: nat, end: nat)
    requires count <= MAX_BACKENDS && v <= end < 2 * count && end <= v + count && Sweeps(u, count, p, v, end)
    ensures forall y: nat :: v <= y < end && On(u, count, y) ==> Turn(y, count) in p
    ensures forall s :: s in p ==> exists y: nat :: v <= y < end && On(u, count, y) && Turn(y, count) == s
    decreases |p|
  {
    if p != [] {
      var x: nat :| v <= x < end && On(u, count, x) && NoneOn(u, count, v, x)
        && p[0] == Turn(x, count) && Sweeps(u, count, p[1..], x + 1, end);
      SweepCovers(u, count, p[1..], x + 1, end);
      forall s | s in p ensures exists y: nat :: v <= y < end && On(u, count, y) && Turn(y, count) == s {
        if s != p[0] { assert s in p[1..]; }
      }
    }
  }

  lemma {:induction false} SweepIsDistinct(u: Flags, count: nat, p: seq<nat>, v: nat, end: nat)
    requires count <= MAX_BACKENDS && v <= end < 2 * count && end <= v + count && Sweeps(u, count, p, v, end)
    ensures Distinct(p)
    decreases |p|
  {
    if p != [] {
      var x: nat :| v <= x < end && On(u, count, x) && NoneOn(u, count, v, x)
        && p[0] == Turn(x, count) && Sweeps(u, count, p[1..], x + 1, end);
      SweepIsDistinct(u, count, p[1..], x + 1, end);
      SweepCovers(u, count, p[1..], x + 1, end);
      assert p[0] !in p[1..];
    }
  }

  lemma {:induction false} SweepIsInOrder(u: Flags, count: nat, p: seq<nat>, v: nat, end: nat)
    requires count <= MAX_BACKENDS && v <= end < 2 * count && end <= v + count && Sweeps(u, count, p, v, end)
    ensures InOrder(u, count, p)
    decreases |p|
  {
    if p != [] {
      var x: nat :| v <= x < end && On(u, count, x) && NoneOn(u, count, v, x)
        && p[0] == Turn(x, count) && Sweeps(u, count, p[1..], x + 1, end);
      SweepIsInOrder(u, count, p[1..], x + 1, end);
      if |p| > 1 {
        var y: nat :| x + 1 <= y < end && On(u, count, y) && NoneOn(u, count, x + 1, y)
          && p[1..][0] == Turn(y, count) && Sweeps(u, count, p[1..][1..], y + 1, end);
        NextIsNearest(u, count, x, y);
      }
    }
  }

  lemma NextIsNearest(u: Flags, count: nat, x: nat, y: nat)
    requires count <= MAX_BACKENDS && x < y < x + count && y < 2 * count && NoneOn(u, count, x + 1, y)
    ensures NoneBetween(u, count, Turn(x, count), Turn(y, count))
  {
    var s := Turn(x, count);
    forall r: nat | r < count && r != s && Distance(s, r, count) < Distance(s, Turn(y, count), count) ensures !u[r] {
      assert !On(u, count, x + Distance(s, r, count));
    }
  }

  /** With k usable slots, k connects in a row pick each usable slot exactly once, in cyclic order. */
  ghost predicate Fair(rr: nat, count: nat, u: Flags)
    requires 0 < count <= MAX_BACKENDS
  {
    var k := Count(u, count, 0, count);
    var p := Picks(Connect(count, u), rr, k);
    && |p| == k && Distinct(p) && InOrder(u, count, p)
    && (forall s :: s in p <==> 0 <= s < count && u[s])
  }

  lemma Fairness(rr: nat, count: nat, u: Flags)
    requires 0 < count <= MAX_BACKENDS && rr < TWO32 && Steady(rr, count)
    ensures Fair(rr, count, u)
  {
    var b, k := Mod(rr, count), Count(u, count, 0, count);
    var end := b + count;
    CountWindow(u, count, b);
    ConnectGoesRound(count, u);
    PicksSweep(Connect(count, u), rr, b, end, count, u, k);
    SweepIsFair(u, count, Picks(Connect(count, u), rr, k), b);
  }

  /**
   Connects are fair for every pattern of usable slots exactly when the index does
   not wrap within a scan or the count is a power of two.
   */
  lemma FairIffSteady(rr: nat, count: nat)
    requires 0 < count <= 32 && rr < TWO32
    ensures (forall u: Flags :: Fair(rr, count, u)) <==> Steady(rr, count)
  {
    if Steady(rr, count) {
      forall u: Flags ensures Fair(rr, count, u) { Fairness(rr, count, u); }
    } else {
      var u := WrappingScanMisses(rr, count);
      NoPickIsUnfair(rr, count, u);
    }
  }

  lemma NoPickIsUnfair(rr: nat, count: nat, u: Flags)
    requires 0 < count <= MAX_BACKENDS && AnyUsable(count, u) && Scan(rr, count, u).None?
    ensures !Fair(rr, count, u)
  {
    assert Connect(count, u)(rr).None?;
    var s: nat :| s < count && s < MAX_BACKENDS && u[s];
    assert s !in Picks(Connect(count, u), rr, Count(u, count, 0, count));
  }

  /** A sweep over one whole turn takes every usable slot once, in cyclic order. */
  lemma SweepIsFair(u: Flags, count: nat, p: seq<nat>, b: nat)
    requires 0 < count <= MAX_BACKENDS && b < count && Sweeps(u, count, p, b, b + count)
    ensures Distinct(p) && InOrder(u, count, p) && forall s :: s in p <==> 0 <= s < count && u[s]
  {
    SweepCovers(u, count, p, b, b + count);
    SweepIsDistinct(u, count, p, b, b + count);
    SweepIsInOrder(u, count, p, b, b + count);
    forall s: nat | s < count && u[s] ensures s in p {
      var y := if s >= b then s else s + count;
      assert On(u, count, y) && Turn(y, count) == s;
    }
  }
}
