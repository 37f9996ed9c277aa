/**
 The failover controller: it keeps one of two apps running and owned, and moves
 to the other when the active one stays down.
 */
module Failover {
  import opened Common

  datatype Pair<T> = Pair(first: T, second: T) {
    function At(i: nat): T {
      if i == 0 then first else second
    }

    function With(i: nat, x: T): Pair<T> {
      if i == 0 then Pair(x, second) else Pair(first, x)
    }
  }

  /** An app in the cluster's desired state. */
  datatype Slot = Absent | Present(owner: Option<string>)

  datatype Settings = Settings(name: string, threshold: nat)

  datatype View = View(present: bool, owner: Option<string>, running: nat)

  datatype Decision = Write(active: nat) | Wait | Blocked

  function ViewOf(slot: Slot, running: nat): View {
    View(slot.Present?, if slot.Present? then slot.owner else None, running)
  }

  function Views(slots: Pair<Slot>, running: Pair<nat>): Pair<View> {
    Pair(ViewOf(slots.first, running.first), ViewOf(slots.second, running.second))
  }

  predicate Foreign(v: View, settings: Settings) {
    v.owner.Some? && v.owner.value != settings.name
  }

  /** What to do, from the two views and how many checks in a row an existing app had no running instance. */
  function Decide(v: Pair<View>, misses: nat, settings: Settings): Decision {
    if Foreign(v.first, settings) || Foreign(v.second, settings) then Blocked
    else if !v.first.present && !v.second.present then Write(0)
    else if v.first.present && v.second.present then
      Write(if v.first.running == 0 && v.second.running > 0 then 1 else 0)
    else
      var current := if v.first.present then 0 else 1;
      if v.At(current).owner.None? then Write(current)
      else if v.At(current).running > 0 then Wait
      else if misses < settings.threshold then Wait
      else Write(1 - current)
  }

  /** Which call of a check fails, and whether it took effect all the same. */
  datatype Fate = ReadFails | ApplyFails(took: bool) | DeleteFails(took: bool) | NoneFails

  datatype Call = Read | Apply | Delete

  datatype State = State(slots: Pair<Slot>, misses: nat)

  /** The 32-bit count of checks in a row that found an existing app down. */
  function Counted(v: Pair<View>, misses: nat): nat {
    if (v.first.present && v.first.running == 0) || (v.second.present && v.second.running == 0)
    then if misses + 1 == TWO32 then 0 else misses + 1
    else 0
  }

  function Mine(settings: Settings): Slot {
    Present(Some(settings.name))
  }

  /** One check. */
  function Check(s: State, settings: Settings, running: Pair<nat>, fate: Fate): (State, Result<Decision, Call>) {
    if fate.ReadFails? then (s, Err(Read))
    else
      var v := Views(s.slots, running);
      var misses := Counted(v, s.misses);
      match Decide(v, misses, settings)
      case Wait => (State(s.slots, misses), Ok(Wait))
      case Blocked => (State(s.slots, misses), Ok(Blocked))
      case Write(active) =>
        var applied := s.slots.With(active, Mine(settings));
        if fate.ApplyFails? then (State(if fate.took then applied else s.slots, misses), Err(Apply))
        else
          var standby := v.At(1 - active);
          if standby.present && standby.owner == Some(settings.name) then
            var deleted := applied.With(1 - active, Absent);
            if fate.DeleteFails? then (State(if fate.took then deleted else applied, misses), Err(Delete))
            else (State(deleted, 0), Ok(Write(active)))
          else (State(applied, 0), Ok(Write(active)))
  }

  // ------------------------------------------------------------ the controller and the calls it makes

  /** The cluster behind its API. A call that fails may have taken effect. */
  class Api {
    var slots: Pair<Slot>

    constructor ()
      ensures slots == Pair(Absent, Absent)
    {
      slots := Pair(Absent, Absent);
    }

    method GetViews(running: Pair<nat>, fails: bool) returns (r: Result<Pair<View>, Call>)
      ensures r == if fails then Err(Read) else Ok(Views(slots, running))
    {
      r := if fails then Err(Read)
        else Ok(Pair(ViewOf(slots.first, running.first), ViewOf(slots.second, running.second)));
    }

    method ApplyManifest(active: nat, settings: Settings, fails: bool, took: bool) returns (ok: bool)
      modifies this
      ensures ok == !fails
      ensures slots == if ok || took then old(slots).With(active, Mine(settings)) else old(slots)
    {
      if !fails || took { slots := slots.With(active, Present(Some(settings.name))); }
      ok := !fails;
    }

    method DeleteApp(i: nat, fails: bool, took: bool) returns (ok: bool)
      modifies this
      ensures ok == !fails
      ensures slots == if ok || took then old(slots).With(i, Absent) else old(slots)
    {
      if !fails || took { slots := slots.With(i, Absent); }
      ok := !fails;
    }
  }

  class Controller {
    var misses: nat

    constructor ()
      ensures misses == 0
    {
      misses := 0;
    }

    method Reconcile(api: Api, settings: Settings, running: Pair<nat>, fate: Fate) returns (r: Result<Decision, Call>)
      modifies this, api
      ensures (State(api.slots, misses), r) == Check(old(State(api.slots, misses)), settings, running, fate)
    {
      var read := api.GetViews(running, fate.ReadFails?);
      if read.Err? { return Err(Read); }
      var v := read.value;
      var down := (v.first.present && v.first.running == 0) || (v.second.present && v.second.running == 0);
      misses := if !down || misses + 1 == TWO32 then 0 else misses + 1;
      var decision := Decide(v, misses, settings);
      if decision.Write? {
        var active := decision.active;
        var applied := api.ApplyManifest(active, settings, fate.ApplyFails?, fate.ApplyFails? && fate.took);
        if !applied { return Err(Apply); }
        var standby := v.At(1 - active);
        if standby.present && standby.owner == Some(settings.name) {
          var deleted := api.DeleteApp(1 - active, fate.DeleteFails?, fate.DeleteFails? && fate.took);
          if !deleted { return Err(Delete); }
        }
        misses := 0;
      }
      r := Ok(decision);
    }
  }

  // ------------------------------------------------------------ runs

  /** What the cluster runs at one check, and which of the check's calls fails. */
  datatype Event = Event(running: Pair<nat>, fate: Fate)

  /** The state before check k, from an empty cluster. */
  function StateAt(settings: Settings, es: seq<Event>, k: nat): State
    requires k <= |es|
  {
    if k == 0 then State(Pair(Absent, Absent), 0)
    else Check(StateAt(settings, es, k - 1), settings, es[k - 1].running, es[k - 1].fate).0
  }

  function ResultAt(settings: Settings, es: seq<Event>, k: nat): Result<Decision, Call>
    requires k < |es|
  {
    Check(StateAt(settings, es, k), settings, es[k].running, es[k].fate).1
  }

  predicate Owned(slots: Pair<Slot>, settings: Settings) {
    && (slots.first.Present? ==> slots.first == Mine(settings))
    && (slots.second.Present? ==> slots.second == Mine(settings))
  }

  predicate AnyOf(slots: Pair<Slot>) {
    slots.first.Present? || slots.second.Present?
  }

  /** App c is there and the other is not. */
  predicate Sole(slots: Pair<Slot>, c: nat) {
    c <= 1 && slots.At(c).Present? && slots.At(1 - c).Absent?
  }

  lemma CheckKeeps(s: State, settings: Settings, running: Pair<nat>, fate: Fate)
    requires Owned(s.slots, settings)
    ensures var (s', r) := Check(s, settings, running, fate);
      && Owned(s'.slots, settings)
      && (AnyOf(s.slots) ==> AnyOf(s'.slots))
      && (r.Ok? && r.value.Write? ==> Sole(s'.slots, r.value.active))
      && (r.Ok? ==> !r.value.Blocked?)
  {}

  /** Whatever fails, every app of the pair belongs to the controller. */
  lemma {:induction false} EveryAppIsOwned(settings: Settings, es: seq<Event>, k: nat)
    requires k <= |es|
    ensures Owned(StateAt(settings, es, k).slots, settings)
  {
    if k > 0 {
      EveryAppIsOwned(settings, es, k - 1);
      CheckKeeps(StateAt(settings, es, k - 1), settings, es[k - 1].running, es[k - 1].fate);
    }
  }

  /** Whatever fails, once one app exists one always does. */
  lemma {:induction false} OnceOneAlwaysOne(settings: Settings, es: seq<Event>, i: nat, k: nat)
    requires i <= k <= |es| && AnyOf(StateAt(settings, es, i).slots)
    ensures AnyOf(StateAt(settings, es, k).slots)
    decreases k
  {
    if i < k {
      OnceOneAlwaysOne(settings, es, i, k - 1);
      EveryAppIsOwned(settings, es, k - 1);
      CheckKeeps(StateAt(settings, es, k - 1), settings, es[k - 1].running, es[k - 1].fate);
    }
  }

  /** Whatever failed before, a write that completes leaves exactly the app it chose. */
  lemma WriteLeavesExactlyOne(settings: Settings, es: seq<Event>, k: nat)
    requires k < |es| && ResultAt(settings, es, k).Ok? && ResultAt(settings, es, k).value.Write?
    ensures Sole(StateAt(settings, es, k + 1).slots, ResultAt(settings, es, k).value.active)
  {
    EveryAppIsOwned(settings, es, k);
    CheckKeeps(StateAt(settings, es, k), settings, es[k].running, es[k].fate);
  }

  /** A completed write never trades an app that runs for one that does not. */
  lemma NeverTradesARunningApp(settings: Settings, es: seq<Event>, k: nat)
    requires k < |es| && ResultAt(settings, es, k).Ok? && ResultAt(settings, es, k).value.Write?
    ensures var slots, running := StateAt(settings, es, k).slots, es[k].running;
      var active := ResultAt(settings, es, k).value.active;
      && (slots.At(1 - active).Present? && running.At(1 - active) > 0
          ==> slots.At(active).Present? && running.At(active) > 0)
  {}

  /** In any cluster, an app someone else owns stops the controller from touching either. */
  lemma ForeignAppsAreLeftAlone(s: State, settings: Settings, running: Pair<nat>, fate: Fate)
    requires exists i: nat, owner: string :: i <= 1 && s.slots.At(i) == Present(Some(owner)) && owner != settings.name
    ensures Check(s, settings, running, fate).0.slots == s.slots
    ensures !fate.ReadFails? ==> Check(s, settings, running, fate).1 == Ok(Blocked)
  {
    var i: nat, owner: string :| i <= 1 && s.slots.At(i) == Present(Some(owner)) && owner != settings.name;
    assert Foreign(Views(s.slots, running).At(i), settings);
  }

  /** In any cluster without a foreign app, what a check in which nothing fails leaves: an empty pair gets the
      first app; of two apps the first is claimed unless only the second runs, and the other goes if it was the
      controller's; a sole app nobody owns is claimed, running or not; a sole app of the controller's is kept
      while it runs or its misses are below the threshold, and traded for the other one otherwise. */
  lemma OneCheckLeaves(s: State, settings: Settings, running: Pair<nat>)
    requires s.misses < 0x1_0000_0000
    requires s.slots.first.Present? ==> s.slots.first.owner in {None, Some(settings.name)}
    requires s.slots.second.Present? ==> s.slots.second.owner in {None, Some(settings.name)}
    ensures var after := Check(s, settings, running, NoneFails).0;
      var mine, count := Present(Some(settings.name)), (s.misses + 1) % 0x1_0000_0000;
      match (s.slots.first, s.slots.second)
      case (Absent, Absent) => after == State(Pair(mine, Absent), 0)
      case (Present(p), Present(q)) =>
        if running.first == 0 && running.second > 0
        then after == State(Pair(if p.None? then Present(None) else Absent, mine), 0)
        else after == State(Pair(mine, if q.None? then Present(None) else Absent), 0)
      case (Present(p), Absent) =>
        if p.None? || running.first > 0 then after == State(Pair(mine, Absent), 0)
        else if count < settings.threshold then after == State(s.slots, count)
        else after == State(Pair(Absent, mine), 0)
      case (Absent, Present(q)) =>
        if q.None? || running.second > 0 then after == State(Pair(Absent, mine), 0)
        else if count < settings.threshold then after == State(s.slots, count)
        else after == State(Pair(mine, Absent), 0)
  {}

  /** An apply that fails leaves the app it was to write written or not, by whether it took effect; a delete that fails
      likewise; and a check that could not read leaves everything. */
  lemma FailedCallsLeave(s: State, settings: Settings, running: Pair<nat>, took: bool)
    requires Check(s, settings, running, NoneFails).1.Ok? && Check(s, settings, running, NoneFails).1.value.Write?
    ensures var active, mine := Check(s, settings, running, NoneFails).1.value.active, Present(Some(settings.name));
      var done := Check(s, settings, running, NoneFails).0.slots;
      && Check(s, settings, running, ReadFails).0 == s
      && Check(s, settings, running, ApplyFails(took)).0.slots == (if took then s.slots.With(active, mine) else s.slots)
      && Check(s, settings, running, DeleteFails(took)).0.slots ==
           (if took then done else s.slots.With(active, mine))
  {}

  // ------------------------------------------------------------ when it fails over

  /** Check k decides to leave the sole app c for the other one. */
  predicate FailsOver(settings: Settings, es: seq<Event>, k: nat, c: nat)
    requires k < |es|
  {
    var s, v := StateAt(settings, es, k), Views(StateAt(settings, es, k).slots, es[k].running);
    !es[k].fate.ReadFails? && Sole(s.slots, c) && Decide(v, Counted(v, s.misses), settings) == Write(1 - c)
  }

  /** Before check k the sole app is c, and the check finds it down if it gets to see anything. */
  predicate DownAt(settings: Settings, es: seq<Event>, k: nat, c: nat)
    requires k < |es|
  {
    Sole(StateAt(settings, es, k).slots, c) && (es[k].fate.ReadFails? || es[k].running.At(c) == 0)
  }

  ghost predicate Down(settings: Settings, es: seq<Event>, j: nat, i: nat, c: nat) {
    j <= i <= |es| && forall k: nat :: j <= k < i ==> DownAt(settings, es, k, c)
  }

  /** How many of the checks from j up to i saw the cluster. */
  function Seen(es: seq<Event>, j: nat, i: nat): nat
    requires j <= i <= |es|
  {
    if i == j then 0 else Seen(es, j, i - 1) + if es[i - 1].fate.ReadFails? then 0 else 1
  }

  /** The checks it takes. */
  function Needed(settings: Settings): nat {
    if settings.threshold == 0 then 1 else settings.threshold
  }

  /** `threshold` checks in a row up to i, and one at least, saw the sole app c down. */
  ghost predicate Earned(settings: Settings, es: seq<Event>, i: nat, c: nat) {
    exists j: nat :: EarnedFrom(settings, es, j, i, c)
  }

  ghost predicate EarnedFrom(settings: Settings, es: seq<Event>, j: nat, i: nat, c: nat) {
    j <= i < |es| && Down(settings, es, j, i + 1, c) && Seen(es, j, i + 1) >= Needed(settings)
  }

  /** The check keeps app c, deletes the other one, and is told that the delete failed. */
  predicate UntoldDelete(s: State, settings: Settings, running: Pair<nat>, fate: Fate, c: nat) {
    var v := Views(s.slots, running);
    && fate == DeleteFails(true) && Decide(v, Counted(v, s.misses), settings) == Write(c)
    && s.slots.At(1 - c).Present?
  }

  predicate Untold(settings: Settings, es: seq<Event>, k: nat, c: nat)
    requires k < |es|
  {
    UntoldDelete(StateAt(settings, es, k), settings, es[k].running, es[k].fate, c)
  }

  lemma CountsOnlyTheSoleApp(s: State, settings: Settings, running: Pair<nat>, fate: Fate, c: nat)
    requires Owned(s.slots, settings) && Sole(Check(s, settings, running, fate).0.slots, c)
    ensures var s' := Check(s, settings, running, fate).0;
      || s'.misses == 0 || UntoldDelete(s, settings, running, fate, c)
      || (Sole(s.slots, c) && fate.ReadFails? && s'.misses == s.misses)
      || (Sole(s.slots, c) && !fate.ReadFails? && running.At(c) == 0 && s'.misses <= s.misses + 1)
  {}

  /** The count never exceeds the checks in a row that saw the app, now alone, down, unless an untold delete began
      the stretch. */
  lemma {:induction false} MissesAreSeen(settings: Settings, es: seq<Event>, i: nat, c: nat) returns (j: nat)
    requires i <= |es| && Sole(StateAt(settings, es, i).slots, c)
    ensures j <= i && Down(settings, es, j, i, c)
    ensures StateAt(settings, es, i).misses <= Seen(es, j, i) || (j > 0 && Untold(settings, es, j - 1, c))
  {
    j := i;
    if i > 0 && StateAt(settings, es, i).misses > 0 && !Untold(settings, es, i - 1, c) {
      EveryAppIsOwned(settings, es, i - 1);
      CountsOnlyTheSoleApp(StateAt(settings, es, i - 1), settings, es[i - 1].running, es[i - 1].fate, c);
      j := MissesAreSeen(settings, es, i - 1, c);
      assert DownAt(settings, es, i - 1, c);
    }
  }

  /** Check k left app c by an untold delete, and fewer checks than it takes have seen c down since. */
  ghost predicate HastyAfter(settings: Settings, es: seq<Event>, k: nat, i: nat, c: nat) {
    && k < i < |es| && Untold(settings, es, k, c)
    && Down(settings, es, k + 1, i + 1, c) && Seen(es, k + 1, i + 1) < Needed(settings)
  }

  lemma {:induction false} SeenLater(es: seq<Event>, j: nat, k: nat, i: nat)
    requires j <= k <= i <= |es|
    ensures Seen(es, k, i) <= Seen(es, j, i)
  {
    if k < i { SeenLater(es, j, k, i - 1); }
  }

  /** After an untold delete no earlier check can count for the app it left. */
  lemma HasteIsUnearned(settings: Settings, es: seq<Event>, k: nat, i: nat, c: nat)
    requires HastyAfter(settings, es, k, i, c)
    ensures !Earned(settings, es, i, c)
  {
    forall j: nat ensures !EarnedFrom(settings, es, j, i, c) {
      assert !DownAt(settings, es, k, c);
      if k < j <= i { SeenLater(es, k + 1, j, i + 1); }
    }
  }

  /**
   In every run, whatever fails, a failover follows `threshold` checks in a row,
   and one at least, that saw the app down, exactly when no untold delete left
   that app fewer seen checks ago.
   */
  lemma FailoverIsEarnedIff(settings: Settings, es: seq<Event>, i: nat, c: nat)
    requires i < |es| && FailsOver(settings, es, i, c)
    ensures Earned(settings, es, i, c) <==> !exists k: nat :: HastyAfter(settings, es, k, i, c)
  {
    var j := MissesAreSeen(settings, es, i, c);
    EveryAppIsOwned(settings, es, i);
    assert DownAt(settings, es, i, c);
    if Seen(es, j, i + 1) < Needed(settings) {
      assert HastyAfter(settings, es, j - 1, i, c);
    } else {
      assert EarnedFrom(settings, es, j, i, c);
    }
    forall k: nat | HastyAfter(settings, es, k, i, c) ensures !Earned(settings, es, i, c) {
      HasteIsUnearned(settings, es, k, i, c);
    }
  }

  /** A delete that took effect but was reported as failed leaves the count, and the next app is left after one
      check. */
  lemma UntoldDeleteFailsOverEarly()
    ensures var settings := Settings("controller", 3);
      var (idle, up) := (Pair(0, 0), Pair(1, 0));
      var es := [Event(up, NoneFails), Event(idle, NoneFails), Event(idle, NoneFails),
                 Event(idle, DeleteFails(true)), Event(idle, NoneFails)];
      && Sole(StateAt(settings, es, 3).slots, 0) && Sole(StateAt(settings, es, 4).slots, 1)
      && FailsOver(settings, es, 4, 1)
  {
    var settings := Settings("controller", 3);
    var (idle, up) := (Pair(0, 0), Pair(1, 0));
    var es := [Event(up, NoneFails), Event(idle, NoneFails), Event(idle, NoneFails),
               Event(idle, DeleteFails(true)), Event(idle, NoneFails)];
    assert StateAt(settings, es, 1) == State(Pair(Mine(settings), Absent), 0);
    assert StateAt(settings, es, 2) == State(Pair(Mine(settings), Absent), 1);
    assert StateAt(settings, es, 3) == State(Pair(Mine(settings), Absent), 2);
    assert StateAt(settings, es, 4) == State(Pair(Absent, Mine(settings)), 3);
  }

  // ------------------------------------------------------------ when an untold delete can do harm

  lemma {:induction false} PrefixState(settings: Settings, es: seq<Event>, more: seq<Event>, k: nat)
    requires k <= |es|
    ensures StateAt(settings, es + more, k) == StateAt(settings, es, k)
  {
    if k > 0 { PrefixState(settings, es, more, k - 1); }
  }

  /** App c stays alone from check n up to i, whose failover is not earned. */
  ghost predicate Harms(settings: Settings, es: seq<Event>, n: nat, i: nat, c: nat) {
    && n <= i < |es| && (forall k: nat :: n <= k <= i ==> Sole(StateAt(settings, es, k).slots, c))
    && FailsOver(settings, es, i, c) && !Earned(settings, es, i, c)
  }

  /** A count that starts at zero, or at the last value before it wraps, does not run ahead of the checks seen. */
  lemma {:induction false} MissesFrom(settings: Settings, es: seq<Event>, n: nat, i: nat, c: nat) returns (j: nat)
    requires n <= i <= |es| && forall k: nat :: n <= k <= i ==> Sole(StateAt(settings, es, k).slots, c)
    requires StateAt(settings, es, n).misses == 0 || StateAt(settings, es, n).misses + 1 == TWO32
    ensures n <= j <= i && Down(settings, es, j, i, c)
    ensures StateAt(settings, es, i).misses <= Seen(es, j, i) || StateAt(settings, es, i).misses + 1 == TWO32
    decreases i
  {
    j := i;
    if i > n && StateAt(settings, es, i).misses > 0 {
      EveryAppIsOwned(settings, es, i - 1);
      CountsOnlyTheSoleApp(StateAt(settings, es, i - 1), settings, es[i - 1].running, es[i - 1].fate, c);
      j := MissesFrom(settings, es, n, i - 1, c);
      assert DownAt(settings, es, i - 1, c);
    }
  }

  lemma NoHarm(settings: Settings, es: seq<Event>, n: nat, i: nat, c: nat)
    requires n <= i < |es| && forall k: nat :: n <= k <= i ==> Sole(StateAt(settings, es, k).slots, c)
    requires FailsOver(settings, es, i, c) && settings.threshold < TWO32
    requires settings.threshold < 2 || StateAt(settings, es, n).misses == 0
      || StateAt(settings, es, n).misses + 1 == TWO32
    ensures Earned(settings, es, i, c)
  {
    EveryAppIsOwned(settings, es, i);
    assert DownAt(settings, es, i, c);
    var j := i;
    if settings.threshold >= 2 { j := MissesFrom(settings, es, n, i, c); }
    assert Seen(es, j, i + 1) == Seen(es, j, i) + 1;
    assert EarnedFrom(settings, es, j, i, c);
  }

  /** t checks in a row that find the app down and do nothing else. */
  function Idle(t: nat): seq<Event> {
    seq(t, _ => Event(Pair(0, 0), NoneFails))
  }

  lemma {:induction false} IdleCounts(settings: Settings, es: seq<Event>, t: nat, d: nat, c: nat)
    requires t <= d && Sole(StateAt(settings, es, |es|).slots, c) && settings.threshold < TWO32
    requires t > 0 ==> StateAt(settings, es, |es|).misses + t < settings.threshold
    ensures var s := StateAt(settings, es, |es|);
      StateAt(settings, es + Idle(d), |es| + t) == State(s.slots, s.misses + t)
  {
    PrefixState(settings, es, Idle(d), |es|);
    if t > 0 {
      IdleCounts(settings, es, t - 1, d, c);
      assert (es + Idle(d))[|es| + t - 1] == Event(Pair(0, 0), NoneFails);
      EveryAppIsOwned(settings, es, |es|);
    }
  }

  lemma {:induction false} SeenAtMost(es: seq<Event>, j: nat, i: nat)
    requires j <= i <= |es|
    ensures Seen(es, j, i) <= i - j
  {
    if j < i { SeenAtMost(es, j, i - 1); }
  }

  lemma IdleDownAt(settings: Settings, es: seq<Event>, t: nat, d: nat, c: nat)
    requires t < d && Sole(StateAt(settings, es, |es|).slots, c) && settings.threshold < TWO32
    requires t > 0 ==> StateAt(settings, es, |es|).misses + t < settings.threshold
    ensures DownAt(settings, es + Idle(d), |es| + t, c)
  {
    IdleCounts(settings, es, t, d, c);
  }

  lemma LeavesNow(settings: Settings, es: seq<Event>, i: nat, c: nat)
    requires i < |es| && es[i] == Event(Pair(0, 0), NoneFails) && Sole(StateAt(settings, es, i).slots, c)
    requires settings.threshold <= StateAt(settings, es, i).misses + 1 < TWO32
    ensures FailsOver(settings, es, i, c)
  {
    EveryAppIsOwned(settings, es, i);
  }

  /** The idle checks that are still needed end in a failover. */
  lemma IdleFailsOver(settings: Settings, es: seq<Event>, d: nat, c: nat)
    requires Sole(StateAt(settings, es, |es|).slots, c) && settings.threshold < TWO32 && d > 0
    requires var m := StateAt(settings, es, |es|).misses; m + 1 < TWO32 && m + d >= settings.threshold
    requires d > 1 ==> StateAt(settings, es, |es|).misses + d == settings.threshold
    ensures Down(settings, es + Idle(d), |es|, |es| + d, c)
    ensures FailsOver(settings, es + Idle(d), |es| + d - 1, c)
  {
    forall k: nat | |es| <= k < |es| + d ensures DownAt(settings, es + Idle(d), k, c) {
      IdleDownAt(settings, es, k - |es|, d, c);
    }
    IdleCounts(settings, es, d - 1, d, c);
    LeavesNow(settings, es + Idle(d), |es| + d - 1, c);
  }

  lemma HarmFollows(settings: Settings, es: seq<Event>, c: nat) returns (more: seq<Event>, i: nat)
    requires es != [] && Untold(settings, es, |es| - 1, c) && 2 <= settings.threshold < TWO32
    requires 0 < StateAt(settings, es, |es|).misses < TWO32 - 1
    ensures Harms(settings, es + more, |es|, i, c)
  {
    var n, m := |es|, StateAt(settings, es, |es|).misses;
    UntoldLeavesOne(settings, es, n - 1, c);
    var d := if m >= settings.threshold then 1 else settings.threshold - m;
    more, i := Idle(d), n + d - 1;
    IdleFailsOver(settings, es, d, c);
    PrefixState(settings, es, more, n - 1);
    HarmIs(settings, es + more, n, i, c);
  }

  lemma HarmIs(settings: Settings, es: seq<Event>, n: nat, i: nat, c: nat)
    requires 0 < n <= i < |es| && Untold(settings, es, n - 1, c) && Down(settings, es, n, i + 1, c)
    requires FailsOver(settings, es, i, c) && i + 1 - n < settings.threshold
    ensures Harms(settings, es, n, i, c)
  {
    SeenAtMost(es, n, i + 1);
    assert HastyAfter(settings, es, n - 1, i, c);
    HasteIsUnearned(settings, es, n - 1, i, c);
    forall k: nat | n <= k <= i ensures Sole(StateAt(settings, es, k).slots, c) { assert DownAt(settings, es, k, c); }
  }

  lemma UntoldLeavesOne(settings: Settings, es: seq<Event>, k: nat, c: nat)
    requires k < |es| && Untold(settings, es, k, c)
    ensures Sole(StateAt(settings, es, k + 1).slots, c)
  {
    EveryAppIsOwned(settings, es, k);
  }

  /**
   An untold delete can be followed by a failover that is not earned exactly when
   the threshold is at least two and the count it leaves behind is neither zero
   nor about to wrap: both are known when the delete is sent.
   */
  lemma UntoldDeleteHarmsIff(settings: Settings, es: seq<Event>, c: nat)
    requires es != [] && Untold(settings, es, |es| - 1, c) && settings.threshold < TWO32
    ensures (exists more: seq<Event>, i: nat :: Harms(settings, es + more, |es|, i, c)) <==>
      settings.threshold >= 2 && 0 < StateAt(settings, es, |es|).misses < TWO32 - 1
  {
    var n, m := |es|, StateAt(settings, es, |es|).misses;
    MissesBelowWrap(settings, es, n);
    if settings.threshold >= 2 && 0 < m < TWO32 - 1 {
      var more, i := HarmFollows(settings, es, c);
    } else {
      forall more: seq<Event>, i: nat ensures !Harms(settings, es + more, n, i, c) {
        PrefixState(settings, es, more, n);
        if Harms(settings, es + more, n, i, c) { NoHarm(settings, es + more, n, i, c); }
      }
    }
  }

  lemma {:induction false} MissesBelowWrap(settings: Settings, es: seq<Event>, k: nat)
    requires k <= |es|
    ensures StateAt(settings, es, k).misses < TWO32
  {
    if k > 0 { MissesBelowWrap(settings, es, k - 1); }
  }

  // ------------------------------------------------------------ runs in which nothing fails

  ghost predicate Smooth(es: seq<Event>) {
    forall k: nat :: k < |es| ==> es[k].fate.NoneFails?
  }

  predicate AtMostOne(slots: Pair<Slot>) {
    slots.first.Absent? || slots.second.Absent?
  }

  lemma SmoothCheck(s: State, settings: Settings, running: Pair<nat>)
    requires Owned(s.slots, settings) && AtMostOne(s.slots)
    ensures AtMostOne(Check(s, settings, running, NoneFails).0.slots)
    ensures Check(s, settings, running, NoneFails).0.misses < Needed(settings)
  {}

  lemma {:induction false} SmoothInvariant(settings: Settings, es: seq<Event>, k: nat)
    requires Smooth(es) && k <= |es|
    ensures AtMostOne(StateAt(settings, es, k).slots)
    ensures StateAt(settings, es, k).misses < Needed(settings)
  {
    if k > 0 {
      SmoothInvariant(settings, es, k - 1);
      EveryAppIsOwned(settings, es, k - 1);
      SmoothCheck(StateAt(settings, es, k - 1), settings, es[k - 1].running);
    }
  }

  lemma {:induction false} MissesGrow(settings: Settings, es: seq<Event>, i: nat, c: nat, n: nat)
    requires Smooth(es) && settings.threshold < TWO32 && n <= i <= |es| && Down(settings, es, i - n, i, c)
    requires Sole(StateAt(settings, es, i).slots, c)
    ensures StateAt(settings, es, i).misses >= n
  {
    if n > 0 {
      assert DownAt(settings, es, i - 1, c);
      MissesGrow(settings, es, i - 1, c, n - 1);
      SmoothInvariant(settings, es, i - 1);
      EveryAppIsOwned(settings, es, i - 1);
      MissesGrowByOne(StateAt(settings, es, i - 1), settings, es[i - 1].running, c);
    }
  }

  lemma MissesGrowByOne(s: State, settings: Settings, running: Pair<nat>, c: nat)
    requires Owned(s.slots, settings) && Sole(s.slots, c) && running.At(c) == 0
    requires s.misses < Needed(settings) && settings.threshold < TWO32
    requires Sole(Check(s, settings, running, NoneFails).0.slots, c)
    ensures Check(s, settings, running, NoneFails).0.misses == s.misses + 1
  {}

  lemma {:induction false} AllSeen(es: seq<Event>, j: nat, i: nat)
    requires Smooth(es) && j <= i <= |es|
    ensures Seen(es, j, i) == i - j
  {
    if j < i { AllSeen(es, j, i - 1); }
  }

  /** When no call fails, the controller fails over exactly when the last `threshold` checks, and one at least,
      all saw the app down. */
  lemma FailsOverIffDown(settings: Settings, es: seq<Event>, i: nat, c: nat)
    requires Smooth(es) && settings.threshold < TWO32 && i < |es|
    ensures FailsOver(settings, es, i, c) <==>
      Needed(settings) <= i + 1 && Down(settings, es, i + 1 - Needed(settings), i + 1, c)
  {
    var n := Needed(settings);
    if FailsOver(settings, es, i, c) {
      FailoverIsEarnedIff(settings, es, i, c);
      var j: nat :| EarnedFrom(settings, es, j, i, c);
      AllSeen(es, j, i + 1);
    }
    if n <= i + 1 && Down(settings, es, i + 1 - n, i + 1, c) {
      assert DownAt(settings, es, i, c);
      MissesGrow(settings, es, i, c, n - 1);
      SmoothInvariant(settings, es, i);
      EveryAppIsOwned(settings, es, i);
    }
  }
}
