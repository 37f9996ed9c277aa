/**
 The connect hook at work on a node: what one connect does to the verdict and to
 the stored index, and what follows for runs of connects, ticks and map updates.
 */
module OnionNode {
  import opened Common
  import opened EgressBits
  import opened EgressMaps
  import opened OnionSelect
  import opened EgressMerge
  import opened OnionHooks
  import opened OnionPolicy

  datatype Lease = Lease(expires: nat, enforced: nat)

  /** The view lease has run out: only backends on this node may be used. */
  predicate Lapsed(lease: Option<Lease>, now: nat) {
    lease.Some? && lease.value.enforced == 1 && now >= lease.value.expires
  }

  datatype Verdict = Deny | Pass | Rewrite(ip: nat, port: nat)

  /** A VIP's entry: the service it stands for, its backends, and the round-robin index. */
  datatype Entry = Entry(owner: Owner, count: nat, rr: nat, backends: seq<Endpoint>)
  {
    predicate Valid() {
      |backends| == MAX_BACKENDS && rr < TWO32 && count < TWO32
    }

    function Flags(localOnly: bool): Flags
      requires Valid()
    {
      UsableFlags(backends, localOnly)
    }

    /** Where a call sent to the slot goes. */
    function Target(slot: nat): Verdict {
      if slot < |backends| then Rewrite(backends[slot].ip, backends[slot].port) else Deny
    }
  }

  /** Picks a slot of an entry, and the index to store, unless there is none to pick. */
  type Picker = (Entry, bool) -> Option<(nat, nat)>

  /** The hook's own picker: the round-robin scan. */
  function RoundRobin(e: Entry, localOnly: bool): Option<(nat, nat)> {
    if e.count == 0 || !e.Valid() then None else Connect(e.count, e.Flags(localOnly))(e.rr)
  }

  /** A pick is a listed, usable slot, and the index stays a 32-bit one. */
  predicate PickIsSound(e: Entry, localOnly: bool, r: Option<(nat, nat)>) {
    e.Valid() && r.Some? ==>
      r.value.0 < e.count && r.value.0 < MAX_BACKENDS && Usable(e.backends[r.value.0], localOnly) && r.value.1 < TWO32
  }

  ghost predicate SoundPicker(pick: Picker) {
    forall e, l {:trigger PickIsSound(e, l, pick(e, l))} :: PickIsSound(e, l, pick(e, l))
  }

  lemma RoundRobinIsSound()
    ensures SoundPicker(RoundRobin)
  {
    forall e: Entry, l: bool ensures PickIsSound(e, l, RoundRobin(e, l)) {
      if e.Valid() && e.count > 0 { OnePickIsSound(e, l); }
    }
  }

  lemma OnePickIsSound(e: Entry, l: bool)
    requires e.Valid() && e.count > 0
    ensures PickIsSound(e, l, RoundRobin(e, l))
  {
    var r := Scan(e.rr, e.count, e.Flags(l));
    ScanFromSound(e.rr, e.count, e.Flags(l), 0);
    if r.Some? { ConnectIs(e.count, e.Flags(l), e.rr, r.value); }
  }

  datatype Hook = Hook(policy: Policy, entries: map<DestKey, Entry>, lease: Option<Lease>)
  {
    ghost predicate Valid() {
      WfTrie(policy.trie) && forall k :: k in entries ==> entries[k].Valid()
    }
  }

  /** One connect; `faulted` is the outcome of the fault-injection lookup. */
  datatype Call = Call(caller: Caller, ip: nat, port: nat, faulted: bool)
  {
    function Key(): DestKey {
      DestKey(ip, port)
    }
  }

  /** No fault, missing entry or isolation rule stands between the call and a VIP's backends. */
  predicate Served(h: Hook, c: Call) {
    IsVip(c.ip) && !c.faulted && c.Key() in h.entries && !IsolationDenies(h.policy, c.caller, h.entries[c.Key()].owner)
  }

  /** The node and the answer once the entry for k has been asked. */
  function ServedBy(pick: Picker, h: Hook, k: DestKey, localOnly: bool): (Hook, Verdict)
    requires k in h.entries
  {
    var e := h.entries[k];
    match pick(e, localOnly)
    case None => (h, Deny)
    case Some((slot, next)) => (h.(entries := h.entries[k := e.(rr := next)]), e.Target(slot))
  }

  /** What a hook with this picker answers, and the node afterwards. */
  function ConnectAt(pick: Picker, h: Hook, c: Call, now: nat): (r: (Hook, Verdict))
    requires WfTrie(h.policy.trie) && c.caller.cg < TWO64
    ensures r.0.policy == h.policy && r.0.lease == h.lease
  {
    if !IsVip(c.ip) then (h, if Connect4Real(h.policy, c.caller, c.ip, c.port) then Pass else Deny)
    else if !Served(h, c) then (h, Deny)
    else
      ServedBy(pick, h, c.Key(), Lapsed(h.lease, now))
  }

  class Node {
    var policy: Policy
    var backends: map<DestKey, BackendValue>
    var owners: map<DestKey, Owner>        // each VIP entry's app and namespace
    var lease: Option<Lease>

    ghost predicate Valid()
      reads this, backends.Values
    {
      && WfTrie(policy.trie)
      && (forall k :: k in backends ==> k in owners && backends[k].Valid())
      && forall j, k :: j in backends && k in backends && j != k ==> backends[j] != backends[k]
    }

    constructor (policy: Policy)
      requires WfTrie(policy.trie)
      ensures Valid() && this.policy == policy && backends == map[] && owners == map[] && lease == None
    {
      this.policy, this.backends, this.owners, this.lease := policy, map[], map[], None;
    }

    ghost function EntryAt(k: DestKey): Entry
      requires k in backends && k in owners
      reads this, backends.Values
    {
      Entry(owners[k], backends[k].count, backends[k].rrIndex, backends[k].backends)
    }

    ghost function State(): Hook
      requires Valid()
      reads this, backends.Values
    {
      Hook(policy, map k | k in backends :: EntryAt(k), lease)
    }

    /** The hook on a destination outside the VIP range. */
    method ConnectReal(c: Call) returns (v: Verdict)
      requires Valid() && c.caller.cg < TWO64 && !IsVip(c.ip)
      ensures v == if Connect4Real(policy, c.caller, c.ip, c.port) then Pass else Deny
    {
      if RealDestinationDenied(policy, c.caller, c.ip, c.port) { return Deny; }
      var allowed := Egress4Allowed(policy, c.caller, c.ip, c.port);
      if Enforced(policy, c.caller) && !allowed { return Deny; }
      return Pass;
    }

    /** The selection loop and the rewrite, on the entry found for a VIP. */
    method Serve(k: DestKey, localOnly: bool) returns (v: Verdict)
      requires Valid() && k in backends && backends[k].count > 0
      modifies (set b | b in backends.Values)`rrIndex
      ensures Valid()
      ensures (State(), v) == ServedBy(RoundRobin, old(State()), k, localOnly)
    {
      var val := backends[k];
      ghost var before := State();
      var slot := val.Select(localOnly);
      assert State().entries == before.entries[k := before.entries[k].(rr := val.rrIndex)];
      if slot.None? { return Deny; }
      return Rewrite(val.backends[slot.value].ip, val.backends[slot.value].port);
    }

    /** onion_connect: the answer, the index of the entry it used, and every other entry as it was. */
    method OnionConnect(c: Call, now: nat) returns (v: Verdict)
      requires Valid() && c.caller.cg < TWO64
      modifies (set b | b in backends.Values)`rrIndex
      ensures Valid()
      ensures (State(), v) == ConnectAt(RoundRobin, old(State()), c, now)
    {
      if IsVip(c.ip) { v := ConnectVip(c, now); } else { v := ConnectReal(c); }
    }

    method ConnectVip(c: Call, now: nat) returns (v: Verdict)
      requires Valid() && c.caller.cg < TWO64 && IsVip(c.ip)
      modifies (set b | b in backends.Values)`rrIndex
      ensures Valid()
      ensures (State(), v) == ConnectAt(RoundRobin, old(State()), c, now)
    {
      var localOnly := lease.Some? && lease.value.enforced == 1 && now >= lease.value.expires;
      if c.faulted { return Deny; }
      var k := c.Key();
      if k !in backends { return Deny; }
      if backends[k].count == 0 { return Deny; }
      if IsolationDenies(policy, c.caller, owners[k]) { return Deny; }
      v := Serve(k, localOnly);
    }
  }

  // ------------------------------------------------------------ one connect

  /** A connect outside 127.128.0.0/16 changes nothing, and passes exactly when the address's owner and the cgroup's
      programmed list do. */
  lemma RealIsPassedIff(h: Hook, c: Call, now: nat, dests: seq<Destination>)
    requires h.Valid() && c.caller.cg < TWO64 && c.ip < TWO32 && !(0x7F80_0000 <= c.ip < 0x7F81_0000)
    requires Programmed(h.policy, c.caller.cg, dests)
    ensures ConnectAt(RoundRobin, h, c, now).0 == h
    ensures ConnectAt(RoundRobin, h, c, now).1 ==
      if IsolationPasses(h.policy, c.caller, c.ip, c.port)
        && EgressPasses(h.policy, c.caller, dests, Network4(c.ip), c.port)
      then Pass else Deny
  {
    Ipv4HooksPass(h.policy, c.caller, c.ip, c.port, dests);
  }

  /** A VIP connect is accepted exactly when nothing stands in its way and the scan finds a backend. */
  lemma AcceptedIff(h: Hook, c: Call, now: nat)
    requires h.Valid() && c.caller.cg < TWO64 && IsVip(c.ip)
    ensures ConnectAt(RoundRobin, h, c, now).1.Rewrite? <==>
      && Served(h, c) && h.entries[c.Key()].count > 0
      && var e := h.entries[c.Key()]; Scan(e.rr, e.count, e.Flags(Lapsed(h.lease, now))).Some?
    ensures !ConnectAt(RoundRobin, h, c, now).1.Rewrite? ==> ConnectAt(RoundRobin, h, c, now) == (h, Deny)
  {
    RoundRobinIsSound();
    if Served(h, c) {
      var e, l := h.entries[c.Key()], Lapsed(h.lease, now);
      assert PickIsSound(e, l, RoundRobin(e, l));
    }
  }

  /** The slot is listed and healthy and, once an enforced lease has expired, on this node. */
  predicate MayServe(h: Hook, e: Entry, now: nat, s: nat) {
    && s < e.count && s < |e.backends| && e.backends[s].healthy == 1
    && (h.lease.Some? && h.lease.value.enforced == 1 && h.lease.value.expires <= now ==> e.backends[s].local == 1)
  }

  /** As long as its index does not wrap awkwardly, a VIP in 127.128.0.0/16 is served exactly to the callers its service
      admits, without a fault, while some backend may serve. */
  lemma VipIsServedIff(h: Hook, c: Call, now: nat)
    requires h.Valid() && c.caller.cg < TWO64 && 0x7F80_0000 <= c.ip < 0x7F81_0000
    requires DestKey(c.ip, c.port) in h.entries
    requires var e := h.entries[DestKey(c.ip, c.port)];
      e.count <= MAX_BACKENDS && (e.count > 0 ==> Steady(e.rr, e.count))
    ensures var e := h.entries[DestKey(c.ip, c.port)];
      ConnectAt(RoundRobin, h, c, now).1.Rewrite? <==>
        && !c.faulted && (Namespaced(h.policy, c.caller) ==> Admitted(h.policy, c.caller, e.owner))
        && exists s: nat :: MayServe(h, e, now, s)
  {
    AcceptedIff(h, c, now);
    var e, l := h.entries[DestKey(c.ip, c.port)], Lapsed(h.lease, now);
    IsolationAdmits(h.policy, c.caller, e.owner);
    if e.count > 0 {
      SteadyScanIsComplete(e.rr, e.count, e.Flags(l));
      assert forall s: nat :: s < e.count ==> (e.Flags(l)[s] <==> MayServe(h, e, now, s));
    }
  }

  /** The verdict sends the call to backend s of the VIP's entry. */
  predicate SentTo(h: Hook, c: Call, v: Verdict, s: nat) {
    && c.Key() in h.entries && s < h.entries[c.Key()].count && s < |h.entries[c.Key()].backends|
    && v == h.entries[c.Key()].Target(s)
  }

  lemma SentToUsable(pick: Picker, h: Hook, c: Call, now: nat) returns (s: nat)
    requires SoundPicker(pick) && h.Valid() && c.caller.cg < TWO64 && ConnectAt(pick, h, c, now).1.Rewrite?
    ensures SentTo(h, c, ConnectAt(pick, h, c, now).1, s)
    ensures Usable(h.entries[c.Key()].backends[s], Lapsed(h.lease, now))
  {
    var e, l := h.entries[c.Key()], Lapsed(h.lease, now);
    assert PickIsSound(e, l, pick(e, l));
    s := pick(e, l).value.0;
  }

  lemma ConnectKeepsValid(pick: Picker, h: Hook, c: Call, now: nat)
    requires SoundPicker(pick) && h.Valid() && c.caller.cg < TWO64
    ensures ConnectAt(pick, h, c, now).0.Valid()
  {
    if Served(h, c) {
      var e, l := h.entries[c.Key()], Lapsed(h.lease, now);
      assert PickIsSound(e, l, pick(e, l));
    }
  }

  // ------------------------------------------------------------ runs

  /** A connect, time passing, or the agent writing one of the maps. */
  datatype Event =
    | Connects(call: Call)
    | Tick(ns: nat)
    | SetLease(lease: Option<Lease>)
    | SetEntry(key: DestKey, entry: Entry)
    | DropEntry(key: DestKey)
    | SetPolicy(policy: Policy)

  ghost predicate WellFormed(e: Event) {
    match e
    case Connects(call) => call.caller.cg < TWO64
    case SetEntry(_, entry) => entry.Valid()
    case SetPolicy(policy) => WfTrie(policy.trie)
    case _ => true
  }

  ghost predicate AllWellFormed(events: seq<Event>) {
    forall i :: 0 <= i < |events| ==> WellFormed(events[i])
  }

  datatype Moment = Moment(hook: Hook, now: nat)

  ghost function Next(pick: Picker, m: Moment, e: Event): (r: Moment)
    requires WfTrie(m.hook.policy.trie) && WellFormed(e)
    ensures WfTrie(r.hook.policy.trie)
  {
    match e
    case Connects(call) => m.(hook := ConnectAt(pick, m.hook, call, m.now).0)
    case Tick(ns) => m.(now := m.now + ns)
    case SetLease(lease) => m.(hook := m.hook.(lease := lease))
    case SetEntry(key, entry) => m.(hook := m.hook.(entries := m.hook.entries[key := entry]))
    case DropEntry(key) => m.(hook := m.hook.(entries := m.hook.entries - {key}))
    case SetPolicy(policy) => m.(hook := m.hook.(policy := policy))
  }

  /** The node before event n. */
  ghost function MomentAt(pick: Picker, m: Moment, events: seq<Event>, n: nat): (r: Moment)
    requires WfTrie(m.hook.policy.trie) && n <= |events| && AllWellFormed(events)
    ensures WfTrie(r.hook.policy.trie)
  {
    if n == 0 then m else Next(pick, MomentAt(pick, m, events, n - 1), events[n - 1])
  }

  lemma {:induction false} PrefixMoment(pick: Picker, m: Moment, events: seq<Event>, more: seq<Event>, n: nat)
    requires WfTrie(m.hook.policy.trie) && n <= |events| && AllWellFormed(events) && AllWellFormed(events + more)
    ensures MomentAt(pick, m, events + more, n) == MomentAt(pick, m, events, n)
  {
    if n > 0 {
      PrefixMoment(pick, m, events, more, n - 1);
      assert (events + more)[n - 1] == events[n - 1];
    }
  }

  /** What one more event adds to a run, written out. */
  lemma OneMoreEvent(pick: Picker, m: Moment, events: seq<Event>, e: Event)
    requires WfTrie(m.hook.policy.trie) && AllWellFormed(events) && WellFormed(e)
    ensures AllWellFormed(events + [e])
    ensures var at, after := MomentAt(pick, m, events, |events|), MomentAt(pick, m, events + [e], |events| + 1);
      match e
      case Connects(call) => after == Moment(ConnectAt(pick, at.hook, call, at.now).0, at.now)
      case Tick(ns) => after == Moment(at.hook, at.now + ns)
      case SetLease(lease) => after == Moment(Hook(at.hook.policy, at.hook.entries, lease), at.now)
      case SetEntry(key, entry) =>
        after == Moment(Hook(at.hook.policy, at.hook.entries[key := entry], at.hook.lease), at.now)
      case DropEntry(key) => after == Moment(Hook(at.hook.policy, at.hook.entries - {key}, at.hook.lease), at.now)
      case SetPolicy(policy) => after == Moment(Hook(policy, at.hook.entries, at.hook.lease), at.now)
  {
    forall i | 0 <= i <= |events| ensures WellFormed((events + [e])[i]) {}
    PrefixMoment(pick, m, events, [e], |events|);
  }

  lemma {:induction false} EntriesStayValid(pick: Picker, m: Moment, events: seq<Event>, n: nat)
    requires SoundPicker(pick) && m.hook.Valid() && n <= |events| && AllWellFormed(events)
    ensures MomentAt(pick, m, events, n).hook.Valid()
  {
    if n > 0 {
      EntriesStayValid(pick, m, events, n - 1);
      var at := MomentAt(pick, m, events, n - 1);
      if events[n - 1].Connects? { ConnectKeepsValid(pick, at.hook, events[n - 1].call, at.now); }
    }
  }

  ghost predicate NoRenewal(events: seq<Event>, n: nat) {
    n <= |events| && forall i :: 0 <= i < n ==> !events[i].SetLease?
  }

  /** Without a renewal a lapsed lease stays lapsed, whatever else happens. */
  lemma {:induction false} LapsedUntilRenewed(pick: Picker, m: Moment, events: seq<Event>, n: nat)
    requires m.hook.Valid() && AllWellFormed(events)
    requires Lapsed(m.hook.lease, m.now) && NoRenewal(events, n)
    ensures Lapsed(MomentAt(pick, m, events, n).hook.lease, MomentAt(pick, m, events, n).now)
  {
    if n > 0 { LapsedUntilRenewed(pick, m, events, n - 1); }
  }

  /** Event n is a connect that the hook rewrites. */
  ghost predicate Rewritten(pick: Picker, m: Moment, events: seq<Event>, n: nat)
    requires m.hook.Valid() && n < |events| && AllWellFormed(events)
  {
    && events[n].Connects? && WellFormed(events[n])
    && var at := MomentAt(pick, m, events, n); ConnectAt(pick, at.hook, events[n].call, at.now).1.Rewrite?
  }

  lemma {:induction false} LapsedSendsLocally(pick: Picker, m: Moment, events: seq<Event>, n: nat) returns (s: nat)
    requires SoundPicker(pick) && m.hook.Valid() && n < |events| && AllWellFormed(events)
    requires Lapsed(m.hook.lease, m.now) && NoRenewal(events, n) && Rewritten(pick, m, events, n)
    ensures var at, call := MomentAt(pick, m, events, n), events[n].call;
      && SentTo(at.hook, call, ConnectAt(pick, at.hook, call, at.now).1, s)
      && var b := at.hook.entries[call.Key()].backends[s]; b.healthy == 1 && b.local == 1
  {
    LapsedUntilRenewed(pick, m, events, n);
    EntriesStayValid(pick, m, events, n);
    var at := MomentAt(pick, m, events, n);
    s := SentToUsable(pick, at.hook, events[n].call, at.now);
  }

  /**
   Once the lease has lapsed, and until somebody renews it, every connect the hook
   rewrites goes to a listed, healthy backend on this node, whatever the agent
   writes to the other maps meanwhile.
   */
  lemma LapsedServesOnlyLocally(m: Moment, events: seq<Event>, n: nat, expires: nat) returns (s: nat)
    requires m.hook.Valid() && n < |events| && AllWellFormed(events)
    requires m.hook.lease == Some(Lease(expires, 1)) && expires <= m.now
    requires NoRenewal(events, n) && Rewritten(RoundRobin, m, events, n)
    ensures var at, call := MomentAt(RoundRobin, m, events, n), events[n].call;
      && DestKey(call.ip, call.port) in at.hook.entries
      && var e := at.hook.entries[DestKey(call.ip, call.port)];
      && s < e.count && s < |e.backends| && e.backends[s].healthy == 1 && e.backends[s].local == 1
      && ConnectAt(RoundRobin, at.hook, call, at.now).1 == Rewrite(e.backends[s].ip, e.backends[s].port)
  {
    RoundRobinIsSound();
    s := LapsedSendsLocally(RoundRobin, m, events, n);
  }

  // ------------------------------------------------------------ fairness at the hook

  /** The verdicts of connects in a row, with nothing else happening. */
  ghost function Verdicts(pick: Picker, h: Hook, calls: seq<Call>, now: nat): seq<Verdict>
    requires WfTrie(h.policy.trie) && forall c :: c in calls ==> c.caller.cg < TWO64
    decreases |calls|
  {
    if calls == [] then []
    else
      [ConnectAt(pick, h, calls[0], now).1] + Verdicts(pick, ConnectAt(pick, h, calls[0], now).0, calls[1..], now)
  }

  /** Calls to one VIP that nothing stands in the way of. */
  ghost predicate AllServed(h: Hook, calls: seq<Call>, k: DestKey) {
    k in h.entries && forall c :: c in calls ==> c.caller.cg < TWO64 && c.Key() == k && Served(h, c)
  }

  /** On this entry, whatever its index, the picker does what the stepper does. */
  ghost predicate Follows(pick: Picker, e: Entry, localOnly: bool, step: Stepper) {
    forall rr: nat {:trigger FollowsAt(pick, e, localOnly, step, rr)} :: FollowsAt(pick, e, localOnly, step, rr)
  }

  predicate FollowsAt(pick: Picker, e: Entry, localOnly: bool, step: Stepper, rr: nat) {
    rr < TWO32 ==> pick(e.(rr := rr), localOnly) == step(rr)
  }

  /** The entry serves the picks from its index, one call after another. */
  ghost predicate Sends(pick: Picker, h: Hook, calls: seq<Call>, now: nat, k: DestKey, p: seq<nat>)
    requires WfTrie(h.policy.trie) && AllServed(h, calls, k)
  {
    && |p| == |calls| == |Verdicts(pick, h, calls, now)|
    && forall i :: 0 <= i < |calls| ==> Verdicts(pick, h, calls, now)[i] == h.entries[k].Target(p[i])
  }

  lemma {:induction false} VerdictsArePicks(
      pick: Picker, h: Hook, calls: seq<Call>, now: nat, k: DestKey, step: Stepper)
    requires SoundPicker(pick) && h.Valid() && AllServed(h, calls, k)
    requires Follows(pick, h.entries[k], Lapsed(h.lease, now), step)
    requires |Picks(step, h.entries[k].rr, |calls|)| == |calls|
    ensures Sends(pick, h, calls, now, k, Picks(step, h.entries[k].rr, |calls|))
    decreases |calls|
  {
    if calls != [] {
      var e, c, l := h.entries[k], calls[0], Lapsed(h.lease, now);
      assert c in calls && FollowsAt(pick, e, l, step, e.rr) && PickIsSound(e, l, pick(e, l));
      var next := step(e.rr).value.1;
      var h' := h.(entries := h.entries[k := e.(rr := next)]);
      assert ConnectAt(pick, h, c, now) == (h', e.Target(step(e.rr).value.0));
      FollowsOn(pick, e, l, step, next);
      VerdictsArePicks(pick, h', calls[1..], now, k, step);
    }
  }

  lemma FollowsOn(pick: Picker, e: Entry, localOnly: bool, step: Stepper, next: nat)
    requires Follows(pick, e, localOnly, step)
    ensures Follows(pick, e.(rr := next), localOnly, step)
  {
    forall rr: nat ensures FollowsAt(pick, e.(rr := next), localOnly, step, rr) {
      assert FollowsAt(pick, e, localOnly, step, rr);
    }
  }

  /**
   Fairness at the hook: as many connects in a row as the VIP has usable backends,
   by whichever callers it serves, go to each usable backend exactly once, in the
   cyclic order of their slots.
   */
  lemma HookIsFair(h: Hook, calls: seq<Call>, now: nat, k: DestKey) returns (p: seq<nat>)
    requires h.Valid() && AllServed(h, calls, k) && 0 < h.entries[k].count <= MAX_BACKENDS
    requires Steady(h.entries[k].rr, h.entries[k].count)
    requires var e := h.entries[k]; |calls| == Count(e.Flags(Lapsed(h.lease, now)), e.count, 0, e.count)
    ensures var e := h.entries[k];
      var u := e.Flags(Lapsed(h.lease, now));
      && Distinct(p) && InOrder(u, e.count, p) && (forall s :: s in p <==> 0 <= s < e.count && u[s])
      && Sends(RoundRobin, h, calls, now, k, p)
  {
    var e, l := h.entries[k], Lapsed(h.lease, now);
    Fairness(e.rr, e.count, e.Flags(l));
    p := Picks(Connect(e.count, e.Flags(l)), e.rr, |calls|);
    RoundRobinFollows(e, l);
    RoundRobinIsSound();
    VerdictsArePicks(RoundRobin, h, calls, now, k, Connect(e.count, e.Flags(l)));
  }

  lemma RoundRobinFollows(e: Entry, l: bool)
    requires e.Valid() && e.count > 0
    ensures Follows(RoundRobin, e, l, Connect(e.count, e.Flags(l)))
  {
    forall rr: nat ensures FollowsAt(RoundRobin, e, l, Connect(e.count, e.Flags(l)), rr) {}
  }

  // ------------------------------------------------------------ the VIP and the address behind it

  /** The entry stands for service s and lists only its backends. */
  predicate StandsFor(e: Entry, s: Service) {
    && e.Valid() && e.owner == s.owner
    && forall i :: 0 <= i < e.count && i < MAX_BACKENDS ==> Backend(e.backends[i].ip, e.backends[i].port) in s.backends
  }

  /**
   A caller served through a VIP may also connect straight to the backend it was
   sent to, as far as isolation goes, exactly when nobody else claims that address,
   or the caller has no namespace, or it is admitted to the contested identity.
   */
  lemma ServedCallerMayConnectDirectly(
    h: Hook, c: Call, now: nat, services: seq<Service>, workloads: seq<Workload>, s: Service)
    requires h.Valid() && c.caller.cg < TWO64 && ConnectAt(RoundRobin, h, c, now).1.Rewrite?
    requires Resolves(h.policy.owners, AllClaims(services, workloads)) && s in services
    requires StandsFor(h.entries[c.Key()], s)
    ensures var v := ConnectAt(RoundRobin, h, c, now).1;
      !RealDestinationDenied(h.policy, c.caller, v.ip, v.port) <==>
        || Undisputed(AllClaims(services, workloads), DestKey(v.ip, v.port), s.owner)
        || !Namespaced(h.policy, c.caller) || Admitted(h.policy, c.caller, CONTESTED)
  {
    RoundRobinIsSound();
    var slot := SentToUsable(RoundRobin, h, c, now);
    var b := h.entries[c.Key()].backends[slot];
    VipAndRealAddressAgree(h.policy, c.caller, services, workloads, s, Backend(b.ip, b.port));
    IsolationAdmits(h.policy, c.caller, s.owner);
  }
}
