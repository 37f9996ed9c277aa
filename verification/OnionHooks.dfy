/**
 The four cgroup hooks: connect4 and sendmsg4 on IPv4 destinations, connect6 and
 sendmsg6 on IPv6 ones. Addresses and ports are plain numbers; `Octets4` gives
 an IPv4 address the byte order the maps use.
 */
module OnionHooks {
  import opened Common
  import opened EgressBits
  import opened EgressMerge
  import opened EgressMaps

  const VIP_PREFIX: nat := 0x7F80          // 127.128.0.0/16, compared above its 16 host bits
  const MAPPED_WORD: nat := 0xFFFF         // the third word of a v4-mapped IPv6 address
  const SOURCE_IDENTITY_TAG: nat := 0x8000_0000_0000_0000
  const FIREWALL_DENY: nat := 0
  const ANY_PORT: nat := 0
  const CONTESTED: Owner := Owner(0, 0xFFFF_FFFF)

  type Addr4 = x: nat | x < TWO32

  datatype Addr6 = Addr6(w0: Addr4, w1: Addr4, w2: Addr4, w3: Addr4)

  datatype Owner = Owner(appId: nat, namespaceId: nat)
  datatype DestKey = DestKey(ip: nat, port: nat)
  datatype FirewallKey = FirewallKey(source: nat, appId: nat)

  /** The calling process: its cgroup, and its /reliaburger/<namespace> ancestor's. */
  datatype Caller = Caller(cg: nat, ancestor: nat)

  datatype Policy = Policy(
    namespaces: map<nat, nat>,             // cgroup -> namespace
    firewall: map<FirewallKey, nat>,
    identities: map<nat, nat>,             // delegated task's cgroup -> run identity
    owners: map<DestKey, Owner>,           // destination_map
    enforced: map<nat, nat>,               // egress_enabled_map
    exact: Exact,
    trie: Trie)

  ghost predicate Wf(p: Policy, c: Caller) {
    WfTrie(p.trie) && c.cg < TWO64
  }

  function Octets4(ip: nat): (o: Octets)
    ensures |o| == 4
  {
    BeBytes(ip, 4)
  }

  function Octets6(a: Addr6): Octets {
    BeBytes(a.w0, 4) + BeBytes(a.w1, 4) + BeBytes(a.w2, 4) + BeBytes(a.w3, 4)
  }

  predicate IsVip(ip: nat) {
    ip / 0x1_0000 == VIP_PREFIX
  }

  function Mapped(ip: Addr4): Addr6 {
    Addr6(0, 0, MAPPED_WORD, ip)
  }

  // ------------------------------------------------------------ namespace isolation

  function SourceNamespace(p: Policy, c: Caller): Option<nat> {
    if c.cg in p.namespaces then Some(p.namespaces[c.cg])
    else if c.ancestor in p.namespaces then Some(p.namespaces[c.ancestor])
    else None
  }

  /** The firewall entry for the caller's own cgroup, or else for the run identity it is bound to. */
  function Grant(p: Policy, c: Caller, appId: nat): Option<nat> {
    var own := FirewallKey(c.cg, appId);
    if own in p.firewall then Some(p.firewall[own])
    else if c.cg in p.identities && FirewallKey(SOURCE_IDENTITY_TAG + p.identities[c.cg], appId) in p.firewall
    then Some(p.firewall[FirewallKey(SOURCE_IDENTITY_TAG + p.identities[c.cg], appId)])
    else None
  }

  predicate IsolationDenies(p: Policy, c: Caller, o: Owner) {
    var src := SourceNamespace(p, c);
    if src.None? || src.value == o.namespaceId then false
    else var g := Grant(p, c, o.appId); g.None? || g.value == FIREWALL_DENY
  }

  /** The caller's namespace: its own cgroup's binding, or failing that its ancestor's. */
  predicate LivesIn(p: Policy, c: Caller, namespace: nat) {
    || (c.cg in p.namespaces && p.namespaces[c.cg] == namespace)
    || (c.cg !in p.namespaces && c.ancestor in p.namespaces && p.namespaces[c.ancestor] == namespace)
  }

  predicate HasGrant(p: Policy, source: nat, app: nat) {
    FirewallKey(source, app) in p.firewall && p.firewall[FirewallKey(source, app)] != 0
  }

  /** The owner's namespace is the caller's, or the caller was granted its app: by the cgroup's own entry or, when it
      has none, by that of the run identity the cgroup is bound to. */
  predicate Admitted(p: Policy, c: Caller, o: Owner) {
    || LivesIn(p, c, o.namespaceId)
    || HasGrant(p, c.cg, o.appId)
    || (FirewallKey(c.cg, o.appId) !in p.firewall && c.cg in p.identities
        && HasGrant(p, 0x8000_0000_0000_0000 + p.identities[c.cg], o.appId))
  }

  /** The caller is in one of Reliaburger's namespaces. */
  predicate Namespaced(p: Policy, c: Caller) {
    c.cg in p.namespaces || c.ancestor in p.namespaces
  }

  /** Who may reach an owner: callers outside every namespace, and callers it admits. */
  lemma IsolationAdmits(p: Policy, c: Caller, o: Owner)
    ensures IsolationDenies(p, c, o) <==> Namespaced(p, c) && !Admitted(p, c, o)
  {}

  predicate RealDestinationDenied(p: Policy, c: Caller, ip: nat, port: nat) {
    if DestKey(ip, port) in p.owners then IsolationDenies(p, c, p.owners[DestKey(ip, port)])
    else if DestKey(ip, ANY_PORT) in p.owners then IsolationDenies(p, c, p.owners[DestKey(ip, ANY_PORT)])
    else false
  }

  // ------------------------------------------------------------ the hooks' decisions

  predicate Enforced(p: Policy, c: Caller) {
    c.cg in p.enforced && p.enforced[c.cg] == 1
  }

  predicate Egress4Allowed(p: Policy, c: Caller, ip: nat, port: nat)
    requires WfTrie(p.trie) && c.cg < TWO64
  {
    Allowed(p.exact, p.trie, c.cg, Octets4(ip), port)
  }

  predicate Egress6Allowed(p: Policy, c: Caller, a: Addr6, port: nat)
    requires WfTrie(p.trie) && c.cg < TWO64
  {
    if a.w0 == 0 && a.w1 == 0 && a.w2 == MAPPED_WORD
    then IsVip(a.w3) || Egress4Allowed(p, c, a.w3, port)
    else Allowed(p.exact, p.trie, c.cg, Octets6(a), port)
  }

  /** mapped_ipv4: the embedded IPv4 address, or 0 for native IPv6. */
  function MappedIpv4(a: Addr6): Addr4 {
    if a.w0 == 0 && a.w1 == 0 && a.w2 == MAPPED_WORD then a.w3 else 0
  }

  /** connect4 on a destination outside the VIP range. */
  predicate Connect4Real(p: Policy, c: Caller, ip: nat, port: nat)
    requires WfTrie(p.trie) && c.cg < TWO64
  {
    if RealDestinationDenied(p, c, ip, port) then false
    else !(Enforced(p, c) && !Egress4Allowed(p, c, ip, port))
  }

  predicate Sendmsg4(p: Policy, c: Caller, ip: nat, port: nat)
    requires WfTrie(p.trie) && c.cg < TWO64
  {
    if IsVip(ip) then true
    else if RealDestinationDenied(p, c, ip, port) then false
    else if !Enforced(p, c) then true
    else Egress4Allowed(p, c, ip, port)
  }

  /** connect6; sendmsg6 has the same body. */
  predicate Policy6(p: Policy, c: Caller, a: Addr6, port: nat)
    requires WfTrie(p.trie) && c.cg < TWO64
  {
    var v4 := MappedIpv4(a);
    if v4 != 0 && RealDestinationDenied(p, c, v4, port) then false
    else if !Enforced(p, c) then true
    else Egress6Allowed(p, c, a, port)
  }

  /**
   One policy behind every hook. For an IPv4 destination outside the VIP range
   connect4 and sendmsg4 agree, and the IPv6 hooks agree with them on its
   v4-mapped form exactly when the address is not 0.0.0.0, or isolation has
   nothing against 0.0.0.0, or egress refuses it anyway: `mapped_ipv4` answers 0
   both for native IPv6 and for the mapped 0.0.0.0.
   */
  lemma HooksAgree(p: Policy, c: Caller, ip: Addr4, port: nat)
    requires Wf(p, c) && !IsVip(ip)
    ensures Connect4Real(p, c, ip, port) <==> Sendmsg4(p, c, ip, port)
    ensures (Policy6(p, c, Mapped(ip), port) <==> Connect4Real(p, c, ip, port)) <==>
            (ip != 0 || !RealDestinationDenied(p, c, 0, port) || (Enforced(p, c) && !Egress4Allowed(p, c, 0, port)))
  {}

  /** The exception is real: another namespace owns 0.0.0.0:80, and only the mapped form gets through. */
  lemma HooksDifferAtZero()
    ensures var p := Policy(map[7 := 1], map[], map[], map[DestKey(0, 80) := Owner(5, 2)], map[], map[], map[]);
      var c := Caller(7, 0);
      Wf(p, c) && !Connect4Real(p, c, 0, 80) && !Sendmsg4(p, c, 0, 80) && Policy6(p, c, Mapped(0), 80)
  {}

  // ------------------------------------------------------------ who owns a real address

  datatype Backend = Backend(ip: nat, port: nat)
  datatype Service = Service(owner: Owner, backends: seq<Backend>)
  datatype Workload = Workload(address: nat, owner: Owner)
  datatype Claim = Claim(key: DestKey, owner: Owner)

  function ServiceClaims(s: Service): seq<Claim> {
    seq(|s.backends|, i requires 0 <= i < |s.backends| => Claim(DestKey(s.backends[i].ip, s.backends[i].port), s.owner))
  }

  /** Everything claimed: the service view, then the cluster catalogue, then every port of each local workload. */
  function AllClaims(services: seq<Service>, workloads: seq<Workload>): seq<Claim> {
    if services != [] then ServiceClaims(services[0]) + AllClaims(services[1..], workloads)
    else
      seq(|workloads|, i requires 0 <= i < |workloads| =>
        Claim(DestKey(workloads[i].address, ANY_PORT), workloads[i].owner))
  }

  predicate ClaimedBy(claims: seq<Claim>, k: DestKey, o: Owner) {
    Claim(k, o) in claims
  }

  /** The map a set of claims stands for: a key's one owner, or contested when two differ. */
  ghost predicate Resolves(entries: map<DestKey, Owner>, claims: seq<Claim>) {
    && (forall c :: c in claims ==> c.key in entries)
    && (forall k :: k in entries ==> exists o :: ClaimedBy(claims, k, o))
    && (forall k, o :: k in entries && ClaimedBy(claims, k, o) ==> entries[k] == o || entries[k] == CONTESTED)
    && (forall k :: k in entries && !ClaimedBy(claims, k, entries[k]) ==>
          entries[k] == CONTESTED && Disputed(claims, k))
  }

  ghost predicate Disputed(claims: seq<Claim>, k: DestKey) {
    exists o, o' :: o != o' && ClaimedBy(claims, k, o) && ClaimedBy(claims, k, o')
  }

  function ClaimOne(entries: map<DestKey, Owner>, c: Claim): map<DestKey, Owner> {
    if c.key !in entries then entries[c.key := c.owner]
    else if entries[c.key] != c.owner then entries[c.key := CONTESTED]
    else entries
  }

  lemma ClaimOneResolves(entries: map<DestKey, Owner>, claims: seq<Claim>, c: Claim)
    requires Resolves(entries, claims)
    ensures Resolves(ClaimOne(entries, c), claims + [c])
  {
    var after, all := ClaimOne(entries, c), claims + [c];
    forall k, o ensures ClaimedBy(all, k, o) <==> ClaimedBy(claims, k, o) || Claim(k, o) == c {}
    forall k | k in after ensures exists o :: ClaimedBy(all, k, o) {
      if k in entries { var o :| ClaimedBy(claims, k, o); assert ClaimedBy(all, k, o); }
      else { assert ClaimedBy(all, k, c.owner); }
    }
    forall k | k in after && !ClaimedBy(all, k, after[k]) ensures after[k] == CONTESTED && Disputed(all, k) {
      DisputeStays(entries, claims, c, k);
    }
  }

  lemma DisputeStays(entries: map<DestKey, Owner>, claims: seq<Claim>, c: Claim, k: DestKey)
    requires Resolves(entries, claims) && k in ClaimOne(entries, c)
    requires !ClaimedBy(claims + [c], k, ClaimOne(entries, c)[k])
    ensures ClaimOne(entries, c)[k] == CONTESTED && Disputed(claims + [c], k)
  {
    var all := claims + [c];
    assert ClaimedBy(all, c.key, c.owner);
    if !ClaimedBy(claims, k, entries[k]) {
      var o, o' :| o != o' && ClaimedBy(claims, k, o) && ClaimedBy(claims, k, o');
      assert ClaimedBy(all, k, o) && ClaimedBy(all, k, o');
    } else {
      assert ClaimedBy(all, k, entries[k]);
    }
  }

  /** destination_entries: claims are settled one by one, and their order does not matter to the result. */
  method DestinationEntries(services: seq<Service>, workloads: seq<Workload>) returns (entries: map<DestKey, Owner>)
    ensures Resolves(entries, AllClaims(services, workloads))
  {
    entries := map[];
    var claims := AllClaims(services, workloads);
    for i := 0 to |claims|
      invariant entries == Settled(claims[..i])
    {
      assert claims[..i + 1][..i] == claims[..i];
      entries := ClaimOne(entries, claims[i]);
    }
    assert claims[..|claims|] == claims;
    SettledResolves(claims);
  }

  function Settled(claims: seq<Claim>): map<DestKey, Owner> {
    if claims == [] then map[] else ClaimOne(Settled(claims[..|claims| - 1]), claims[|claims| - 1])
  }

  lemma {:induction false} SettledResolves(claims: seq<Claim>)
    ensures Resolves(Settled(claims), claims)
  {
    if claims != [] {
      var front, last := claims[..|claims| - 1], claims[|claims| - 1];
      SettledResolves(front);
      ClaimOneResolves(Settled(front), front, last);
      assert claims == front + [last];
    }
  }

  /** Two orders of the same claims resolve to the same map. */
  lemma ClaimOrderDoesNotMatter(a: map<DestKey, Owner>, claims: seq<Claim>, b: map<DestKey, Owner>, claims': seq<Claim>)
    requires Resolves(a, claims) && Resolves(b, claims') && forall c :: c in claims <==> c in claims'
    ensures a == b
  {
    forall k, o ensures ClaimedBy(claims, k, o) <==> ClaimedBy(claims', k, o) {}
    forall k ensures k in a <==> k in b {
      if k in a { var o :| ClaimedBy(claims, k, o); assert Claim(k, o).key in b; }
      if k in b { var o :| ClaimedBy(claims', k, o); assert Claim(k, o).key in a; }
    }
    forall k | k in a ensures a[k] == b[k] {}
  }

  lemma {:induction false} BackendIsClaimed(services: seq<Service>, workloads: seq<Workload>, s: Service, b: Backend)
    requires s in services && b in s.backends
    ensures ClaimedBy(AllClaims(services, workloads), DestKey(b.ip, b.port), s.owner)
  {
    if s == services[0] {
      var i :| 0 <= i < |s.backends| && s.backends[i] == b;
      assert ServiceClaims(s)[i] == Claim(DestKey(b.ip, b.port), s.owner);
    } else {
      BackendIsClaimed(services[1..], workloads, s, b);
    }
  }

  /** Nobody but o claims the key. */
  ghost predicate Undisputed(claims: seq<Claim>, k: DestKey, o: Owner) {
    forall o' :: ClaimedBy(claims, k, o') ==> o' == o
  }

  lemma OwnerOfBackend(p: Policy, services: seq<Service>, workloads: seq<Workload>, s: Service, b: Backend)
    requires Resolves(p.owners, AllClaims(services, workloads)) && s in services && b in s.backends
    ensures var k := DestKey(b.ip, b.port);
      && k in p.owners
      && p.owners[k] == if Undisputed(AllClaims(services, workloads), k, s.owner) then s.owner else CONTESTED
  {
    var claims, k := AllClaims(services, workloads), DestKey(b.ip, b.port);
    BackendIsClaimed(services, workloads, s, b);
    assert Claim(k, s.owner).key in p.owners;
  }

  /**
   Isolation gives a caller the same answer at a backend's real address as at the
   VIP that lists it, exactly when nobody else claims that address, or the caller
   has no namespace, or the caller is admitted to the contested identity exactly
   when it is admitted to the service.
   */
  lemma VipAndRealAddressAgree(
    p: Policy, c: Caller, services: seq<Service>, workloads: seq<Workload>, s: Service, b: Backend)
    requires Resolves(p.owners, AllClaims(services, workloads)) && s in services && b in s.backends
    ensures (RealDestinationDenied(p, c, b.ip, b.port) <==> IsolationDenies(p, c, s.owner)) <==>
      || Undisputed(AllClaims(services, workloads), DestKey(b.ip, b.port), s.owner) || !Namespaced(p, c)
      || (Admitted(p, c, CONTESTED) <==> Admitted(p, c, s.owner))
  {
    OwnerOfBackend(p, services, workloads, s, b);
    IsolationAdmits(p, c, s.owner);
    IsolationAdmits(p, c, CONTESTED);
  }

  /** Where policy knows nothing of the contested identity, only callers the service admits can be turned away at
      the address. */
  lemma AgreementWithoutContestedGrants(
    p: Policy, c: Caller, services: seq<Service>, workloads: seq<Workload>, s: Service, b: Backend)
    requires Resolves(p.owners, AllClaims(services, workloads)) && s in services && b in s.backends
    requires !Admitted(p, c, CONTESTED)
    ensures (RealDestinationDenied(p, c, b.ip, b.port) <==> IsolationDenies(p, c, s.owner)) <==>
      || Undisputed(AllClaims(services, workloads), DestKey(b.ip, b.port), s.owner) || !Namespaced(p, c)
      || IsolationDenies(p, c, s.owner)
    ensures IsolationDenies(p, c, s.owner) ==> RealDestinationDenied(p, c, b.ip, b.port)
  {
    VipAndRealAddressAgree(p, c, services, workloads, s, b);
    IsolationAdmits(p, c, s.owner);
  }

  /** A contested address refuses every namespaced caller, short of a grant to the contested identity itself. */
  lemma ContestedRefusesNamespaced(p: Policy, c: Caller, ip: nat, port: nat)
    requires DestKey(ip, port) in p.owners && p.owners[DestKey(ip, port)] == CONTESTED
    ensures RealDestinationDenied(p, c, ip, port) <==>
      Namespaced(p, c) && !Admitted(p, c, CONTESTED)
  {
    IsolationAdmits(p, c, CONTESTED);
  }
}
