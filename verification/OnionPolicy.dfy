/**
 What the hooks' decisions come to, in terms of the maps alone: who may reach an
 owner, who is refused at a real address, and what each hook lets through once a
 cgroup's allowlist is programmed.
 */
module OnionPolicy {
  import opened Common
  import opened EgressBits
  import opened EgressMerge
  import opened EgressMaps
  import opened OnionHooks

  // ------------------------------------------------------------ real addresses

  /** The owner of a real address and port: of exactly that pair, or failing that of the address's port 0. */
  predicate OwnedBy(p: Policy, ip: nat, port: nat, o: Owner) {
    || (DestKey(ip, port) in p.owners && p.owners[DestKey(ip, port)] == o)
    || (DestKey(ip, port) !in p.owners && DestKey(ip, 0) in p.owners && p.owners[DestKey(ip, 0)] == o)
  }

  /** Whoever owns the address, if anybody does, admits the caller. */
  ghost predicate OwnerAdmits(p: Policy, c: Caller, ip: nat, port: nat) {
    forall o :: OwnedBy(p, ip, port, o) ==> Admitted(p, c, o)
  }

  /** A real destination is refused exactly to the namespaced callers its owner does not admit. */
  lemma RefusedByOwner(p: Policy, c: Caller, ip: nat, port: nat)
    ensures RealDestinationDenied(p, c, ip, port) <==> Namespaced(p, c) && !OwnerAdmits(p, c, ip, port)
  {
    if DestKey(ip, port) in p.owners {
      var o := p.owners[DestKey(ip, port)];
      assert OwnedBy(p, ip, port, o);
      IsolationAdmits(p, c, o);
    } else if DestKey(ip, 0) in p.owners {
      var o := p.owners[DestKey(ip, 0)];
      assert OwnedBy(p, ip, port, o);
      IsolationAdmits(p, c, o);
    }
  }

  // ------------------------------------------------------------ the hooks

  /** The hooks' lookups answer by this list for the cgroup, as reprogramming leaves them. */
  ghost predicate Programmed(p: Policy, cg: nat, dests: seq<Destination>)
    requires WfTrie(p.trie) && cg < TWO64
  {
    forall addr, port :: Allowed(p.exact, p.trie, cg, addr, port) <==> Permits(dests, addr, port)
  }

  /** Isolation has nothing against the address: the caller is in no namespace, or the address's owner admits it. */
  ghost predicate IsolationPasses(p: Policy, c: Caller, ip: nat, port: nat) {
    (c.cg !in p.namespaces && c.ancestor !in p.namespaces) || OwnerAdmits(p, c, ip, port)
  }

  /** Egress has nothing against the address: the cgroup's flag is not 1, or its list permits it. */
  predicate EgressPasses(p: Policy, c: Caller, dests: seq<Destination>, addr: Octets, port: nat) {
    c.cg in p.enforced && p.enforced[c.cg] == 1 ==> Permits(dests, addr, port)
  }

  /** An IPv4 address in network order. */
  function Network4(ip: Addr4): Octets {
    [(ip / 0x100_0000) as byte, (ip / 0x1_0000 % 0x100) as byte, (ip / 0x100 % 0x100) as byte, (ip % 0x100) as byte]
  }

  lemma Network4IsOctets(ip: Addr4)
    ensures Octets4(ip) == Network4(ip)
  {
    var a, b, c := ip / 0x100, ip / 0x100 / 0x100, ip / 0x100 / 0x100 / 0x100;
    assert b == ip / 0x1_0000 && c == ip / 0x100_0000;
    assert BeBytes(c, 1) == BeBytes(c / 0x100, 0) + [(c % 0x100) as byte];
    assert BeBytes(b, 2) == BeBytes(c, 1) + [(b % 0x100) as byte];
    assert BeBytes(a, 3) == BeBytes(b, 2) + [(a % 0x100) as byte];
    assert BeBytes(ip, 4) == BeBytes(a, 3) + [(ip % 0x100) as byte];
  }

  function Network6(a: Addr6): Octets {
    Network4(a.w0) + Network4(a.w1) + Network4(a.w2) + Network4(a.w3)
  }

  lemma Network6IsOctets(a: Addr6)
    ensures Octets6(a) == Network6(a)
  {
    Network4IsOctets(a.w0);
    Network4IsOctets(a.w1);
    Network4IsOctets(a.w2);
    Network4IsOctets(a.w3);
  }

  /** connect4 and sendmsg4 pass a real address exactly when its owner and the caller's allowlist do; sendmsg4 leaves
      127.128.0.0/16 alone. */
  lemma Ipv4HooksPass(p: Policy, c: Caller, ip: Addr4, port: nat, dests: seq<Destination>)
    requires Wf(p, c) && Programmed(p, c.cg, dests)
    ensures Connect4Real(p, c, ip, port) <==>
      IsolationPasses(p, c, ip, port) && EgressPasses(p, c, dests, Network4(ip), port)
    ensures Sendmsg4(p, c, ip, port) <==>
      || 0x7F80_0000 <= ip < 0x7F81_0000
      || (IsolationPasses(p, c, ip, port) && EgressPasses(p, c, dests, Network4(ip), port))
  {
    RefusedByOwner(p, c, ip, port);
    Network4IsOctets(ip);
  }

  /** connect6 and sendmsg6 on a v4-mapped address: isolation is asked about every one but 0.0.0.0, and egress about
      every one outside 127.128.0.0/16. */
  lemma MappedHooksPass(p: Policy, c: Caller, ip: Addr4, port: nat, dests: seq<Destination>)
    requires Wf(p, c) && Programmed(p, c.cg, dests)
    ensures Policy6(p, c, Addr6(0, 0, 0xFFFF, ip), port) <==>
      && (ip != 0 ==> IsolationPasses(p, c, ip, port))
      && (0x7F80_0000 <= ip < 0x7F81_0000 || EgressPasses(p, c, dests, Network4(ip), port))
  {
    RefusedByOwner(p, c, ip, port);
    Network4IsOctets(ip);
  }

  /** connect6 and sendmsg6 on a native IPv6 address: workload addresses are IPv4, so only egress is asked. */
  lemma NativeHooksPass(p: Policy, c: Caller, a: Addr6, port: nat, dests: seq<Destination>)
    requires Wf(p, c) && Programmed(p, c.cg, dests) && (a.w0 != 0 || a.w1 != 0 || a.w2 != 0xFFFF)
    ensures Policy6(p, c, a, port) <==> EgressPasses(p, c, dests, Network6(a), port)
  {
    Network6IsOctets(a);
  }

  // ------------------------------------------------------------ a workload's address

  /** The service is o's and has a backend at exactly this address and port. */
  predicate Serves(s: Service, o: Owner, ip: nat, port: nat) {
    s.owner == o && Backend(ip, port) in s.backends
  }

  /** Who claims an address and port: services for their backends' pairs, and local workloads for port 0 of theirs. */
  ghost predicate Claims(services: seq<Service>, workloads: seq<Workload>, ip: nat, port: nat, o: Owner) {
    || (exists s :: s in services && Serves(s, o, ip, port))
    || (port == 0 && Workload(ip, o) in workloads)
  }

  lemma {:induction false} ClaimsAreClaimed(
      services: seq<Service>, workloads: seq<Workload>, ip: nat, port: nat, o: Owner)
    ensures ClaimedBy(AllClaims(services, workloads), DestKey(ip, port), o) <==>
      Claims(services, workloads, ip, port, o)
  {
    var k, all := DestKey(ip, port), AllClaims(services, workloads);
    if services == [] {
      if Claim(k, o) in all {
        var i :| 0 <= i < |all| && all[i] == Claim(k, o);
        assert workloads[i] == Workload(ip, o);
      }
      if port == 0 && Workload(ip, o) in workloads {
        var i :| 0 <= i < |workloads| && workloads[i] == Workload(ip, o);
        assert all[i] == Claim(k, o);
      }
    } else {
      ClaimsAreClaimed(services[1..], workloads, ip, port, o);
      ServiceClaimsAre(services[0], ip, port, o);
      assert services == [services[0]] + services[1..];
    }
  }

  lemma ServiceClaimsAre(s: Service, ip: nat, port: nat, o: Owner)
    ensures Claim(DestKey(ip, port), o) in ServiceClaims(s) <==> Serves(s, o, ip, port)
  {
    var claims := ServiceClaims(s);
    if Claim(DestKey(ip, port), o) in claims {
      var i :| 0 <= i < |claims| && claims[i] == Claim(DestKey(ip, port), o);
      assert s.backends[i] == Backend(ip, port);
    }
    if Serves(s, o, ip, port) {
      var i :| 0 <= i < |s.backends| && s.backends[i] == Backend(ip, port);
      assert claims[i] == Claim(DestKey(ip, port), o);
    }
  }

  /** Nobody but o claims the address and port. */
  ghost predicate SoleClaim(services: seq<Service>, workloads: seq<Workload>, ip: nat, port: nat, o: Owner) {
    forall o' :: Claims(services, workloads, ip, port, o') ==> o' == o
  }

  /** The map `destination_entries` builds has an entry exactly where somebody claims, and holds the one claimant, or
      namespace 4294967295's app 0 when there are several. */
  lemma EntryIs(owners: map<DestKey, Owner>, services: seq<Service>, workloads: seq<Workload>,
                ip: nat, port: nat, o: Owner)
    requires Resolves(owners, AllClaims(services, workloads)) && Claims(services, workloads, ip, port, o)
    ensures var k := DestKey(ip, port);
      && k in owners
      && owners[k] == if SoleClaim(services, workloads, ip, port, o) then o else Owner(0, 0xFFFF_FFFF)
  {
    var claims, k := AllClaims(services, workloads), DestKey(ip, port);
    forall o' ensures ClaimedBy(claims, k, o') <==> Claims(services, workloads, ip, port, o') {
      ClaimsAreClaimed(services, workloads, ip, port, o');
    }
    assert ClaimedBy(claims, k, o) && Claim(k, o).key in owners;
    if SoleClaim(services, workloads, ip, port, o) {
      assert owners[k] == o;
    }
  }

  lemma EntryIsClaimed(owners: map<DestKey, Owner>, services: seq<Service>, workloads: seq<Workload>, k: DestKey)
    requires Resolves(owners, AllClaims(services, workloads)) && k in owners
    ensures exists o :: Claims(services, workloads, k.ip, k.port, o)
  {
    var o :| ClaimedBy(AllClaims(services, workloads), k, o);
    ClaimsAreClaimed(services, workloads, k.ip, k.port, o);
  }

  /**
   On every port no service has a backend at, a local workload's address refuses
   exactly the namespaced callers its owner does not admit; where two owners claim
   the address, exactly those the contested identity does not admit.
   */
  lemma WorkloadIsGuarded(
      p: Policy, c: Caller, services: seq<Service>, workloads: seq<Workload>, w: Workload, port: nat)
    requires Resolves(p.owners, AllClaims(services, workloads)) && w in workloads
    requires port == 0 || forall s :: s in services ==> Backend(w.address, port) !in s.backends
    ensures var sole := SoleClaim(services, workloads, w.address, 0, w.owner);
      RealDestinationDenied(p, c, w.address, port) <==>
        Namespaced(p, c) && !Admitted(p, c, if sole then w.owner else Owner(0, 0xFFFF_FFFF))
  {
    var sole := SoleClaim(services, workloads, w.address, 0, w.owner);
    var o := if sole then w.owner else Owner(0, 0xFFFF_FFFF);
    assert w == Workload(w.address, w.owner);
    assert Claims(services, workloads, w.address, 0, w.owner);
    EntryIs(p.owners, services, workloads, w.address, 0, w.owner);
    if DestKey(w.address, port) in p.owners {
      EntryIsClaimed(p.owners, services, workloads, DestKey(w.address, port));
    }
    assert forall o' :: OwnedBy(p, w.address, port, o') <==> o' == o;
    RefusedByOwner(p, c, w.address, port);
  }
}
