/**
 The kernel's half of the egress allowlist: the exact map and the
 longest-prefix tries, how they are programmed, and how the hooks look them up.
 IPv4 and IPv6 keep separate maps; here an address's width tells them apart.
 */
module EgressMaps {
  import opened Common
  import opened EgressBits
  import opened EgressMerge

  datatype CidrValue = CidrValue(ports: seq<nat>, count: nat)
  datatype ExactKey = ExactKey(cg: nat, addr: Octets, port: nat)
  datatype TrieKey = TrieKey(width: nat, prefix: Bits)

  type Exact = map<ExactKey, nat>
  type Trie = map<TrieKey, CidrValue>

  /** cidr_value: the first eight ports, padded with zeros. */
  function ToValue(ports: seq<nat>): CidrValue {
    CidrValue(seq(MAX_CIDR_PORTS, i requires 0 <= i => if i < |ports| then ports[i] else 0),
              if |ports| < MAX_CIDR_PORTS then |ports| else MAX_CIDR_PORTS)
  }

  predicate Valid(cv: CidrValue) {
    |cv.ports| == MAX_CIDR_PORTS
  }

  predicate AllowsPort(cv: CidrValue, port: nat)
    requires Valid(cv)
  {
    port in cv.ports[..if cv.count > MAX_CIDR_PORTS then MAX_CIDR_PORTS else cv.count]
  }

  /** cidr_port_allowed: the bounded scan over the port array. */
  method CidrPortAllowed(cv: CidrValue, port: nat) returns (ok: bool)
    requires Valid(cv)
    ensures ok <==> AllowsPort(cv, port)
  {
    var n := if cv.count > MAX_CIDR_PORTS then MAX_CIDR_PORTS else cv.count;
    var i := 0;
    while i < MAX_CIDR_PORTS
      invariant 0 <= i <= n && port !in cv.ports[..i]
      decreases MAX_CIDR_PORTS - i
    {
      if i >= n { break; }
      if cv.ports[i] == port { return true; }
      assert cv.ports[..i + 1] == cv.ports[..i] + [cv.ports[i]];
      i := i + 1;
    }
    return false;
  }

  lemma ValueAllowsItsPorts(ports: seq<nat>, port: nat)
    requires |ports| <= MAX_CIDR_PORTS
    ensures Valid(ToValue(ports)) && (AllowsPort(ToValue(ports), port) <==> port in ports)
  {
    assert ToValue(ports).ports[..|ports|] == ports;
  }

  // ------------------------------------------------------------ lookups

  /** The length, at most n, of the longest stored prefix of the key. */
  function LongestPrefix(trie: Trie, width: nat, key: Bits, n: nat): (r: Option<nat>)
    requires n <= |key|
    ensures r.Some? ==> r.value <= n && TrieKey(width, key[..r.value]) in trie
    ensures forall j :: (if r.Some? then r.value else -1) < j <= n ==> TrieKey(width, key[..j]) !in trie
  {
    if TrieKey(width, key[..n]) in trie then Some(n)
    else if n == 0 then None
    else LongestPrefix(trie, width, key, n - 1)
  }

  function LookupKey(cg: nat, addr: Octets): (key: Bits)
    requires cg < TWO64
    ensures |key| == CGROUP_BITS + 8 * |addr|
  {
    CgroupKey(cg) + BytesBits(addr)
  }

  predicate WfTrie(trie: Trie) {
    forall k :: k in trie ==> |k.prefix| >= CGROUP_BITS && Valid(trie[k])
  }

  /** egress4_allowed, and the same for a native IPv6 address: exact first, then one trie lookup. */
  predicate Allowed(exact: Exact, trie: Trie, cg: nat, addr: Octets, port: nat)
    requires cg < TWO64 && WfTrie(trie)
  {
    var e := ExactKey(cg, addr, port);
    var key := LookupKey(cg, addr);
    var hit := LongestPrefix(trie, |addr|, key, |key|);
    (e in exact && exact[e] == 1) || (hit.Some? && AllowsPort(trie[TrieKey(|addr|, key[..hit.value])], port))
  }

  // ------------------------------------------------------------ programming

  function EntryKey(cg: nat, k: Key): TrieKey
    requires cg < TWO64 && k.len <= 8 * |k.network|
  {
    TrieKey(|k.network|, CgroupKey(cg) + BytesBits(k.network)[..k.len])
  }

  /** The exact map once the first n destinations are written. */
  function WithExact(exact: Exact, cg: nat, dests: seq<Destination>, n: nat): Exact
    requires n <= |dests|
  {
    if n == 0 then exact
    else
      var before, d := WithExact(exact, cg, dests, n - 1), dests[n - 1];
      if d.Ip? then before[ExactKey(cg, d.addr, d.port) := 1] else before
  }

  predicate Lengths(cidrs: seq<CidrAllow>) {
    forall c :: c in cidrs ==> c.key.len <= 8 * |c.key.network|
  }

  /** The trie once the first n merged prefixes are written. */
  function WithCidrs(trie: Trie, cg: nat, cidrs: seq<CidrAllow>, n: nat): Trie
    requires n <= |cidrs| && cg < TWO64 && Lengths(cidrs)
  {
    if n == 0 then trie
    else WithCidrs(trie, cg, cidrs, n - 1)[EntryKey(cg, cidrs[n - 1].key) := ToValue(cidrs[n - 1].ports)]
  }

  function DropExact(exact: Exact, cg: nat): Exact {
    map e | e in exact && e.cg != cg :: exact[e]
  }

  function DropTrie(trie: Trie, cg: nat): Trie
    requires cg < TWO64 && WfTrie(trie)
  {
    map k | k in trie && k.prefix[..CGROUP_BITS] != CgroupKey(cg) :: trie[k]
  }

  // ------------------------------------------------------------ what programming does

  lemma {:induction false} WithExactHas(exact: Exact, cg: nat, dests: seq<Destination>, n: nat, e: ExactKey)
    requires n <= |dests|
    ensures var m := WithExact(exact, cg, dests, n);
      var written := e.cg == cg && Ip(e.addr, e.port) in dests[..n];
      && (e in m <==> e in exact || written)
      && (e in m ==> m[e] == if written then 1 else exact[e])
  {
    if n > 0 {
      WithExactHas(exact, cg, dests, n - 1, e);
      assert dests[..n] == dests[..n - 1] + [dests[n - 1]];
    }
  }

  predicate WrittenBy(cg: nat, cidrs: seq<CidrAllow>, k: TrieKey, v: CidrValue)
    requires cg < TWO64 && Lengths(cidrs)
  {
    exists c :: c in cidrs && EntryKey(cg, c.key) == k && ToValue(c.ports) == v
  }

  lemma {:induction false} WithCidrsHas(trie: Trie, cg: nat, cidrs: seq<CidrAllow>, n: nat, k: TrieKey)
    requires n <= |cidrs| && cg < TWO64 && Lengths(cidrs)
    ensures var t := WithCidrs(trie, cg, cidrs, n);
      && (k in trie ==> k in t)
      && (k in t ==> (k in trie && t[k] == trie[k]) || WrittenBy(cg, cidrs, k, t[k]))
    ensures forall c :: c in cidrs[..n] && EntryKey(cg, c.key) == k ==> k in WithCidrs(trie, cg, cidrs, n)
  {
    if n > 0 {
      WithCidrsHas(trie, cg, cidrs, n - 1, k);
      var c := cidrs[n - 1];
      assert cidrs[..n] == cidrs[..n - 1] + [c] && c in cidrs;
    }
  }

  lemma WithCidrsWf(trie: Trie, cg: nat, cidrs: seq<CidrAllow>)
    requires cg < TWO64 && Lengths(cidrs) && WfTrie(trie)
    ensures WfTrie(WithCidrs(trie, cg, cidrs, |cidrs|))
  {
    var t := WithCidrs(trie, cg, cidrs, |cidrs|);
    forall k | k in t ensures |k.prefix| >= CGROUP_BITS && Valid(t[k]) {
      WithCidrsHas(trie, cg, cidrs, |cidrs|, k);
    }
  }

  /** delete_cgroup_egress_entries has run: nothing of this cgroup is left. */
  predicate NoEntries(exact: Exact, trie: Trie, cg: nat)
    requires cg < TWO64 && WfTrie(trie)
  {
    && (forall e :: e in exact ==> e.cg != cg)
    && (forall k :: k in trie ==> k.prefix[..CGROUP_BITS] != CgroupKey(cg))
  }

  lemma MergedLengths(dests: seq<Destination>, cidrs: seq<CidrAllow>)
    requires AllNormalised(dests) && Merged(dests, cidrs)
    ensures Lengths(cidrs) && forall c :: c in cidrs ==> Normalised(c.key)
  {
    forall c | c in cidrs ensures Normalised(c.key) { assert Listed(dests, c.key); }
  }

  // ------------------------------------------------------------ one lookup is the union

  predicate SomeCidr(dests: seq<Destination>, addr: Octets, port: nat) {
    exists d :: d in dests && d.Cidr? && Covers(d, addr, port)
  }

  /** An entry around the address lies on the lookup path, at its own prefix length. */
  lemma EntryOnPath(cg: nat, k: Key, addr: Octets)
    requires cg < TWO64 && k.len <= 8 * |k.network|
    requires InPrefix(addr, k.network, k.len)
    ensures EntryKey(cg, k) == TrieKey(|addr|, LookupKey(cg, addr)[..CGROUP_BITS + k.len])
  {
    assert LookupKey(cg, addr)[..CGROUP_BITS + k.len] == CgroupKey(cg) + BytesBits(addr)[..k.len];
  }

  /** What lies on the lookup path at length m is an entry around the address, of length m - 64. */
  lemma PathIsEntry(cg: nat, k: Key, addr: Octets, m: nat)
    requires cg < TWO64 && k.len <= 8 * |k.network| && m <= |LookupKey(cg, addr)|
    requires EntryKey(cg, k) == TrieKey(|addr|, LookupKey(cg, addr)[..m])
    ensures m == CGROUP_BITS + k.len && InPrefix(addr, k.network, k.len)
  {
    var path := LookupKey(cg, addr);
    assert |path[..m]| == m == CGROUP_BITS + k.len;
    assert path[..m] == CgroupKey(cg) + BytesBits(addr)[..k.len];
    assert BytesBits(addr)[..k.len] == path[..m][CGROUP_BITS..] == BytesBits(k.network)[..k.len];
  }

  /** The entry at the longest match allows a port exactly when some listed prefix around the address does. */
  lemma LongestCarriesUnion(dests: seq<Destination>, cidrs: seq<CidrAllow>, c: CidrAllow, addr: Octets, port: nat)
    requires AllNormalised(dests) && Merged(dests, cidrs) && c in cidrs && InPrefix(addr, c.key.network, c.key.len)
    requires forall d :: d in dests && d.Cidr? && InPrefix(addr, d.network, d.len) ==> d.len <= c.key.len
    ensures port in c.ports <==> SomeCidr(dests, addr, port)
  {
    assert Listed(dests, c.key) && Normalised(c.key);
    assert port in c.ports <==> port in Elems(c.ports);
    var a, n := BytesBits(addr), BytesBits(c.key.network);
    forall d | d in dests && d.Cidr?
      ensures Contains(Key(d.network, d.len), c.key) <==> InPrefix(addr, d.network, d.len)
    {
      ContainsIsPrefix(Key(d.network, d.len), c.key);
      if d.len <= c.key.len && |d.network| == |addr| {
        assert a[..d.len] == a[..c.key.len][..d.len] && n[..d.len] == n[..c.key.len][..d.len];
      }
    }
    if SomeCidr(dests, addr, port) {
      var d :| d in dests && d.Cidr? && Covers(d, addr, port);
      assert d.port in FoldedPorts(dests, c.key);
    }
    if port in FoldedPorts(dests, c.key) {
      var d :| d in dests && d.Cidr? && Contains(Key(d.network, d.len), c.key) && d.port == port;
      assert Covers(d, addr, port);
    }
  }

  /** A listed prefix around the address has an entry on the lookup path. */
  lemma ListedIsOnPath(
      trie: Trie, cg: nat, dests: seq<Destination>, cidrs: seq<CidrAllow>, addr: Octets, d: Destination)
    requires cg < TWO64 && AllNormalised(dests) && Merged(dests, cidrs) && Lengths(cidrs)
    requires d in dests && d.Cidr? && InPrefix(addr, d.network, d.len)
    ensures TrieKey(|addr|, LookupKey(cg, addr)[..CGROUP_BITS + d.len]) in WithCidrs(trie, cg, cidrs, |cidrs|)
  {
    var k := Key(d.network, d.len);
    assert Listed(dests, k);
    var c :| c in cidrs && c.key == k;
    EntryOnPath(cg, k, addr);
    WithCidrsHas(trie, cg, cidrs, |cidrs|, EntryKey(cg, k));
    assert cidrs[..|cidrs|] == cidrs;
  }

  lemma TrieLookupIsUnion(
      exact: Exact, trie: Trie, cg: nat, dests: seq<Destination>, cidrs: seq<CidrAllow>, addr: Octets, port: nat)
    requires cg < TWO64 && WfTrie(trie) && NoEntries(exact, trie, cg)
    requires AllNormalised(dests) && Merged(dests, cidrs) && Lengths(cidrs)
    requires WfTrie(WithCidrs(trie, cg, cidrs, |cidrs|))
    ensures var t := WithCidrs(trie, cg, cidrs, |cidrs|);
      var key := LookupKey(cg, addr);
      var hit := LongestPrefix(t, |addr|, key, |key|);
      (hit.Some? && AllowsPort(t[TrieKey(|addr|, key[..hit.value])], port)) <==> SomeCidr(dests, addr, port)
  {
    var t := WithCidrs(trie, cg, cidrs, |cidrs|);
    var key := LookupKey(cg, addr);
    var hit := LongestPrefix(t, |addr|, key, |key|);
    forall d | d in dests && d.Cidr? && InPrefix(addr, d.network, d.len)
      ensures hit.Some? && CGROUP_BITS + d.len <= hit.value
    {
      ListedIsOnPath(trie, cg, dests, cidrs, addr, d);
    }
    if hit.Some? {
      var k := TrieKey(|addr|, key[..hit.value]);
      WithCidrsHas(trie, cg, cidrs, |cidrs|, k);
      assert k.prefix[..CGROUP_BITS] == CgroupKey(cg);
      var c :| c in cidrs && EntryKey(cg, c.key) == k && ToValue(c.ports) == t[k];
      PathIsEntry(cg, c.key, addr, hit.value);
      ValueAllowsItsPorts(c.ports, port);
      LongestCarriesUnion(dests, cidrs, c, addr, port);
    }
  }

  /**
   Once a cgroup's destinations are merged and written, the hook's exact lookup
   and single longest-prefix lookup allow an address and port exactly when some
   listed destination does.
   */
  lemma AllowedIsUnion(
      exact: Exact, trie: Trie, cg: nat, dests: seq<Destination>, cidrs: seq<CidrAllow>, addr: Octets, port: nat)
    requires cg < TWO64 && WfTrie(trie) && NoEntries(exact, trie, cg)
    requires AllNormalised(dests) && Merged(dests, cidrs)
    ensures Lengths(cidrs) && WfTrie(WithCidrs(trie, cg, cidrs, |cidrs|))
    ensures Allowed(WithExact(exact, cg, dests, |dests|), WithCidrs(trie, cg, cidrs, |cidrs|), cg, addr, port)
        <==> Permits(dests, addr, port)
  {
    MergedLengths(dests, cidrs);
    WithCidrsWf(trie, cg, cidrs);
    WithExactHas(exact, cg, dests, |dests|, ExactKey(cg, addr, port));
    assert dests[..|dests|] == dests;
    TrieLookupIsUnion(exact, trie, cg, dests, cidrs, addr, port);
    assert Permits(dests, addr, port) <==> Ip(addr, port) in dests || SomeCidr(dests, addr, port) by {
      if Ip(addr, port) in dests { assert Covers(Ip(addr, port), addr, port); }
    }
  }

  /** Writing one cgroup's destinations changes no other cgroup's answers. */
  lemma OtherCgroupsKeepTheirAnswers(exact: Exact, trie: Trie, cg: nat, dests: seq<Destination>, cidrs: seq<CidrAllow>,
                                     other: nat, addr: Octets, port: nat)
    requires cg < TWO64 && other < TWO64 && other != cg && WfTrie(trie) && Lengths(cidrs)
    ensures WfTrie(WithCidrs(trie, cg, cidrs, |cidrs|))
    ensures Allowed(WithExact(exact, cg, dests, |dests|), WithCidrs(trie, cg, cidrs, |cidrs|), other, addr, port)
        <==> Allowed(exact, trie, other, addr, port)
  {
    WithCidrsWf(trie, cg, cidrs);
    WithExactHas(exact, cg, dests, |dests|, ExactKey(other, addr, port));
    var t := WithCidrs(trie, cg, cidrs, |cidrs|);
    var key := LookupKey(other, addr);
    if CgroupKey(cg) == CgroupKey(other) { CgroupKeyInjective(cg, other); }
    forall j | 0 <= j <= |key|
      ensures var k := TrieKey(|addr|, key[..j]); (k in t <==> k in trie) && (k in t ==> t[k] == trie[k])
    {
      var k := TrieKey(|addr|, key[..j]);
      WithCidrsHas(trie, cg, cidrs, |cidrs|, k);
      if k in t && j >= CGROUP_BITS { assert k.prefix[..CGROUP_BITS] == CgroupKey(other); }
    }
    SameLookup(trie, t, |addr|, key, |key|);
  }

  lemma {:induction false} SameLookup(a: Trie, b: Trie, width: nat, key: Bits, n: nat)
    requires n <= |key|
    requires forall j :: 0 <= j <= |key| ==> (TrieKey(width, key[..j]) in a <==> TrieKey(width, key[..j]) in b)
    ensures LongestPrefix(a, width, key, n) == LongestPrefix(b, width, key, n)
  {
    if TrieKey(width, key[..n]) !in a && n > 0 { SameLookup(a, b, width, key, n - 1); }
  }

  lemma DropKeepsOthers(exact: Exact, trie: Trie, cg: nat, other: nat, addr: Octets, port: nat)
    requires cg < TWO64 && other < TWO64 && other != cg && WfTrie(trie)
    ensures WfTrie(DropTrie(trie, cg))
    ensures Allowed(DropExact(exact, cg), DropTrie(trie, cg), other, addr, port)
       <==> Allowed(exact, trie, other, addr, port)
  {
    var t := DropTrie(trie, cg);
    var key := LookupKey(other, addr);
    if CgroupKey(cg) == CgroupKey(other) { CgroupKeyInjective(cg, other); }
    forall j | 0 <= j <= |key| ensures TrieKey(|addr|, key[..j]) in t <==> TrieKey(|addr|, key[..j]) in trie {
      if j >= CGROUP_BITS { assert key[..j][..CGROUP_BITS] == CgroupKey(other); }
    }
    SameLookup(trie, t, |addr|, key, |key|);
  }

  class KernelMaps {
    var exact: Exact
    var trie: Trie

    constructor ()
      ensures exact == map[] && trie == map[]
    {
      exact, trie := map[], map[];
    }

    /** write_egress_destinations, when no map write fails. */
    method WriteDestinations(cg: nat, dests: seq<Destination>, cidrs: seq<CidrAllow>)
      requires cg < TWO64 && Lengths(cidrs)
      modifies this
      ensures exact == WithExact(old(exact), cg, dests, |dests|)
      ensures trie == WithCidrs(old(trie), cg, cidrs, |cidrs|)
    {
      for i := 0 to |dests|
        invariant exact == WithExact(old(exact), cg, dests, i) && trie == old(trie)
      {
        if dests[i].Ip? { exact := exact[ExactKey(cg, dests[i].addr, dests[i].port) := 1]; }
      }
      for i := 0 to |cidrs|
        invariant exact == WithExact(old(exact), cg, dests, |dests|) && trie == WithCidrs(old(trie), cg, cidrs, i)
      {
        trie := trie[EntryKey(cg, cidrs[i].key) := ToValue(cidrs[i].ports)];
      }
    }

    /**
     reprogram_cgroup_egress: merge, clear the cgroup's old entries, write the
     new ones. Afterwards the cgroup may reach exactly what its list permits. A
     list that cannot be merged changes nothing, and no other cgroup notices.
     */
    method Reprogram(cg: nat, dests: seq<Destination>) returns (ok: bool)
      requires cg < TWO64 && WfTrie(trie) && AllNormalised(dests)
      modifies this
      ensures WfTrie(trie)
      ensures ok <==> Mergeable(dests)
      ensures !ok ==> exact == old(exact) && trie == old(trie)
      ensures ok ==> forall addr, port :: Allowed(exact, trie, cg, addr, port) <==> Permits(dests, addr, port)
      ensures forall other, addr, port | 0 <= other < TWO64 && other != cg ::
                Allowed(exact, trie, other, addr, port) <==> Allowed(old(exact), old(trie), other, addr, port)
    {
      var merged := MergeCidrPorts(dests);
      if merged.Err? { return false; }
      ghost var exact0, trie0 := exact, trie;
      exact, trie := DropExact(exact, cg), DropTrie(trie, cg);
      ghost var exact1, trie1 := exact, trie;
      MergedLengths(dests, merged.value);
      WithCidrsWf(trie1, cg, merged.value);
      WriteDestinations(cg, dests, merged.value);
      forall addr, port ensures Allowed(exact, trie, cg, addr, port) <==> Permits(dests, addr, port) {
        AllowedIsUnion(exact1, trie1, cg, dests, merged.value, addr, port);
      }
      forall other, addr, port | 0 <= other < TWO64 && other != cg
        ensures Allowed(exact, trie, other, addr, port) <==> Allowed(exact0, trie0, other, addr, port)
      {
        DropKeepsOthers(exact0, trie0, cg, other, addr, port);
        OtherCgroupsKeepTheirAnswers(exact1, trie1, cg, dests, merged.value, other, addr, port);
      }
      return true;
    }
  }
}
