/**
 Userspace's half of the egress allowlist: folding the ports of enclosing
 prefixes into every more-specific one, because a longest-prefix lookup answers
 with a single entry.
 */
module EgressMerge {
  import opened Common
  import opened EgressBits

  const MAX_CIDR_PORTS: nat := 8

  /** The octets of an address in network order: 4 of them, or 16. */
  type Octets = seq<byte>

  datatype Destination =
    | Ip(addr: Octets, port: nat)
    | Cidr(network: Octets, len: nat, port: nat)

  datatype Key = Key(network: Octets, len: nat)

  /** One trie entry after merging; its ports are sorted and distinct. */
  datatype CidrAllow = CidrAllow(key: Key, ports: seq<nat>)

  datatype Error = TooManyCidrPorts

  // ------------------------------------------------------------ what an allowlist means

  predicate InPrefix(addr: Octets, network: Octets, len: nat) {
    |addr| == |network| && len <= 8 * |addr| && BytesBits(addr)[..len] == BytesBits(network)[..len]
  }

  predicate Covers(d: Destination, addr: Octets, port: nat) {
    d.port == port && match d case Ip(a, _) => a == addr case Cidr(network, len, _) => InPrefix(addr, network, len)
  }

  /** Some entry of the list allows this address and port: the union the tries stand for. */
  predicate Permits(dests: seq<Destination>, addr: Octets, port: nat) {
    exists d :: d in dests && Covers(d, addr, port)
  }

  // ------------------------------------------------------------ prefixes

  /** Parsing refuses a network with host bits set. */
  predicate Normalised(k: Key) {
    k.len <= 8 * |k.network| && forall i :: k.len <= i < 8 * |k.network| ==> !BytesBits(k.network)[i]
  }

  predicate AllNormalised(dests: seq<Destination>) {
    forall d :: d in dests && d.Cidr? ==> Normalised(Key(d.network, d.len))
  }

  /** cidr_contains: the inner network, masked to the outer length, equals the outer network. */
  predicate Contains(outer: Key, inner: Key) {
    && outer.len <= inner.len
    && |outer.network| == |inner.network|
    && forall i :: 0 <= i < 8 * |outer.network| ==>
         (BytesBits(inner.network)[i] && i < outer.len) == BytesBits(outer.network)[i]
  }

  lemma ContainsIsPrefix(outer: Key, inner: Key)
    requires Normalised(outer) && Normalised(inner)
    ensures Contains(outer, inner) <==> outer.len <= inner.len && InPrefix(inner.network, outer.network, outer.len)
  {
    if outer.len <= inner.len && InPrefix(inner.network, outer.network, outer.len) {
      var a, b := BytesBits(inner.network), BytesBits(outer.network);
      forall i | 0 <= i < |b| ensures (a[i] && i < outer.len) == b[i] {
        if i < outer.len { assert a[i] == a[..outer.len][i] == b[..outer.len][i] == b[i]; }
      }
    }
  }

  // ------------------------------------------------------------ ports

  function Elems(s: seq<nat>): set<nat> {
    set p | p in s
  }

  predicate StrictlySorted(s: seq<nat>) {
    forall i, j :: 0 <= i < j < |s| ==> s[i] < s[j]
  }

  function Insert(s: seq<nat>, p: nat): seq<nat> {
    if s == [] then [p]
    else if p < s[0] then [p] + s
    else if p == s[0] then s
    else [s[0]] + Insert(s[1..], p)
  }

  lemma {:induction false} InsertMembers(s: seq<nat>, p: nat)
    ensures forall x :: x in Insert(s, p) <==> x in s || x == p
  {
    if s != [] {
      assert s == [s[0]] + s[1..];
      if p > s[0] { InsertMembers(s[1..], p); }
    }
  }

  lemma SortedTail(s: seq<nat>)
    requires s != [] && StrictlySorted(s)
    ensures StrictlySorted(s[1..]) && forall y :: y in s[1..] ==> s[0] < y
  {
    forall y | y in s[1..] ensures s[0] < y {
      var i :| 0 <= i < |s| - 1 && s[1..][i] == y;
      assert s[i + 1] == y;
    }
  }

  lemma SortedCons(x: nat, s: seq<nat>)
    requires StrictlySorted(s) && forall y :: y in s ==> x < y
    ensures StrictlySorted([x] + s)
  {
    var r := [x] + s;
    forall i, j | 0 <= i < j < |r| ensures r[i] < r[j] {
      assert r[j] == s[j - 1] && s[j - 1] in s;
    }
  }

  lemma {:induction false} InsertSorts(s: seq<nat>, p: nat)
    requires StrictlySorted(s)
    ensures StrictlySorted(Insert(s, p))
  {
    if s != [] {
      SortedTail(s);
      assert s == [s[0]] + s[1..];
      if p < s[0] {
        SortedCons(p, s);
      } else if p > s[0] {
        InsertSorts(s[1..], p);
        InsertMembers(s[1..], p);
        SortedCons(s[0], Insert(s[1..], p));
      }
    }
  }

  /** sort_unstable then dedup. */
  method SortDedup(ports: seq<nat>) returns (r: seq<nat>)
    ensures StrictlySorted(r) && Elems(r) == Elems(ports)
  {
    r := [];
    for i := 0 to |ports|
      invariant StrictlySorted(r) && Elems(r) == Elems(ports[..i])
    {
      assert ports[..i + 1] == ports[..i] + [ports[i]];
      InsertSorts(r, ports[i]);
      InsertMembers(r, ports[i]);
      assert Elems(Insert(r, ports[i])) == Elems(r) + {ports[i]};
      r := Insert(r, ports[i]);
    }
    assert ports[..|ports|] == ports;
  }

  lemma {:induction false} SortedCardinality(s: seq<nat>)
    requires StrictlySorted(s)
    ensures |Elems(s)| == |s|
  {
    if s != [] {
      SortedCardinality(s[1..]);
      assert s[0] !in Elems(s[1..]);
      assert Elems(s) == {s[0]} + Elems(s[1..]);
    }
  }

  // ------------------------------------------------------------ the merge

  predicate Listed(dests: seq<Destination>, k: Key) {
    exists d :: d in dests && d.Cidr? && Key(d.network, d.len) == k
  }

  function OwnPorts(dests: seq<Destination>, k: Key): set<nat> {
    set d | d in dests && d.Cidr? && Key(d.network, d.len) == k :: d.port
  }

  /** The ports of every listed prefix that contains k, k itself included. */
  function FoldedPorts(dests: seq<Destination>, k: Key): set<nat> {
    set d | d in dests && d.Cidr? && Contains(Key(d.network, d.len), k) :: d.port
  }

  ghost predicate Grouped(dests: seq<Destination>, groups: map<Key, seq<nat>>, keys: seq<Key>) {
    && (forall k :: k in keys <==> k in groups)
    && (forall k :: k in groups <==> Listed(dests, k))
    && (forall k :: k in groups ==> Elems(groups[k]) == OwnPorts(dests, k))
  }

  method GroupPorts(dests: seq<Destination>) returns (groups: map<Key, seq<nat>>, keys: seq<Key>)
    ensures Grouped(dests, groups, keys)
  {
    groups, keys := map[], [];
    for i := 0 to |dests|
      invariant Grouped(dests[..i], groups, keys)
    {
      var d := dests[i];
      assert dests[..i + 1] == dests[..i] + [d];
      if d.Cidr? {
        GroupMore(dests[..i], d, groups, keys);
        var k := Key(d.network, d.len);
        if k in groups {
          groups := groups[k := groups[k] + [d.port]];
        } else {
          keys := keys + [k];
          groups := groups[k := [d.port]];
        }
      } else {
        GroupSame(dests[..i], d, groups, keys);
      }
    }
    assert dests[..|dests|] == dests;
  }

  lemma GroupSame(before: seq<Destination>, d: Destination, groups: map<Key, seq<nat>>, keys: seq<Key>)
    requires Grouped(before, groups, keys) && d.Ip?
    ensures Grouped(before + [d], groups, keys)
  {
    forall k: Key ensures OwnPorts(before + [d], k) == OwnPorts(before, k) {}
    forall k: Key ensures Listed(before + [d], k) <==> Listed(before, k) {
      if Listed(before, k) {
        var e :| e in before && e.Cidr? && Key(e.network, e.len) == k;
        assert e in before + [d];
      }
    }
  }

  lemma GroupMore(before: seq<Destination>, d: Destination, groups: map<Key, seq<nat>>, keys: seq<Key>)
    requires Grouped(before, groups, keys) && d.Cidr?
    ensures var k := Key(d.network, d.len);
      if k in groups then Grouped(before + [d], groups[k := groups[k] + [d.port]], keys)
      else Grouped(before + [d], groups[k := [d.port]], keys + [k])
  {
    var k := Key(d.network, d.len);
    assert d in before + [d];
    forall j: Key ensures OwnPorts(before + [d], j) == OwnPorts(before, j) + if j == k then {d.port} else {} {
      forall e | e in before ensures e in before + [d] {}
    }
    forall j: Key ensures Listed(before + [d], j) <==> Listed(before, j) || j == k {
      if Listed(before, j) {
        var e :| e in before && e.Cidr? && Key(e.network, e.len) == j;
        assert e in before + [d];
      }
    }
    if k !in groups { assert OwnPorts(before, k) == {}; }
  }

  /** The ports folded into k from its own group and the first n other keys that contain it. */
  function FoldUpTo(groups: map<Key, seq<nat>>, keys: seq<Key>, k: Key, n: nat): set<nat>
    requires n <= |keys| && k in groups && forall j :: j in keys ==> j in groups
  {
    if n == 0 then Elems(groups[k])
    else
      var more := if keys[n - 1] != k && Contains(keys[n - 1], k) then Elems(groups[keys[n - 1]]) else {};
      FoldUpTo(groups, keys, k, n - 1) + more
  }

  lemma {:induction false} FoldUpToMembers(groups: map<Key, seq<nat>>, keys: seq<Key>, k: Key, n: nat, p: nat)
    requires n <= |keys| && k in groups && forall j :: j in keys ==> j in groups
    ensures p in FoldUpTo(groups, keys, k, n) <==>
      p in groups[k] || exists i :: 0 <= i < n && keys[i] != k && Contains(keys[i], k) && p in groups[keys[i]]
  {
    if n > 0 { FoldUpToMembers(groups, keys, k, n - 1, p); }
  }

  lemma FoldIsComplete(dests: seq<Destination>, groups: map<Key, seq<nat>>, keys: seq<Key>, k: Key)
    requires Grouped(dests, groups, keys) && AllNormalised(dests) && k in groups
    ensures FoldUpTo(groups, keys, k, |keys|) == FoldedPorts(dests, k)
  {
    assert Normalised(k) by { assert Listed(dests, k); }
    assert Contains(k, k);
    forall p: nat ensures p in FoldUpTo(groups, keys, k, |keys|) <==> p in FoldedPorts(dests, k) {
      FoldUpToMembers(groups, keys, k, |keys|, p);
      if p in FoldedPorts(dests, k) {
        var d :| d in dests && d.Cidr? && Contains(Key(d.network, d.len), k) && d.port == p;
        var j := Key(d.network, d.len);
        assert Listed(dests, j) && p in OwnPorts(dests, j) && p in Elems(groups[j]);
        var i :| 0 <= i < |keys| && keys[i] == j;
      }
      if p in groups[k] { assert p in Elems(groups[k]) && p in OwnPorts(dests, k); }
      if i :| 0 <= i < |keys| && keys[i] != k && Contains(keys[i], k) && p in groups[keys[i]] {
        assert keys[i] in keys && p in Elems(groups[keys[i]]) && p in OwnPorts(dests, keys[i]);
      }
    }
  }

  /** Every entry carries exactly the ports of all the prefixes around it, and every listed prefix has an entry. */
  ghost predicate Merged(dests: seq<Destination>, cidrs: seq<CidrAllow>) {
    && (forall c :: c in cidrs ==>
          Listed(dests, c.key) && |c.ports| <= MAX_CIDR_PORTS && Elems(c.ports) == FoldedPorts(dests, c.key))
    && (forall k :: Listed(dests, k) ==> exists c :: c in cidrs && c.key == k)
  }

  /** No listed prefix ends up with more than eight distinct ports, its own and those of the prefixes around it. */
  ghost predicate Mergeable(dests: seq<Destination>) {
    forall k :: Listed(dests, k) ==> |FoldedPorts(dests, k)| <= MAX_CIDR_PORTS
  }

  method MergeCidrPorts(dests: seq<Destination>) returns (r: Result<seq<CidrAllow>, Error>)
    requires AllNormalised(dests)
    ensures r.Ok? ==> Merged(dests, r.value) && forall c :: c in r.value ==> StrictlySorted(c.ports)
    ensures r.Ok? <==> Mergeable(dests)
  {
    var groups, keys := GroupPorts(dests);
    var merged: seq<CidrAllow> := [];
    for i := 0 to |keys|
      invariant MergedUpTo(dests, keys, merged, i)
    {
      var k := keys[i];
      var ports := MergePorts(dests, groups, keys, k);
      if |ports| > MAX_CIDR_PORTS {
        assert Listed(dests, k);
        return Err(TooManyCidrPorts);
      }
      merged := merged + [CidrAllow(k, ports)];
    }
    AllMerged(dests, groups, keys, merged);
    return Ok(merged);
  }

  /** The ports one listed prefix ends up with. */
  method MergePorts(ghost dests: seq<Destination>, groups: map<Key, seq<nat>>, keys: seq<Key>, k: Key)
    returns (ports: seq<nat>)
    requires Grouped(dests, groups, keys) && AllNormalised(dests) && k in groups
    ensures StrictlySorted(ports) && Elems(ports) == FoldedPorts(dests, k) && |ports| == |FoldedPorts(dests, k)|
  {
    ports := FoldPorts(groups, keys, k);
    FoldIsComplete(dests, groups, keys, k);
    SortedCardinality(ports);
  }

  /** The first n keys have their entries. */
  ghost predicate MergedUpTo(dests: seq<Destination>, keys: seq<Key>, merged: seq<CidrAllow>, n: nat) {
    && |merged| == n <= |keys|
    && forall j :: 0 <= j < n ==> MergedTo(dests, keys[j], merged[j])
  }

  predicate MergedTo(dests: seq<Destination>, k: Key, c: CidrAllow) {
    && c.key == k && StrictlySorted(c.ports) && |c.ports| <= MAX_CIDR_PORTS
    && Elems(c.ports) == FoldedPorts(dests, k)
  }

  lemma AllMerged(dests: seq<Destination>, groups: map<Key, seq<nat>>, keys: seq<Key>, merged: seq<CidrAllow>)
    requires Grouped(dests, groups, keys) && MergedUpTo(dests, keys, merged, |keys|)
    ensures Merged(dests, merged) && forall c :: c in merged ==> StrictlySorted(c.ports)
    ensures Mergeable(dests)
  {
    forall k | Listed(dests, k)
      ensures |FoldedPorts(dests, k)| <= MAX_CIDR_PORTS && exists c :: c in merged && c.key == k
    {
      var i :| 0 <= i < |keys| && keys[i] == k;
      assert MergedTo(dests, keys[i], merged[i]) && merged[i] in merged;
      SortedCardinality(merged[i].ports);
    }
    forall c | c in merged ensures Listed(dests, c.key) && MergedTo(dests, c.key, c) {
      var j :| 0 <= j < |merged| && merged[j] == c;
      assert MergedTo(dests, keys[j], merged[j]) && keys[j] in groups;
    }
  }

  /** The limit is reached: nine ports on one prefix, and the list cannot be merged. */
  lemma NinePortsAreTooMany()
    ensures var dests := seq(9, i requires 0 <= i < 9 => Cidr([10, 0, 0, 1], 32, i + 1));
      AllNormalised(dests) && !Mergeable(dests)
  {
    var dests: seq<Destination> := seq(9, i requires 0 <= i < 9 => Cidr([10, 0, 0, 1], 32, i + 1));
    ManyPorts(dests, Key([10, 0, 0, 1], 32), seq(9, i requires 0 <= i < 9 => i + 1));
  }

  lemma ManyPorts(dests: seq<Destination>, k: Key, ports: seq<nat>)
    requires |dests| == |ports| > 0 && StrictlySorted(ports) && k.len == 8 * |k.network|
    requires forall i :: 0 <= i < |ports| ==> dests[i] == Cidr(k.network, k.len, ports[i])
    ensures Listed(dests, k) && |FoldedPorts(dests, k)| == |ports|
  {
    assert dests[0] in dests && Contains(k, k);
    forall p ensures p in FoldedPorts(dests, k) <==> p in Elems(ports) {
      if p in Elems(ports) {
        var i :| 0 <= i < |ports| && ports[i] == p;
        assert dests[i] in dests;
      }
    }
    assert FoldedPorts(dests, k) == Elems(ports);
    SortedCardinality(ports);
  }

  /** One key's ports: its own group extended by every other group that contains it, sorted and deduplicated. */
  method FoldPorts(groups: map<Key, seq<nat>>, keys: seq<Key>, k: Key) returns (r: seq<nat>)
    requires k in groups && forall j :: j in keys ==> j in groups
    ensures StrictlySorted(r) && Elems(r) == FoldUpTo(groups, keys, k, |keys|)
  {
    var ports := groups[k];
    for i := 0 to |keys|
      invariant Elems(ports) == FoldUpTo(groups, keys, k, i)
    {
      if keys[i] != k && Contains(keys[i], k) {
        ports := ports + groups[keys[i]];
      }
    }
    r := SortDedup(ports);
  }
}
