/**
 Domain names in a query: the label sequences of section 3.1 of RFC 1035, and the
 answerer's single flat loop that hashes one while looking for its end.
 */
module DnsName {
  import opened Common

  const DNS_HEADER_LEN: nat := 12
  const MAX_NAME_OCTETS: nat := 80
  const FNV_OFFSET: bv32 := 2166136261
  const FNV_PRIME: bv32 := 16777619

  type Label = seq<byte>

  /** One to sixty-three octets each; the root's zero octet is written separately. */
  predicate IsName(labels: seq<Label>) {
    forall l :: l in labels ==> 1 <= |l| <= 63
  }

  /** Length octet, label, and so on, without the closing zero octet. */
  function LabelWire(labels: seq<Label>): seq<byte>
    requires IsName(labels)
  {
    if labels == [] then [] else [|labels[0]| as byte] + labels[0] + LabelWire(labels[1..])
  }

  function Wire(labels: seq<Label>): (w: seq<byte>)
    requires IsName(labels)
    ensures |w| > 0
  {
    LabelWire(labels) + [0]
  }

  // ------------------------------------------------------------ case and hashing

  function Lower(c: byte): byte {
    if 65 <= c <= 90 then c + 32 else c
  }

  function LowerAll(b: seq<byte>): (r: seq<byte>)
    ensures |r| == |b|
  {
    seq(|b|, i requires 0 <= i < |b| => Lower(b[i]))
  }

  function FnvStep(h: bv32, octet: byte): bv32 {
    Mix(h, octet, FNV_PRIME)
  }

  function Mix(h: bv32, octet: byte, prime: bv32): bv32 {
    (h ^ (octet as bv32)) * prime
  }

  function Fnv(h: bv32, b: seq<byte>): bv32
    decreases |b|
  {
    if b == [] then h else Fnv(FnvStep(h, b[0]), b[1..])
  }

  /** The map key of a name: the hash of its lower-case wire octets. */
  function NameKey(labels: seq<Label>): bv32
    requires IsName(labels)
  {
    Fnv(FNV_OFFSET, LowerAll(LabelWire(labels)))
  }

  lemma {:induction false} FnvSnoc(h: bv32, b: seq<byte>, x: byte)
    ensures Fnv(h, b + [x]) == FnvStep(Fnv(h, b), x)
    decreases |b|
  {
    if b == [] {
      assert [x][1..] == [] && b + [x] == [x];
    } else {
      assert (b + [x])[0] == b[0] && (b + [x])[1..] == b[1..] + [x];
      FnvSnoc(FnvStep(h, b[0]), b[1..], x);
    }
  }

  /** FNV-1a with a given offset and prime, octet after octet from the left, in 32-bit arithmetic. */
  function Fnv1a(offset: bv32, prime: bv32, b: seq<byte>): bv32 {
    if b == [] then offset else Mix(Fnv1a(offset, prime, b[..|b| - 1]), b[|b| - 1], prime)
  }

  lemma {:induction false} FnvIs(offset: bv32, b: seq<byte>)
    ensures Fnv(offset, b) == Fnv1a(offset, FNV_PRIME, b)
  {
    if b != [] {
      var front, last := b[..|b| - 1], b[|b| - 1];
      FnvIs(offset, front);
      FnvSnoc(offset, front, last);
      assert b == front + [last];
    }
  }

  /** A name's key is FNV-1a over its wire octets without the last, letters taken as small ones. */
  lemma NameKeyIs(labels: seq<Label>)
    requires IsName(labels)
    ensures NameKey(labels) == Fnv1a(0x811C9DC5, 0x01000193, LowerAll(Wire(labels)[..|Wire(labels)| - 1]))
  {
    FnvIs(FNV_OFFSET, LowerAll(LabelWire(labels)));
    assert Wire(labels)[..|Wire(labels)| - 1] == LabelWire(labels);
  }

  /** The hash's published test vector for "a". */
  lemma Fnv1aOfA()
    ensures Fnv1a(0x811C9DC5, 0x01000193, [97]) == 0xE40C292C
  {
    var a: byte := 97;
    assert a as bv32 == 97;
    assert [a][..0] == [];
  }

  // ------------------------------------------------------------ where a name ends

  /**
   The loop's own progress: reading octets one at a time with a countdown, the
   name closes after exactly n octets.
   */
  predicate ClosesAfter(b: seq<byte>, remaining: nat, n: nat)
    decreases |b|
  {
    if b == [] then false
    else if remaining > 0 then n > 0 && ClosesAfter(b[1..], remaining - 1, n - 1)
    else if b[0] == 0 then n == 1
    else b[0] <= 63 && n > 0 && ClosesAfter(b[1..], b[0] as nat, n - 1)
  }

  lemma {:induction false} ClosesAtOneLength(b: seq<byte>, remaining: nat, m: nat, n: nat)
    requires ClosesAfter(b, remaining, m) && ClosesAfter(b, remaining, n)
    ensures m == n && 0 < m <= |b|
    decreases |b|
  {
    if remaining > 0 { ClosesAtOneLength(b[1..], remaining - 1, m - 1, n - 1); }
    else if b[0] != 0 { ClosesAtOneLength(b[1..], b[0] as nat, m - 1, n - 1); }
  }

  /** Skipping a label: the countdown passes over r octets whatever they are. */
  lemma {:induction false} SkipLabel(b: seq<byte>, r: nat, n: nat)
    requires r <= |b|
    ensures ClosesAfter(b, r, n) <==> n >= r && ClosesAfter(b[r..], 0, n - r)
    decreases r
  {
    if r == 0 {
      assert b[0..] == b;
    } else if n > 0 {
      SkipLabel(b[1..], r - 1, n - 1);
      assert b[1..][r - 1..] == b[r..];
    }
  }

  /** Taking the first label off a wire-form name. */
  lemma WireHead(b: seq<byte>, labels: seq<Label>)
    requires IsName(labels) && labels != [] && Wire(labels) <= b
    ensures var l, rest := labels[0], labels[1..];
      && IsName(rest) && |Wire(labels)| == 1 + |l| + |Wire(rest)| && 1 + |l| < |b|
      && b[0] == |l| as byte && b[1..1 + |l|] == l && Wire(rest) <= b[1 + |l|..]
  {
    var l, rest, w := labels[0], labels[1..], Wire(labels);
    assert IsName(rest);
    assert w == [|l| as byte] + l + Wire(rest);
    assert b[..|w|] == w;
    assert b[1..1 + |l|] == w[1..1 + |l|];
    assert b[1 + |l|..][..|Wire(rest)|] == b[1 + |l|..|w|] == w[1 + |l|..];
  }

  /** A wire-form name at the front of b is what the countdown recognises. */
  lemma {:induction false} WireCloses(b: seq<byte>, labels: seq<Label>)
    requires IsName(labels) && Wire(labels) <= b
    ensures ClosesAfter(b, 0, |Wire(labels)|)
    decreases |labels|
  {
    if labels == [] {
      assert b[0] == Wire(labels)[0] == 0;
    } else {
      var l, rest := labels[0], labels[1..];
      WireHead(b, labels);
      WireCloses(b[1 + |l|..], rest);
      assert b[1..][|l|..] == b[1 + |l|..];
      SkipLabel(b[1..], |l|, |Wire(labels)| - 1);
    }
  }

  /** And everything the countdown recognises is a wire-form name. */
  lemma {:induction false} ClosesIsWire(b: seq<byte>, n: nat) returns (labels: seq<Label>)
    requires ClosesAfter(b, 0, n)
    ensures IsName(labels) && n <= |b| && b[..n] == Wire(labels)
    decreases |b|
  {
    if b[0] == 0 {
      labels := [];
      assert b[..1] == [0];
    } else {
      var r := b[0] as nat;
      CountdownFits(b[1..], r, n - 1);
      SkipLabel(b[1..], r, n - 1);
      var l, tail := b[1..1 + r], b[1 + r..];
      assert b[1..][r..] == tail;
      var rest := ClosesIsWire(tail, n - 1 - r);
      labels := [l] + rest;
      WireOfCons(l, rest);
      CutLabel(b, r, n);
    }
  }

  lemma WireOfCons(l: Label, rest: seq<Label>)
    requires 1 <= |l| <= 63 && IsName(rest)
    ensures IsName([l] + rest) && Wire([l] + rest) == [|l| as byte] + l + Wire(rest)
  {
    assert ([l] + rest)[1..] == rest;
  }

  lemma CutLabel(b: seq<byte>, r: nat, n: nat)
    requires 1 + r <= n <= |b|
    ensures b[..n] == [b[0]] + b[1..1 + r] + b[1 + r..][..n - 1 - r]
  {}

  lemma {:induction false} CountdownFits(b: seq<byte>, r: nat, n: nat)
    requires ClosesAfter(b, r, n)
    ensures r < |b|
    decreases |b|
  {
    if r > 0 { CountdownFits(b[1..], r - 1, n - 1); }
  }

  // ------------------------------------------------------------ hash_qname

  /** An uncompressed name at offset 12, at most 80 octets long, with its type and class inside the message. */
  ghost predicate Accepts(dns: seq<byte>, labels: seq<Label>) {
    && IsName(labels)
    && |dns| >= DNS_HEADER_LEN
    && Wire(labels) <= dns[DNS_HEADER_LEN..]
    && |Wire(labels)| <= 80
    && DNS_HEADER_LEN + |Wire(labels)| + 4 <= |dns|
  }

  /**
   hash_qname over a message wholly inside the packet: the end of the question
   and the name's key, or -1. It accepts exactly the uncompressed names of at
   most 80 octets that leave room for the question's type and class.
   */
  method HashQname(dns: seq<byte>) returns (end: int, key: bv32)
    ensures end == -1 || 0 <= end <= |dns|
    ensures end == -1 <==> !exists labels :: Accepts(dns, labels)
    ensures forall labels :: Accepts(dns, labels) ==>
      end == DNS_HEADER_LEN + |Wire(labels)| + 4 && key == NameKey(labels)
  {
    var pos, hash, remaining := DNS_HEADER_LEN, FNV_OFFSET, 0;
    if |dns| < DNS_HEADER_LEN { return -1, 0; }
    ghost var name := dns[DNS_HEADER_LEN..];
    var i := 0;
    assert name[..0] == [] && name[0..] == name;
    while i < MAX_NAME_OCTETS
      invariant 0 <= i <= MAX_NAME_OCTETS && pos == DNS_HEADER_LEN + i <= |dns|
      invariant hash == HashTo(name, i)
      invariant Reading(name, i, remaining)
      decreases MAX_NAME_OCTETS - i
    {
      if pos >= |dns| {
        ReadingStuck(name, i, remaining);
        NoneAccepted(dns, name);
        return -1, 0;
      }
      var octet := dns[pos];
      assert octet == name[i];
      HashOctet(name, i);
      pos := pos + 1;
      if remaining == 0 {
        if octet == 0 {
          ReadingCloses(name, i);
          end, key := CloseName(dns, name, i, hash);
          return;
        }
        if octet > 63 {
          ReadingStuck(name, i, remaining);
          NoneAccepted(dns, name);
          return -1, 0;
        }
        ReadingStep(name, i, remaining);
        remaining := octet as nat;
        hash := FnvStep(hash, octet);
      } else {
        ReadingStep(name, i, remaining);
        hash := FnvStep(hash, Lower(octet));
        remaining := remaining - 1;
      }
      i := i + 1;
    }
    NoneAccepted(dns, name);
    return -1, 0;
  }

  /** After i octets no name has closed yet, and what is left decides where one does. */
  ghost predicate Reading(name: seq<byte>, i: nat, remaining: nat) {
    && i <= |name|
    && (forall n: nat :: n <= i ==> !ClosesAfter(name, 0, n))
    && (forall n: nat :: n > i ==> (ClosesAfter(name, 0, n) <==> ClosesAfter(name[i..], remaining, n - i)))
  }

  lemma ReadingStep(name: seq<byte>, i: nat, remaining: nat)
    requires Reading(name, i, remaining) && i < |name| && (remaining > 0 || 0 < name[i] <= 63)
    ensures Reading(name, i + 1, if remaining > 0 then remaining - 1 else name[i] as nat)
  {
    assert name[i..][0] == name[i] && name[i..][1..] == name[i + 1..];
    assert !ClosesAfter(name[i..], remaining, 1) by {
      if ClosesAfter(name[i..], remaining, 1) {
        ClosesAtOneLength(name[i + 1..], if remaining > 0 then remaining - 1 else name[i] as nat, 0, 0);
      }
    }
    assert !ClosesAfter(name, 0, i + 1);
  }

  lemma ReadingCloses(name: seq<byte>, i: nat)
    requires Reading(name, i, 0) && i < |name| && name[i] == 0
    ensures ClosesAfter(name, 0, i + 1)
  {
    assert name[i..][0] == name[i];
    assert ClosesAfter(name[i..], 0, 1);
  }

  lemma ReadingStuck(name: seq<byte>, i: nat, remaining: nat)
    requires Reading(name, i, remaining) && (i == |name| || (remaining == 0 && name[i] > 63))
    ensures forall n: nat :: !ClosesAfter(name, 0, n)
  {
    if i < |name| { assert name[i..][0] == name[i]; }
    forall n: nat | n > i ensures !ClosesAfter(name, 0, n) { assert !ClosesAfter(name[i..], remaining, n - i); }
  }

  /** The hash of the first i octets. */
  function HashTo(name: seq<byte>, i: nat): bv32
    requires i <= |name|
  {
    Fnv(FNV_OFFSET, LowerAll(name[..i]))
  }

  lemma HashOctet(name: seq<byte>, i: nat)
    requires i < |name|
    ensures HashTo(name, i + 1) == FnvStep(HashTo(name, i), Lower(name[i]))
  {
    assert LowerAll(name[..i + 1]) == LowerAll(name[..i]) + [Lower(name[i])];
    FnvSnoc(FNV_OFFSET, LowerAll(name[..i]), Lower(name[i]));
  }

  lemma NoneAccepted(dns: seq<byte>, name: seq<byte>)
    requires |dns| >= DNS_HEADER_LEN && name == dns[DNS_HEADER_LEN..]
    requires forall n: nat :: n <= MAX_NAME_OCTETS ==> !ClosesAfter(name, 0, n)
    ensures !exists labels :: Accepts(dns, labels)
  {
    forall labels | Accepts(dns, labels) ensures false { WireCloses(name, labels); }
  }

  /** The name has closed at octet i: accept it if the question's four more octets are there. */
  method CloseName(dns: seq<byte>, ghost name: seq<byte>, i: nat, hash: bv32) returns (end: int, key: bv32)
    requires |dns| >= DNS_HEADER_LEN && name == dns[DNS_HEADER_LEN..] && i < |name| && i < MAX_NAME_OCTETS
    requires ClosesAfter(name, 0, i + 1) && hash == HashTo(name, i)
    ensures end == -1 || 0 <= end <= |dns|
    ensures end == -1 <==> !exists labels :: Accepts(dns, labels)
    ensures forall labels :: Accepts(dns, labels) ==>
      end == DNS_HEADER_LEN + |Wire(labels)| + 4 && key == NameKey(labels)
  {
    var pos := DNS_HEADER_LEN + i + 1;
    forall labels | Accepts(dns, labels)
      ensures |Wire(labels)| == i + 1 && hash == NameKey(labels)
    {
      WireCloses(name, labels);
      ClosesAtOneLength(name, 0, i + 1, |Wire(labels)|);
      assert name[..i] == Wire(labels)[..i] == LabelWire(labels);
    }
    if pos + 4 > |dns| { return -1, 0; }
    ghost var labels := ClosesIsWire(name, i + 1);
    assert Accepts(dns, labels);
    return pos + 4, hash;
  }

  // ------------------------------------------------------------ case does not matter

  function LowerName(labels: seq<Label>): (r: seq<Label>)
    ensures |r| == |labels| && (IsName(labels) ==> IsName(r))
  {
    seq(|labels|, i requires 0 <= i < |labels| => LowerAll(labels[i]))
  }

  lemma LowerConcat(a: seq<byte>, b: seq<byte>)
    ensures LowerAll(a + b) == LowerAll(a) + LowerAll(b)
  {}

  lemma LowerLabel(l: Label, rest: seq<byte>)
    requires |l| <= 63
    ensures LowerAll([|l| as byte] + l + rest) == [|l| as byte] + LowerAll(l) + LowerAll(rest)
  {
    var head := [|l| as byte];
    assert LowerAll(head) == head;
    LowerConcat(head + l, rest);
    LowerConcat(head, l);
  }

  lemma {:induction false} LowerWire(labels: seq<Label>)
    requires IsName(labels)
    ensures LowerAll(LabelWire(labels)) == LabelWire(LowerName(labels))
    decreases |labels|
  {
    if labels != [] {
      LowerWire(labels[1..]);
      assert LowerName(labels)[1..] == LowerName(labels[1..]);
      LowerLabel(labels[0], LabelWire(labels[1..]));
    }
  }

  /** The same octet, or an ASCII letter and its other case. */
  predicate SameUpToCase(x: byte, y: byte) {
    x == y || (0x41 <= x <= 0x5A && y == x + 0x20) || (0x41 <= y <= 0x5A && x == y + 0x20)
  }

  lemma LowerIs(x: byte, y: byte)
    ensures Lower(x) == Lower(y) <==> SameUpToCase(x, y)
    ensures Lower(x) == x || Lower(x) as int == x as int + 0x20
  {}

  predicate SameLabel(a: Label, b: Label) {
    |a| == |b| && forall i :: 0 <= i < |a| ==> SameUpToCase(a[i], b[i])
  }

  predicate SameName(a: seq<Label>, b: seq<Label>) {
    |a| == |b| && forall i :: 0 <= i < |a| ==> SameLabel(a[i], b[i])
  }

  lemma SameLabelLower(a: Label, b: Label)
    requires SameLabel(a, b)
    ensures LowerAll(a) == LowerAll(b)
  {
    forall i | 0 <= i < |a| ensures Lower(a[i]) == Lower(b[i]) { LowerIs(a[i], b[i]); }
  }

  /** Names equal up to ASCII case, as section 2.3.3 of RFC 1035 compares them, have one key. */
  lemma CaseDoesNotMatter(a: seq<Label>, b: seq<Label>)
    requires IsName(a) && IsName(b) && SameName(a, b)
    ensures NameKey(a) == NameKey(b)
  {
    forall i | 0 <= i < |a| ensures LowerAll(a[i]) == LowerAll(b[i]) { SameLabelLower(a[i], b[i]); }
    assert LowerName(a) == LowerName(b);
    LowerWire(a);
    LowerWire(b);
  }
}
