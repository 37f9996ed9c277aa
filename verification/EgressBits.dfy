/**
 Addresses and longest-prefix-match keys as bit strings, most significant bit
 first. A trie key is the cgroup id, big-endian, followed by the address octets;
 only its leading `prefixlen` bits are compared.
 */
module EgressBits {
  import opened Common

  type Bits = seq<bool>

  const TWO64: nat := 0x1_0000_0000_0000_0000
  const CGROUP_BITS: nat := 64

  function Pow(base: nat, n: nat): nat {
    if n == 0 then 1 else base * Pow(base, n - 1)
  }

  /** The n low bits of x, most significant first. */
  function NumBits(x: nat, n: nat): (s: Bits)
    ensures |s| == n
  {
    if n == 0 then [] else NumBits(x / 2, n - 1) + [x % 2 == 1]
  }

  /** The n low bytes of x, most significant first. */
  function BeBytes(x: nat, n: nat): (s: seq<byte>)
    ensures |s| == n
  {
    if n == 0 then [] else BeBytes(x / 256, n - 1) + [(x % 256) as byte]
  }

  lemma {:induction false} NumBitsInjective(x: nat, y: nat, n: nat)
    requires x < Pow(2, n) && y < Pow(2, n) && NumBits(x, n) == NumBits(y, n)
    ensures x == y
  {
    if n > 0 {
      var s, t := NumBits(x, n), NumBits(y, n);
      assert s[..n - 1] == NumBits(x / 2, n - 1) && t[..n - 1] == NumBits(y / 2, n - 1);
      assert s[n - 1] == (x % 2 == 1) && t[n - 1] == (y % 2 == 1);
      NumBitsInjective(x / 2, y / 2, n - 1);
    }
  }

  lemma {:induction false} BeBytesInjective(x: nat, y: nat, n: nat)
    requires x < Pow(256, n) && y < Pow(256, n) && BeBytes(x, n) == BeBytes(y, n)
    ensures x == y
  {
    if n > 0 {
      var s, t := BeBytes(x, n), BeBytes(y, n);
      assert s[..n - 1] == BeBytes(x / 256, n - 1) && t[..n - 1] == BeBytes(y / 256, n - 1);
      assert s[n - 1] == (x % 256) as byte && t[n - 1] == (y % 256) as byte;
      BeBytesInjective(x / 256, y / 256, n - 1);
    }
  }

  function BytesBits(bytes: seq<byte>): (s: Bits)
    ensures |s| == 8 * |bytes|
  {
    if bytes == [] then [] else NumBits(bytes[0] as nat, 8) + BytesBits(bytes[1..])
  }

  lemma {:induction false} BytesBitsInjective(a: seq<byte>, b: seq<byte>)
    requires |a| == |b| && BytesBits(a) == BytesBits(b)
    ensures a == b
  {
    if a != [] {
      var x, y := NumBits(a[0] as nat, 8), NumBits(b[0] as nat, 8);
      assert x == BytesBits(a)[..8] == BytesBits(b)[..8] == y;
      assert Pow(2, 8) == 256 by { assert Pow(2, 4) == 16; }
      NumBitsInjective(a[0] as nat, b[0] as nat, 8);
      assert BytesBits(a[1..]) == BytesBits(a)[8..] == BytesBits(b)[8..] == BytesBits(b[1..]);
      BytesBitsInjective(a[1..], b[1..]);
      assert a == [a[0]] + a[1..] && b == [b[0]] + b[1..];
    }
  }

  /** fill_cgroup_be: the eight bytes of the id, cg >> 56 first and the low byte last, as bits. */
  function CgroupKey(cg: nat): (s: Bits)
    requires cg < TWO64
    ensures |s| == CGROUP_BITS
  {
    BytesBits(BeBytes(cg, 8))
  }

  /** Two cgroups never share the first 64 bits of a trie key. */
  lemma CgroupKeyInjective(a: nat, b: nat)
    requires a < TWO64 && b < TWO64 && CgroupKey(a) == CgroupKey(b)
    ensures a == b
  {
    BytesBitsInjective(BeBytes(a, 8), BeBytes(b, 8));
    assert Pow(256, 8) == TWO64 by { assert Pow(256, 4) == 0x1_0000_0000; }
    BeBytesInjective(a, b, 8);
  }
}
