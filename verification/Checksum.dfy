/**
 The Internet checksum of section 1 of RFC 1071, as the DNS answerer computes it
 in unsigned 32-bit arithmetic, against the end-around-carry sum it stands for.
 */
module Checksum {
  import opened Common

  const MAX_DNS_LEN: nat := 256
  const DNS_ANSWER_LEN: nat := 16
  const UDP_HEADER_LEN: nat := 8
  const IPPROTO_UDP: nat := 17
  const MAX_UDP_LEN: nat := MAX_DNS_LEN + UDP_HEADER_LEN + DNS_ANSWER_LEN

  // ------------------------------------------------------------ the reference sum

  /** One's complement addition of two 16-bit words: the carry comes round. */
  function OnesAdd(a: nat, b: nat): nat {
    if a + b >= TWO16 then a + b - TWO16 + 1 else a + b
  }

  /** The big-endian word at i; a last odd byte is padded with zero. */
  function Word(b: seq<byte>, i: nat): (w: nat)
    requires i < |b|
    ensures w < TWO16
  {
    256 * b[i] as nat + if i + 1 < |b| then b[i + 1] as nat else 0
  }

  function OnesSum(b: seq<byte>, i: nat := 0): (s: nat)
    ensures s < TWO16
    decreases |b| - i
  {
    if i >= |b| then 0 else OnesAdd(Word(b, i), OnesSum(b, i + 2))
  }

  // ------------------------------------------------------------ residues

  /** The 16-bit one's complement value a plain sum stands for; only 0 stands for 0. */
  function Oc(s: nat): (r: nat)
    ensures r < TWO16 && (s < TWO16 ==> r == s) && (r == 0 <==> s == 0)
  {
    if s == 0 then 0 else (s - 1) % 0xFFFF + 1
  }

  lemma OcAdd(a: nat, b: nat)
    ensures Oc(a + b) == OnesAdd(Oc(a), Oc(b))
  {}

  /** (sum & 0xffff) + (sum >> 16) */
  function Fold(s: nat): nat {
    s % TWO16 + s / TWO16
  }

  lemma FoldKeepsOc(s: nat)
    ensures Oc(Fold(s)) == Oc(s)
  {
    assert s == Fold(s) + 0xFFFF * (s / TWO16);
    OcMultiple(Fold(s), s / TWO16);
  }

  lemma {:induction false} OcMultiple(a: nat, k: nat)
    requires a > 0 || k == 0
    ensures Oc(a + 0xFFFF * k) == Oc(a)
  {
    if k > 0 { OcMultiple(a, k - 1); }
  }

  function WordSum(b: seq<byte>, i: nat := 0): nat
    decreases |b| - i
  {
    if i >= |b| then 0 else Word(b, i) + WordSum(b, i + 2)
  }

  /** A last odd byte counts as if a zero byte followed. */
  lemma {:induction false} OddByteIsPadded(b: seq<byte>, i: nat)
    requires |b| % 2 == 1 && i % 2 == 0 && i <= |b| + 1
    ensures WordSum(b, i) == WordSum(b + [0], i)
    decreases |b| + 1 - i
  {
    if i < |b| { OddByteIsPadded(b, i + 2); }
  }

  lemma {:induction false} OnesSumIsOc(b: seq<byte>, i: nat)
    ensures OnesSum(b, i) == Oc(WordSum(b, i))
    decreases |b| - i
  {
    if i < |b| {
      OnesSumIsOc(b, i + 2);
      OcAdd(Word(b, i), WordSum(b, i + 2));
    }
  }

  /** fold_checksum: two folds are enough for any 32-bit sum, and what they leave is the end-around-carry sum. */
  function FoldChecksum(sum: nat): (c: nat)
    requires sum < TWO32
    ensures Fold(Fold(sum)) < TWO16 && c == 0xFFFF - Oc(sum)
  {
    FoldKeepsOc(sum);
    FoldKeepsOc(Fold(sum));
    0xFFFF - Fold(Fold(sum))
  }

  // ------------------------------------------------------------ IPv4

  /** The sum of the words before i. */
  function WordSumTo(b: seq<byte>, i: nat): nat
    requires i < |b| + 2 && i % 2 == 0
  {
    if i == 0 then 0 else WordSumTo(b, i - 2) + Word(b, i - 2)
  }

  lemma {:induction false} WordSumSplit(b: seq<byte>, i: nat)
    requires i % 2 == 0 && i < |b| + 2
    ensures WordSum(b, 0) == WordSumTo(b, i) + WordSum(b, i)
  {
    if i > 0 { WordSumSplit(b, i - 2); }
  }

  /** ipv4_checksum over the twenty header bytes at the front of what is left of the packet. */
  method Ipv4Checksum(ip: seq<byte>) returns (c: nat)
    ensures |ip| < 20 ==> c == 0
    ensures |ip| >= 20 ==> c == 0xFFFF - OnesSum(ip[..20])
  {
    if |ip| < 20 { return 0; }
    var h := ip[..20];
    var sum, i := 0, 0;
    while i < 20
      invariant 0 <= i <= 20 && i % 2 == 0
      invariant sum == WordSumTo(h, i) && sum <= 0x8000 * i
    {
      sum := (sum + Word(h, i)) % TWO32;
      i := i + 2;
    }
    WordSumSplit(h, 20);
    OnesSumIsOc(h, 0);
    c := FoldChecksum(sum);
  }

  // ------------------------------------------------------------ storing a checksum

  /** The bytes with a 16-bit value stored big-endian at i. */
  function Store16(b: seq<byte>, i: nat, v: nat): seq<byte>
    requires i + 1 < |b| && v < TWO16
  {
    b[i := (v / 256) as byte][i + 1 := (v % 256) as byte]
  }

  lemma {:induction false} StoreAddsWord(b: seq<byte>, i: nat, v: nat, j: nat)
    requires i + 1 < |b| && v < TWO16 && i % 2 == 0 && j % 2 == 0 && Word(b, i) == 0
    ensures WordSum(Store16(b, i, v), j) == WordSum(b, j) + if j <= i then v else 0
    decreases |b| - j
  {
    if j < |b| { StoreAddsWord(b, i, v, j + 2); }
  }

  /** What a receiver checks: adding the stored complement of a sum gives all ones. */
  lemma ComplementCompletes(sum: nat, c: nat)
    requires c == 0xFFFF - Oc(sum) || (Oc(sum) == 0xFFFF && c == 0xFFFF)
    ensures Oc(sum + c) == 0xFFFF
  {
    OcAdd(sum, c);
  }

  /** A header whose checksum field held zero sums to 0xffff once its checksum is stored. */
  lemma Ipv4ChecksumVerifies(h: seq<byte>)
    requires |h| == 20 && Word(h, 10) == 0
    ensures OnesSum(Store16(h, 10, 0xFFFF - OnesSum(h))) == 0xFFFF
  {
    var c := 0xFFFF - OnesSum(h);
    OnesSumIsOc(h, 0);
    OnesSumIsOc(Store16(h, 10, c), 0);
    StoreAddsWord(h, 10, c, 0);
    ComplementCompletes(WordSum(h), c);
  }

  // ------------------------------------------------------------ UDP

  /** The pseudo-header of RFC 768: both addresses, the protocol and the length. */
  function PseudoSum(src: seq<byte>, dst: seq<byte>, udpLen: nat): nat
    requires |src| == 4 && |dst| == 4
  {
    Word(src, 0) + Word(src, 2) + Word(dst, 0) + Word(dst, 2) + IPPROTO_UDP + udpLen
  }

  /** Its twelve bytes, as they would stand in front of the datagram. */
  lemma PseudoHeaderIs(src: seq<byte>, dst: seq<byte>, udpLen: nat)
    requires |src| == 4 && |dst| == 4 && udpLen < TWO16
    ensures PseudoSum(src, dst, udpLen) ==
      WordSum(src + dst + [0, 17, (udpLen / 256) as byte, (udpLen % 256) as byte])
  {
    var b := src + dst + [0, 17, (udpLen / 256) as byte, (udpLen % 256) as byte];
    assert WordSum(b, 12) == 0;
    assert Word(b, 10) == udpLen && Word(b, 8) == 17;
    assert Word(b, 6) == Word(dst, 2) && Word(b, 4) == Word(dst, 0);
    assert Word(b, 2) == Word(src, 2) && Word(b, 0) == Word(src, 0);
    assert WordSum(b, 8) == Word(b, 8) + (Word(b, 10) + WordSum(b, 12));
    assert WordSum(b, 4) == Word(b, 4) + (Word(b, 6) + WordSum(b, 8));
    assert WordSum(b, 0) == Word(b, 0) + (Word(b, 2) + WordSum(b, 4));
  }

  /** The datagram runs past the packet or the program's bound, or has odd length and ends exactly at the packet end. */
  predicate GivesUp(room: nat, udpLen: nat) {
    udpLen > room || udpLen > MAX_UDP_LEN || (udpLen % 2 == 1 && udpLen == room)
  }

  /** At an even offset inside the datagram: is it its last, odd byte, and the packet's last too? */
  lemma EndsAtPacketEnd(i: nat, room: nat, udpLen: nat)
    requires i % 2 == 0 && i < udpLen <= room && udpLen <= MAX_UDP_LEN
    ensures i + 1 >= room ==> GivesUp(room, udpLen)
    ensures i + 1 < room && i + 2 >= udpLen ==> !GivesUp(room, udpLen)
    ensures (i + 2) % 2 == 0
  {}

  /**
   udp_checksum, `p` being everything from the UDP header to the packet end. It
   answers 0, RFC 768's "no checksum", exactly when it gives up.
   */
  method UdpChecksum(src: seq<byte>, dst: seq<byte>, p: seq<byte>, udpLen: nat) returns (c: nat)
    requires |src| == 4 && |dst| == 4
    ensures c < TWO16
    ensures c == 0 <==> udpLen > |p| || udpLen > 280 || (udpLen % 2 == 1 && udpLen == |p|)
    ensures c != 0 ==>
      var total := Oc(PseudoSum(src, dst, udpLen) + WordSum(p[..udpLen]));
      c == if total == 0xFFFF then 0xFFFF else 0xFFFF - total
  {
    if udpLen > |p| || udpLen > MAX_UDP_LEN { return 0; }
    var b := p[..udpLen];
    ghost var pseudo := PseudoSum(src, dst, udpLen);
    var sum := Word(src, 0) + Word(src, 2) + Word(dst, 0) + Word(dst, 2);
    sum := sum + IPPROTO_UDP + udpLen;
    var i := 0;
    while i < MAX_UDP_LEN
      invariant 0 <= i <= MAX_UDP_LEN && i % 2 == 0 && i < udpLen + 2
      invariant 0 <= sum < 0x8_0000 && Oc(sum) == Oc(pseudo + WordSumTo(b, i))
      invariant i >= udpLen ==> !GivesUp(|p|, udpLen)
      decreases MAX_UDP_LEN - i
    {
      if i >= udpLen { break; }
      EndsAtPacketEnd(i, |p|, udpLen);
      if i + 1 >= |p| { return 0; }
      var word := 256 * p[i] as nat;
      if i + 1 < udpLen { word := word + p[i + 1] as nat; }
      assert word == Word(b, i);
      OcStep(sum, pseudo + WordSumTo(b, i), word);
      sum := AddWord(sum, word);
      i := i + 2;
    }
    WordSumSplit(b, i);
    assert WordSum(b, i) == 0;
    var answer := FoldChecksum(sum);
    return if answer == 0 then 0xFFFF else answer;
  }

  /** A 32-bit addition, then one fold. */
  function AddWord(sum: nat, word: nat): nat {
    Fold((sum + word) % TWO32)
  }

  lemma OcCongruent(a: nat, b: nat, word: nat)
    requires Oc(a) == Oc(b)
    ensures Oc(a + word) == Oc(b + word)
  {
    OcAdd(a, word);
    OcAdd(b, word);
  }

  lemma NoWrap(s: nat)
    requires s < 0x9_0000
    ensures s % TWO32 == s && Fold(s) < 0x8_0000
  {}

  lemma OcStep(sum: nat, total: nat, word: nat)
    requires Oc(sum) == Oc(total) && sum < 0x8_0000 && word < TWO16
    ensures AddWord(sum, word) < 0x8_0000 && Oc(AddWord(sum, word)) == Oc(total + word)
  {
    NoWrap(sum + word);
    FoldKeepsOc(sum + word);
    OcCongruent(sum, total, word);
  }

  /** A datagram whose checksum field held zero verifies once a nonzero checksum is stored. */
  lemma UdpChecksumVerifies(src: seq<byte>, dst: seq<byte>, d: seq<byte>, c: nat)
    requires |src| == 4 && |dst| == 4 && |d| >= UDP_HEADER_LEN && Word(d, 6) == 0
    requires var total := Oc(PseudoSum(src, dst, |d|) + WordSum(d));
      c == if total == 0xFFFF then 0xFFFF else 0xFFFF - total
    ensures Oc(PseudoSum(src, dst, |d|) + WordSum(Store16(d, 6, c))) == 0xFFFF
  {
    StoreAddsWord(d, 6, c, 0);
    ComplementCompletes(PseudoSum(src, dst, |d|) + WordSum(d), c);
  }
}
