/**
 The TC program: recognise a bounded IPv4/UDP A query, and turn the packet in
 place into its answer. The packet is Ethernet (14 bytes), IPv4 (20), UDP (8),
 then the DNS message; each header is rewritten as its own view of the buffer.
 */
module DnsAnswer {
  import opened Common
  import opened Checksum
  import opened DnsName
  import opened DnsMessage

  const IP_AT: nat := 14
  const UDP_AT: nat := 34
  const DNS_AT: nat := 42
  const DNS_PORT: nat := 53
  const TTL: nat := 30

  type Ipv4 = a: seq<byte> | |a| == 4 witness [0, 0, 0, 0]

  function U16(v: nat): (b: seq<byte>)
    requires v < TWO16
    ensures |b| == 2 && Word(b, 0) == v
  {
    [(v / 256) as byte, (v % 256) as byte]
  }

  // ------------------------------------------------------------ recognising a query

  /** The header checks, in the program's order. */
  predicate Headers(p: seq<byte>) {
    && |p| >= UDP_AT
    && Word(p, 12) == 0x0800 && p[23] == 17                    // ETH_P_IP, UDP
    && p[14] % 16 == 5 && Word(p, 20) % 0x4000 == 0            // no options, not a fragment
    && |p| >= DNS_AT && Word(p, 36) == DNS_PORT
    && UDP_HEADER_LEN + DNS_HEADER_LEN + 5 <= Word(p, 38) <= UDP_HEADER_LEN + MAX_DNS_LEN
    && UDP_AT + Word(p, 38) <= |p|
    && Word(p, 46) == 1 && Word(p, 48) == 0                    // one question, no answer
    && Word(p, 44) / 0x800 == 0                                // a standard query
  }

  /** The same, byte by byte: IPv4 without options or fragments, UDP to port 53, a length between one question's and 256
      bytes of DNS that the packet holds, and an unanswered standard query with one question. */
  lemma HeadersAre(p: seq<byte>)
    ensures Headers(p) <==>
      && |p| >= 42 && p[12] == 8 && p[13] == 0 && p[14] % 16 == 5 && p[20] % 64 == 0 && p[21] == 0 && p[23] == 17
      && p[36] == 0 && p[37] == 53
      && 25 <= 256 * p[38] as nat + p[39] as nat <= 264 && 34 + 256 * p[38] as nat + p[39] as nat <= |p|
      && p[44] < 8 && p[46] == 0 && p[47] == 1 && p[48] == 0 && p[49] == 0
  {
    if |p| >= 50 {
      WordIs(p[12], p[13], 8, 0);
      WordIs(p[36], p[37], 0, 53);
      WordIs(p[46], p[47], 0, 1);
      WordIs(p[48], p[49], 0, 0);
      FragmentBits(p[20], p[21]);
      OpcodeBits(p[44], p[45]);
    }
  }

  lemma FragmentBits(a: byte, b: byte)
    ensures (256 * a as nat + b as nat) % 0x4000 == 0 <==> a % 64 == 0 && b == 0
  {
    var q, r := a as nat / 64, a as nat % 64;
    assert 256 * a as nat + b as nat == 0x4000 * q + (256 * r + b as nat);
  }

  lemma OpcodeBits(a: byte, b: byte)
    ensures (256 * a as nat + b as nat) / 0x800 == 0 <==> a < 8
  {}

  lemma WordIs(a: byte, b: byte, x: byte, y: byte)
    ensures 256 * a as nat + b as nat == 256 * x as nat + y as nat <==> a == x && b == y
  {}

  /** The DNS message: what the UDP length says follows the UDP header. */
  function DnsOf(p: seq<byte>): (m: seq<byte>)
    requires Headers(p)
    ensures DNS_HEADER_LEN + 5 <= |m| <= MAX_DNS_LEN
  {
    p[DNS_AT..UDP_AT + Word(p, 38)]
  }

  predicate AsksForA(dns: seq<byte>, end: nat)
    requires 4 <= end <= |dns|
  {
    dns[end - 4..end] == [0, 1, 0, 1]
  }

  function QuestionEnd(labels: seq<Label>): nat
    requires IsName(labels)
  {
    DNS_HEADER_LEN + |Wire(labels)| + 4
  }

  /** The packet asks for the A record of a name the service map knows. */
  ghost predicate Answerable(p: seq<byte>, services: map<bv32, Ipv4>, labels: seq<Label>) {
    && Headers(p) && Accepts(DnsOf(p), labels)
    && AsksForA(DnsOf(p), QuestionEnd(labels)) && NameKey(labels) in services
  }

  // ------------------------------------------------------------ the answer

  /** flags | 0x8400: QR and AA; the query check left QR clear. */
  function SetQrAa(flags: nat): (f: nat)
    requires flags < 0x800
    ensures f < TWO16
  {
    if flags / 0x400 % 2 == 1 then flags + 0x8000 else flags + 0x8400
  }

  function ARecord(vip: Ipv4): (r: seq<byte>)
    ensures |r| == DNS_ANSWER_LEN
  {
    [0xC0, 0x0C, 0, 1, 0, 1, 0, 0, 0, TTL as byte, 0, 4] + vip
  }

  function DnsReply(dns: seq<byte>, end: nat, vip: Ipv4): (m: seq<byte>)
    requires DNS_HEADER_LEN <= end <= |dns| && Word(dns, 2) < 0x800
    ensures |m| == end + DNS_ANSWER_LEN
  {
    dns[..2] + U16(SetQrAa(Word(dns, 2))) + dns[4..6] + U16(1) + dns[8..10] + U16(0)
      + dns[DNS_HEADER_LEN..end] + ARecord(vip)
  }

  /** The IPv4 header with its addresses swapped, its length set and its checksum zero. */
  function IpBare(ip: seq<byte>, total: nat): (h: seq<byte>)
    requires |ip| == 20 && total < TWO16
    ensures |h| == 20 && Word(h, 10) == 0
  {
    ip[..2] + U16(total) + ip[4..10] + [0, 0] + ip[16..20] + ip[12..16]
  }

  function IpReply(ip: seq<byte>, total: nat): (h: seq<byte>)
    requires |ip| == 20 && total < TWO16
    ensures |h| == 20
  {
    var bare := IpBare(ip, total);
    Store16(bare, 10, 0xFFFF - OnesSum(bare))
  }

  /** The UDP header with its ports swapped, its length set and its checksum zero. */
  function UdpBare(udp: seq<byte>, len: nat): (h: seq<byte>)
    requires |udp| == 8 && len < TWO16
    ensures |h| == 8 && Word(h, 6) == 0
  {
    udp[2..4] + udp[..2] + U16(len) + [0, 0]
  }

  /** RFC 768's complement of the sum over pseudo-header and datagram; "no checksum" for an odd length. */
  function UdpCheck(src: seq<byte>, dst: seq<byte>, d: seq<byte>): (c: nat)
    requires |src| == 4 && |dst| == 4
    ensures c < TWO16
  {
    var total := Oc(PseudoSum(src, dst, |d|) + WordSum(d));
    if |d| % 2 == 1 then 0 else if total == 0xFFFF then 0xFFFF else 0xFFFF - total
  }

  function SwapMacs(eth: seq<byte>): seq<byte>
    requires |eth| == IP_AT
  {
    eth[6..12] + eth[..6] + eth[12..14]
  }

  datatype Parts = Parts(eth: seq<byte>, ip: seq<byte>, udp: seq<byte>, dns: seq<byte>)
  {
    predicate Valid() {
      |eth| == 14 && |ip| == 20 && |udp| == 8
    }

    function Bytes(): seq<byte> {
      eth + ip + udp + dns
    }
  }

  /** The query's headers turned round in front of a DNS message. */
  function TurnedRound(eth: seq<byte>, ip: seq<byte>, udp: seq<byte>, dns: seq<byte>): (r: Parts)
    requires |eth| == 14 && |ip| == 20 && |udp| == 8 && |dns| <= MAX_DNS_LEN + DNS_ANSWER_LEN
    ensures r.Valid() && r.dns == dns
  {
    var len := UDP_HEADER_LEN + |dns|;
    var ip' := IpReply(ip, 20 + len);
    var udp' := UdpBare(udp, len);
    Parts(SwapMacs(eth), ip', Store16(udp', 6, UdpCheck(ip'[12..16], ip'[16..20], udp' + dns)), dns)
  }

  function ReplyParts(p: seq<byte>, end: nat, vip: Ipv4): (r: Parts)
    requires Headers(p) && DNS_HEADER_LEN <= end <= |DnsOf(p)|
    ensures r.Valid() && |r.dns| == end + DNS_ANSWER_LEN
  {
    TurnedRound(p[..IP_AT], p[IP_AT..UDP_AT], p[UDP_AT..DNS_AT], DnsReply(DnsOf(p), end, vip))
  }

  function Reply(p: seq<byte>, end: nat, vip: Ipv4): seq<byte>
    requires Headers(p) && DNS_HEADER_LEN <= end <= |DnsOf(p)|
  {
    ReplyParts(p, end, vip).Bytes()
  }

  // ------------------------------------------------------------ the program

  /** Everything the program decides before it touches the packet: the question's end and the address to answer. */
  method Recognise(p: seq<byte>, services: map<bv32, Ipv4>) returns (r: Option<(nat, Ipv4)>)
    ensures r.None? <==> !exists labels :: Answerable(p, services, labels)
    ensures r.Some? ==> Headers(p) && DNS_HEADER_LEN <= r.value.0 <= |DnsOf(p)|
    ensures forall labels :: r.Some? && Answerable(p, services, labels) ==>
      r.value == (QuestionEnd(labels), services[NameKey(labels)])
  {
    if !Headers(p) { return None; }
    var dns := DnsOf(p);
    var end, key := HashQname(dns);
    if end < 0 || end > |dns| { return None; }
    OneQuestion(p, services, end, key);
    if !AsksForA(dns, end) { return None; }
    if key !in services { return None; }
    var at: nat := end;
    return Some((at, services[key]));
  }

  /** The one name the packet spells out decides whether it can be answered. */
  lemma OneQuestion(p: seq<byte>, services: map<bv32, Ipv4>, end: nat, key: bv32)
    requires Headers(p) && exists labels :: Accepts(DnsOf(p), labels)
    requires forall labels :: Accepts(DnsOf(p), labels) ==> end == QuestionEnd(labels) && key == NameKey(labels)
    ensures DNS_HEADER_LEN + 4 <= end <= |DnsOf(p)|
    ensures (exists labels :: Answerable(p, services, labels)) <==> AsksForA(DnsOf(p), end) && key in services
    ensures forall labels :: Answerable(p, services, labels) ==> QuestionEnd(labels) == end && NameKey(labels) == key
  {
    var labels :| Accepts(DnsOf(p), labels);
    if AsksForA(DnsOf(p), end) && key in services { assert Answerable(p, services, labels); }
  }

  datatype Act = PassOn | Shot | Redirect

  class Skb {
    var data: seq<byte>

    constructor (data: seq<byte>)
      ensures this.data == data
    {
      this.data := data;
    }

    /** bpf_skb_change_tail: cut the packet, or extend it with zeros. */
    method ChangeTail(n: nat)
      modifies this
      ensures |data| == n
      ensures forall i :: 0 <= i < n && i < |old(data)| ==> data[i] == old(data)[i]
    {
      data := if n <= |data| then data[..n] else data + seq(n - |data|, _ => 0 as byte);
    }

    method StoreBytes(at: nat, bytes: seq<byte>)
      requires at + |bytes| <= |data|
      modifies this
      ensures data == old(data)[..at] + bytes + old(data)[at + |bytes|..]
    {
      data := data[..at] + bytes + data[at + |bytes|..];
    }

    /**
     dns_tc_ingress. `tailFails` and `storeFails` are the two helper calls that
     can fail once the packet has been recognised. Any other packet passes
     untouched; a recognised one becomes its reply.
     */
    method Ingress(services: map<bv32, Ipv4>, tailFails: bool, storeFails: bool) returns (act: Act)
      modifies this
      ensures act == PassOn <==> !exists labels :: Answerable(old(data), services, labels)
      ensures act == PassOn ==> data == old(data)
      ensures act == Redirect ==> !tailFails && !storeFails
      ensures act == Shot ==> tailFails || storeFails
      ensures act == Redirect ==> forall labels :: Answerable(old(data), services, labels) ==>
        data == Reply(old(data), QuestionEnd(labels), services[NameKey(labels)])
    {
      var found := Recognise(data, services);
      if found.None? { return PassOn; }
      var (end, vip) := found.value;
      if tailFails { return Shot; }
      ChangeTail(DNS_AT + end + DNS_ANSWER_LEN);
      if storeFails { return Shot; }
      StoreBytes(DNS_AT + end, ARecord(vip));
      assert data == old(data)[..DNS_AT + end] + ARecord(vip);
      Rewrite(old(data), end, vip);
      return Redirect;
    }

    /** The header rewrite after the answer record is in place; `query` is the packet as it arrived. */
    method Rewrite(ghost query: seq<byte>, end: nat, vip: Ipv4)
      requires Headers(query) && DNS_HEADER_LEN <= end <= |DnsOf(query)|
      requires data == query[..DNS_AT + end] + ARecord(vip)
      modifies this
      ensures data == Reply(query, end, vip)
    {
      var eth, ip, udp, dns := data[..IP_AT], data[IP_AT..UDP_AT], data[UDP_AT..DNS_AT], data[DNS_AT..];
      QueryViews(query, end, vip);
      DnsStores(DnsOf(query), end, vip);
      dns := Store16(dns, 2, SetQrAa(Word(dns, 2)));
      dns := Store16(dns, 6, 1);
      dns := Store16(dns, 10, 0);
      var parts := TurnRound(eth, ip, udp, dns);
      data := parts.Bytes();
    }
  }

  /** Swap every address pair, set the lengths, then store the two checksums. */
  method TurnRound(eth: seq<byte>, ip: seq<byte>, udp: seq<byte>, dns: seq<byte>) returns (r: Parts)
    requires |eth| == 14 && |ip| == 20 && |udp| == 8 && |dns| <= MAX_DNS_LEN + DNS_ANSWER_LEN
    ensures r == TurnedRound(eth, ip, udp, dns)
  {
    var len := UDP_HEADER_LEN + |dns|;
    var udp' := SwapUdp(udp, len);
    var ip' := TurnIp(ip, 20 + len, udp' + dns);
    udp' := StoreUdpChecksum(ip', udp', dns);
    r := Parts(SwapMacs(eth), ip', udp', dns);
  }

  /** Swap the addresses, set the total length, clear the checksum. */
  method SwapIp(ip: seq<byte>, total: nat) returns (r: seq<byte>)
    requires |ip| == 20 && total < TWO16
    ensures r == IpBare(ip, total)
  {
    IpStores(ip, total);
    r := ip[..12] + ip[16..20] + ip[12..16];
    r := Store16(r, 2, total);
    r := Store16(r, 10, 0);
  }

  /** The whole IPv4 header of the reply; `rest` is what follows it in the packet. */
  method TurnIp(ip: seq<byte>, total: nat, rest: seq<byte>) returns (r: seq<byte>)
    requires |ip| == 20 && total < TWO16
    ensures r == IpReply(ip, total)
  {
    r := SwapIp(ip, total);
    r := StoreIpChecksum(r, rest);
  }

  /** Swap the ports, set the length, clear the checksum. */
  method SwapUdp(udp: seq<byte>, len: nat) returns (r: seq<byte>)
    requires |udp| == 8 && len < TWO16
    ensures r == UdpBare(udp, len)
  {
    UdpStores(udp, len);
    r := udp[2..4] + udp[..2] + udp[4..];
    r := Store16(r, 4, len);
    r := Store16(r, 6, 0);
  }

  method StoreIpChecksum(ip: seq<byte>, rest: seq<byte>) returns (r: seq<byte>)
    requires |ip| == 20
    ensures r == Store16(ip, 10, 0xFFFF - OnesSum(ip))
  {
    var check := Ipv4Checksum(ip + rest);
    assert (ip + rest)[..20] == ip;
    r := Store16(ip, 10, check);
  }

  method StoreUdpChecksum(ip: seq<byte>, udp: seq<byte>, dns: seq<byte>) returns (r: seq<byte>)
    requires |ip| == 20 && |udp| == 8 && |udp + dns| <= MAX_UDP_LEN
    ensures r == Store16(udp, 6, UdpCheck(ip[12..16], ip[16..20], udp + dns))
  {
    var check := UdpChecksum(ip[12..16], ip[16..20], udp + dns, |udp + dns|);
    assert (udp + dns)[..|udp + dns|] == udp + dns;
    r := Store16(udp, 6, check);
  }

  /** The packet with the answer appended, seen through its headers. */
  lemma QueryViews(query: seq<byte>, end: nat, vip: Ipv4)
    requires Headers(query) && DNS_HEADER_LEN <= end <= |DnsOf(query)|
    ensures var data := query[..DNS_AT + end] + ARecord(vip);
      && data[..IP_AT] == query[..IP_AT]
      && data[IP_AT..UDP_AT] == query[IP_AT..UDP_AT] && data[UDP_AT..DNS_AT] == query[UDP_AT..DNS_AT]
      && data[DNS_AT..] == DnsOf(query)[..end] + ARecord(vip)
      && Word(data[DNS_AT..], 2) == Word(DnsOf(query), 2) == Word(query, 44)
  {
    assert query[DNS_AT..DNS_AT + end] == DnsOf(query)[..end];
  }

  lemma IpStores(ip: seq<byte>, total: nat)
    requires |ip| == 20 && total < TWO16
    ensures Store16(Store16(ip[..12] + ip[16..20] + ip[12..16], 2, total), 10, 0) == IpBare(ip, total)
  {}

  lemma UdpStores(udp: seq<byte>, len: nat)
    requires |udp| == 8 && len < TWO16
    ensures Store16(Store16(udp[2..4] + udp[..2] + udp[4..], 4, len), 6, 0) == UdpBare(udp, len)
  {}

  /** Three 16-bit stores into the query's header make the reply's header. */
  lemma DnsStores(dns: seq<byte>, end: nat, vip: Ipv4)
    requires DNS_HEADER_LEN <= end <= |dns| && Word(dns, 2) < 0x800
    ensures Store16(Store16(Store16(dns[..end] + ARecord(vip), 2, SetQrAa(Word(dns, 2))), 6, 1), 10, 0)
         == DnsReply(dns, end, vip)
  {}

  // ------------------------------------------------------------ what the reply says

  lemma WordOfConcat(a: seq<byte>, b: seq<byte>, i: nat)
    requires i + 1 < |a|
    ensures Word(a + b, i) == Word(a, i)
  {}

  /** The decoded question of the query itself. */
  lemma QueryQuestion(dns: seq<byte>, labels: seq<Label>)
    requires Accepts(dns, labels) && AsksForA(dns, QuestionEnd(labels))
    ensures DecodeQuestion(dns, DNS_HEADER_LEN) == Some((Question(labels, 1, 1), QuestionEnd(labels)))
  {
    DecodeWireName(dns, DNS_HEADER_LEN, DNS_HEADER_LEN, labels);
    var end := QuestionEnd(labels);
    assert dns[end - 4..end][0] == dns[end - 4] && dns[end - 4..end][1] == dns[end - 3];
    assert dns[end - 4..end][2] == dns[end - 2] && dns[end - 4..end][3] == dns[end - 1];
  }

  /** The reply's header fields and sections, before decoding them. */
  lemma ReplyLayout(dns: seq<byte>, labels: seq<Label>, vip: Ipv4)
    requires Accepts(dns, labels) && AsksForA(dns, QuestionEnd(labels)) && Word(dns, 2) < 0x800
    ensures var m := DnsReply(dns, QuestionEnd(labels), vip);
      && Word(m, 0) == Word(dns, 0) && Word(m, 2) == SetQrAa(Word(dns, 2)) && Word(m, 4) == Word(dns, 4)
      && Word(m, 6) == 1 && Word(m, 8) == Word(dns, 8) && Word(m, 10) == 0
      && m[DNS_HEADER_LEN..QuestionEnd(labels)] == dns[DNS_HEADER_LEN..QuestionEnd(labels)]
      && m[QuestionEnd(labels)..] == ARecord(vip)
      && Accepts(m, labels) && AsksForA(m, QuestionEnd(labels))
  {
    var end, w := QuestionEnd(labels), Wire(labels);
    var m := DnsReply(dns, end, vip);
    assert m[DNS_HEADER_LEN..end] == dns[DNS_HEADER_LEN..end];
    assert m[end..] == ARecord(vip);
    assert m[DNS_HEADER_LEN..][..|w|] == m[DNS_HEADER_LEN..end][..|w|]
        == dns[DNS_HEADER_LEN..end][..|w|] == dns[DNS_HEADER_LEN..][..|w|] == w;
    assert m[end - 4..end] == m[DNS_HEADER_LEN..end][|w|..] == dns[DNS_HEADER_LEN..end][|w|..] == dns[end - 4..end];
  }

  lemma ReplyAnswer(m: seq<byte>, labels: seq<Label>, vip: Ipv4)
    requires Accepts(m, labels) && m[QuestionEnd(labels)..] == ARecord(vip)
    ensures DecodeRecord(m, QuestionEnd(labels)) == Some((Record(labels, 1, 1, TTL, vip), |m|))
  {
    var end := QuestionEnd(labels);
    RecordBytes(m, end, vip);
    DecodePointer(m, end, DNS_HEADER_LEN, labels);
  }

  lemma RecordBytes(m: seq<byte>, end: nat, vip: Ipv4)
    requires end <= |m| && m[end..] == ARecord(vip)
    ensures |m| == end + 16 && m[end] == 0xC0 && m[end + 1] == 0x0C
    ensures m[end + 2] == 0 && m[end + 3] == 1 && m[end + 4] == 0 && m[end + 5] == 1
    ensures m[end + 6] == 0 && m[end + 7] == 0 && m[end + 8] == 0 && m[end + 9] == TTL as byte
    ensures m[end + 10] == 0 && m[end + 11] == 4 && m[end + 12..end + 16] == vip
  {
    var tail := m[end..];
    assert m[end] == tail[0] && m[end + 1] == tail[1];
    assert m[end + 2] == tail[2] && m[end + 3] == tail[3] && m[end + 4] == tail[4] && m[end + 5] == tail[5];
    assert m[end + 6] == tail[6] && m[end + 7] == tail[7] && m[end + 8] == tail[8] && m[end + 9] == tail[9];
    assert m[end + 10] == tail[10] && m[end + 11] == tail[11];
    assert m[end + 12..end + 16] == tail[12..16] == vip;
  }

  lemma ReplyIs(dns: seq<byte>, labels: seq<Label>, vip: Ipv4)
    requires Accepts(dns, labels) && AsksForA(dns, QuestionEnd(labels))
    requires Word(dns, 2) < 0x800 && Word(dns, 4) == 1
    ensures Decode(DnsReply(dns, QuestionEnd(labels), vip)) ==
      if Word(dns, 8) == 0
      then
        Some(Message(
          Word(dns, 0), SetQrAa(Word(dns, 2)), [Question(labels, 1, 1)], [Record(labels, 1, 1, TTL, vip)], [], []))
      else None
  {
    var end := QuestionEnd(labels);
    var m := DnsReply(dns, end, vip);
    ReplyLayout(dns, labels, vip);
    QueryQuestion(m, labels);
    ReplyAnswer(m, labels, vip);
    var q, a := Question(labels, 1, 1), Record(labels, 1, 1, TTL, vip);
    assert DecodeQuestions(m, DNS_HEADER_LEN, 1) == Some(([q], end)) by { assert [q] + [] == [q]; }
    assert DecodeRecords(m, end, 1) == Some(([a], |m|)) by { assert [a] + [] == [a]; }
    if Word(dns, 8) > 0 { assert DecodeRecords(m, |m|, Word(dns, 8)).None?; }
  }

  lemma SetFlags(q: nat)
    requires q < 0x800
    ensures var f := SetQrAa(q);
      f / 0x8000 == 1 && f / 0x800 % 16 == 0 && f / 0x400 % 2 == 1 && f % 0x400 == q % 0x400
  {}

  /**
   Reading the reply back by section 4.1 of RFC 1035 gives the query's id and
   question and exactly one A record, under the question's own name, with the
   map's address and 30 seconds to live. Its flags are the query's with the
   response bit and the authoritative bit set. The reply is well formed exactly
   when the query announced no authority records, whose count it keeps.
   */
  lemma ReplyDecodes(dns: seq<byte>, labels: seq<Label>, vip: Ipv4)
    requires Accepts(dns, labels) && AsksForA(dns, QuestionEnd(labels))
    requires Word(dns, 2) < 0x800 && Word(dns, 4) == 1
    ensures var r, q := Decode(DnsReply(dns, QuestionEnd(labels), vip)), Word(dns, 2);
      && (r.Some? <==> Word(dns, 8) == 0)
      && (r.Some? ==>
            && r.value.id == Word(dns, 0)
            && r.value.flags / 0x8000 == 1 && r.value.flags / 0x800 % 16 == 0    // a response to a standard query,
            && r.value.flags / 0x400 % 2 == 1                                    // authoritative,
            && r.value.flags % 0x400 == q % 0x400                                // and the rest as it came
            && r.value.questions == [Question(labels, 1, 1)] && r.value.answers == [Record(labels, 1, 1, 30, vip)]
            && r.value.authority == [] && r.value.additional == [])
  {
    ReplyIs(dns, labels, vip);
    SetFlags(Word(dns, 2));
  }

  /** A packet that answers p: every address pair swapped, the lengths agreeing with the bytes. */
  predicate GoesBack(r: seq<byte>, p: seq<byte>) {
    && |r| >= DNS_AT && |p| >= DNS_AT
    && r[..6] == p[6..12] && r[6..12] == p[..6]
    && r[26..30] == p[30..34] && r[30..34] == p[26..30]
    && r[34..36] == p[36..38] && r[36..38] == p[34..36]
    && Word(r, 16) == |r| - IP_AT && Word(r, 38) == |r| - UDP_AT
  }

  lemma MacsSwapped(eth: seq<byte>)
    requires |eth| == IP_AT
    ensures var m := SwapMacs(eth); |m| == IP_AT && m[..6] == eth[6..12] && m[6..12] == eth[..6]
  {}

  lemma PartsGoBack(x: Parts, p: seq<byte>)
    requires x.Valid() && |p| >= DNS_AT && x.eth == SwapMacs(p[..IP_AT])
    requires x.ip[12..16] == p[30..34] && x.ip[16..20] == p[26..30]
    requires x.udp[..2] == p[36..38] && x.udp[2..4] == p[34..36]
    requires Word(x.ip, 2) == 28 + |x.dns| && Word(x.udp, 4) == 8 + |x.dns|
    ensures GoesBack(x.Bytes(), p)
  {
    Slices(x);
    MacsSwapped(p[..IP_AT]);
    assert p[..IP_AT][6..12] == p[6..12] && p[..IP_AT][..6] == p[..6];
  }

  lemma HeaderSlices(p: seq<byte>)
    requires |p| >= DNS_AT
    ensures p[IP_AT..UDP_AT][16..20] == p[30..34] && p[IP_AT..UDP_AT][12..16] == p[26..30]
    ensures p[UDP_AT..DNS_AT][2..4] == p[36..38] && p[UDP_AT..DNS_AT][..2] == p[34..36]
  {
    SliceWithin(p, IP_AT, UDP_AT, 16, 20);
    SliceWithin(p, IP_AT, UDP_AT, 12, 16);
    SliceWithin(p, UDP_AT, DNS_AT, 2, 4);
    SliceWithin(p, UDP_AT, DNS_AT, 0, 2);
    assert p[UDP_AT..DNS_AT][0..2] == p[UDP_AT..DNS_AT][..2];
  }

  lemma SliceWithin(p: seq<byte>, a: nat, b: nat, i: nat, j: nat)
    requires a <= b <= |p| && i <= j <= b - a
    ensures p[a..b][i..j] == p[a + i..a + j]
  {
    var s := p[a..b];
    forall k | 0 <= k < j - i ensures s[i..j][k] == p[a + i..a + j][k] { assert s[i + k] == p[a + i + k]; }
  }

  /** The reply goes back to the asker, and its DNS message is the rewritten one. */
  lemma ReplyGoesBack(p: seq<byte>, end: nat, vip: Ipv4)
    requires Headers(p) && DNS_HEADER_LEN <= end <= |DnsOf(p)|
    ensures var r := Reply(p, end, vip);
      |r| == DNS_AT + end + DNS_ANSWER_LEN && GoesBack(r, p) && r[DNS_AT..] == DnsReply(DnsOf(p), end, vip)
  {
    var x := ReplyParts(p, end, vip);
    var len, udp0 := UDP_HEADER_LEN + |x.dns|, p[UDP_AT..DNS_AT];
    HeaderSlices(p);
    IpFields(p[IP_AT..UDP_AT], 20 + len);
    UdpFields(udp0, len, UdpCheck(x.ip[12..16], x.ip[16..20], UdpBare(udp0, len) + x.dns));
    PartsGoBack(x, p);
    Slices(x);
  }

  lemma IpKeeps(ip: seq<byte>, total: nat)
    requires |ip| == 20 && total < TWO16
    ensures var h := IpReply(ip, total); h[..2] == ip[..2] && h[4..10] == ip[4..10]
  {}

  lemma TurnedKeeps(eth: seq<byte>, ip: seq<byte>, udp: seq<byte>, dns: seq<byte>)
    requires |eth| == 14 && |ip| == 20 && |udp| == 8 && |dns| <= MAX_DNS_LEN + DNS_ANSWER_LEN
    ensures var x := TurnedRound(eth, ip, udp, dns);
      x.eth[12..14] == eth[12..14] && x.ip[..2] == ip[..2] && x.ip[4..10] == ip[4..10]
  {
    IpKeeps(ip, 20 + (UDP_HEADER_LEN + |dns|));
  }

  lemma PartsKeep(x: Parts, p: seq<byte>)
    requires x.Valid() && |p| >= DNS_AT && x.eth[12..14] == p[12..14]
    requires x.ip[..2] == p[IP_AT..UDP_AT][..2] && x.ip[4..10] == p[IP_AT..UDP_AT][4..10]
    ensures x.Bytes()[12..14] == p[12..14] && x.Bytes()[14..16] == p[14..16] && x.Bytes()[18..24] == p[18..24]
  {
    var r := x.Bytes();
    assert r[12..14] == x.eth[12..14];
    assert r[IP_AT..UDP_AT] == x.ip;
    SliceWithin(r, IP_AT, UDP_AT, 0, 2);
    SliceWithin(r, IP_AT, UDP_AT, 4, 10);
    SliceWithin(p, IP_AT, UDP_AT, 0, 2);
    SliceWithin(p, IP_AT, UDP_AT, 4, 10);
  }

  /** The type, the IPv4 header's first two bytes, and its identification, fragment field, time to live and protocol
      stay as they were. */
  lemma ReplyKeeps(p: seq<byte>, end: nat, vip: Ipv4)
    requires Headers(p) && DNS_HEADER_LEN <= end <= |DnsOf(p)|
    ensures var r := Reply(p, end, vip);
      |r| >= DNS_AT && r[12..14] == p[12..14] && r[14..16] == p[14..16] && r[18..24] == p[18..24]
  {
    var dns := DnsReply(DnsOf(p), end, vip);
    TurnedKeeps(p[..IP_AT], p[IP_AT..UDP_AT], p[UDP_AT..DNS_AT], dns);
    assert p[..IP_AT][12..14] == p[12..14];
    PartsKeep(ReplyParts(p, end, vip), p);
  }

  /** What a receiver checks: both sums come to all ones; a packet of odd length carries no UDP checksum, others do. */
  predicate Verifies(r: seq<byte>) {
    && |r| >= DNS_AT && OnesSum(r[IP_AT..UDP_AT]) == 0xFFFF
    && (Word(r, 40) == 0 <==> |r| % 2 == 1)
    && (|r| % 2 == 0 ==>
          Oc(PseudoSum(r[26..30], r[30..34], |r| - UDP_AT) + WordSum(r[UDP_AT..])) == 0xFFFF)
  }

  /** A packet seen through its headers verifies when they do. */
  lemma VerifiesByParts(r: seq<byte>, ip: seq<byte>, udp: seq<byte>, dns: seq<byte>)
    requires |ip| == 20 && |udp| == 8 && |r| == DNS_AT + |dns| && r[IP_AT..UDP_AT] == ip && OnesSum(ip) == 0xFFFF
    requires r[26..30] == ip[12..16] && r[30..34] == ip[16..20]
    requires r[UDP_AT..] == udp + dns && Word(r, 40) == Word(udp, 6)
    requires Word(udp, 6) == 0 <==> |udp + dns| % 2 == 1
    requires |udp + dns| % 2 == 0 ==>
      Oc(PseudoSum(ip[12..16], ip[16..20], |udp + dns|) + WordSum(udp + dns)) == 0xFFFF
    ensures Verifies(r)
  {
    assert |udp + dns| == |r| - UDP_AT;
  }

  lemma PartsVerify(x: Parts, udp: seq<byte>)
    requires x.Valid() && |udp| == 8 && Word(udp, 6) == 0 && OnesSum(x.ip) == 0xFFFF
    requires x.udp == Store16(udp, 6, UdpCheck(x.ip[12..16], x.ip[16..20], udp + x.dns))
    ensures Verifies(x.Bytes())
  {
    Slices(x);
    DatagramVerifies(x.ip[12..16], x.ip[16..20], udp, x.dns);
    StoredChecksum(udp, UdpCheck(x.ip[12..16], x.ip[16..20], udp + x.dns));
    VerifiesByParts(x.Bytes(), x.ip, x.udp, x.dns);
  }

  lemma StoredChecksum(udp: seq<byte>, c: nat)
    requires |udp| == 8 && c < TWO16
    ensures |Store16(udp, 6, c)| == 8 && Word(Store16(udp, 6, c), 6) == c
  {}

  /** The IPv4 header verifies, and so does the UDP datagram, unless its length is odd: then it carries no checksum. */
  lemma ReplyVerifies(p: seq<byte>, end: nat, vip: Ipv4)
    requires Headers(p) && DNS_HEADER_LEN <= end <= |DnsOf(p)|
    ensures Verifies(Reply(p, end, vip))
  {
    TurnedRoundVerifies(p[..IP_AT], p[IP_AT..UDP_AT], p[UDP_AT..DNS_AT], DnsReply(DnsOf(p), end, vip));
  }

  lemma TurnedRoundVerifies(eth: seq<byte>, ip: seq<byte>, udp: seq<byte>, dns: seq<byte>)
    requires |eth| == 14 && |ip| == 20 && |udp| == 8 && |dns| <= MAX_DNS_LEN + DNS_ANSWER_LEN
    ensures Verifies(TurnedRound(eth, ip, udp, dns).Bytes())
  {
    var len := UDP_HEADER_LEN + |dns|;
    var x := TurnedRound(eth, ip, udp, dns);
    IpReplyVerifies(ip, 20 + len);
    assert x.ip == IpReply(ip, 20 + len);
    PartsVerify(x, UdpBare(udp, len));
  }

  lemma IpReplyVerifies(ip: seq<byte>, total: nat)
    requires |ip| == 20 && total < TWO16
    ensures OnesSum(IpReply(ip, total)) == 0xFFFF
  {
    Ipv4ChecksumVerifies(IpBare(ip, total));
  }

  lemma DatagramVerifies(src: seq<byte>, dst: seq<byte>, udp: seq<byte>, dns: seq<byte>)
    requires |src| == 4 && |dst| == 4 && |udp| == 8 && Word(udp, 6) == 0
    ensures var c := UdpCheck(src, dst, udp + dns);
      |udp + dns| % 2 == 0 ==> Oc(PseudoSum(src, dst, |udp + dns|) + WordSum(Store16(udp, 6, c) + dns)) == 0xFFFF
    ensures UdpCheck(src, dst, udp + dns) == 0 <==> |udp + dns| % 2 == 1
  {
    var c := UdpCheck(src, dst, udp + dns);
    assert Store16(udp + dns, 6, c) == Store16(udp, 6, c) + dns;
    if |udp + dns| % 2 == 0 {
      WordOfConcat(udp, dns, 6);
      UdpChecksumVerifies(src, dst, udp + dns, c);
    }
  }

  /** The views of a packet put together from its headers. */
  lemma Slices(x: Parts)
    requires x.Valid()
    ensures var r := x.Bytes();
      && |r| == DNS_AT + |x.dns| && r[..6] == x.eth[..6] && r[6..12] == x.eth[6..12]
      && r[IP_AT..UDP_AT] == x.ip && r[26..30] == x.ip[12..16] && r[30..34] == x.ip[16..20]
      && r[34..36] == x.udp[..2] && r[36..38] == x.udp[2..4] && r[UDP_AT..] == x.udp + x.dns && r[DNS_AT..] == x.dns
      && Word(r, 16) == Word(x.ip, 2) && Word(r, 38) == Word(x.udp, 4) && Word(r, 40) == Word(x.udp, 6)
  {
    var r := x.Bytes();
    assert r[16] == x.ip[2] && r[17] == x.ip[3];
    assert r[38] == x.udp[4] && r[39] == x.udp[5] && r[40] == x.udp[6] && r[41] == x.udp[7];
  }

  lemma IpFields(ip: seq<byte>, total: nat)
    requires |ip| == 20 && total < TWO16
    ensures var h := IpReply(ip, total); h[12..16] == ip[16..20] && h[16..20] == ip[12..16] && Word(h, 2) == total
  {}

  lemma UdpFields(udp: seq<byte>, len: nat, c: nat)
    requires |udp| == 8 && len < TWO16 && c < TWO16
    ensures var h := Store16(UdpBare(udp, len), 6, c);
      h[..2] == udp[2..4] && h[2..4] == udp[..2] && Word(h, 4) == len && Word(h, 6) == c
  {}

  // ------------------------------------------------------------ two packets at the edge

  lemma HeadersOf(x: Parts)
    requires x.Valid() && Word(x.eth, 12) == 0x0800 && x.ip[0] % 16 == 5 && x.ip[9] == 17 && Word(x.ip, 6) == 0
    requires Word(x.udp, 2) == DNS_PORT && Word(x.udp, 4) == 8 + |x.dns| && 17 <= |x.dns| <= MAX_DNS_LEN
    requires Word(x.dns, 2) < 0x800 && Word(x.dns, 4) == 1 && Word(x.dns, 6) == 0
    ensures Headers(x.Bytes()) && DnsOf(x.Bytes()) == x.dns
  {
    var r := x.Bytes();
    assert r[12] == x.eth[12] && r[13] == x.eth[13] && r[14] == x.ip[0] && r[23] == x.ip[9];
    assert r[20] == x.ip[6] && r[21] == x.ip[7] && r[36] == x.udp[2] && r[37] == x.udp[3];
    assert r[38] == x.udp[4] && r[39] == x.udp[5] && r[44] == x.dns[2] && r[45] == x.dns[3];
    assert r[46] == x.dns[4] && r[47] == x.dns[5] && r[48] == x.dns[6] && r[49] == x.dns[7];
    assert r[DNS_AT..] == x.dns;
  }

  /** A query for the address of "a", with the authority count given. */
  function QueryForA(nscount: byte): Parts {
    Parts([2, 0, 0, 0, 0, 1, 2, 0, 0, 0, 0, 2, 8, 0],
          [0x45, 0, 0, 47, 0, 0, 0, 0, 64, 17, 0, 0, 10, 0, 0, 2, 10, 0, 0, 1],
          [0xC0, 0, 0, 53, 0, 27, 0, 0],
          [0x12, 0x34, 1, 0, 0, 1, 0, 0, 0, nscount, 0, 0, 1, 97, 0, 0, 1, 0, 1])
  }

  const A: seq<Label> := [[97]]

  lemma WireOfA()
    ensures IsName(A) && Wire(A) == [1, 97, 0] && QuestionEnd(A) == 19
  {
    assert A[1..] == [] && LabelWire(A[1..]) == [];
  }

  lemma AsksForTheAddressOfA(dns: seq<byte>)
    requires |dns| == 19 && dns[12] == 1 && dns[13] == 97 && dns[14] == 0
    requires dns[15] == 0 && dns[16] == 1 && dns[17] == 0 && dns[18] == 1
    ensures IsName(A) && Accepts(dns, A) && AsksForA(dns, QuestionEnd(A))
  {
    WireOfA();
    assert dns[12..][..3] == [1, 97, 0];
    assert dns[15..19] == [0, 1, 0, 1];
  }

  /** Headers and a question for A that the program takes. */
  predicate WellFormed(x: Parts) {
    && x.Valid() && Word(x.eth, 12) == 0x0800 && x.ip[0] % 16 == 5 && x.ip[9] == 17 && Word(x.ip, 6) == 0
    && Word(x.udp, 2) == DNS_PORT && Word(x.udp, 4) == 8 + |x.dns| && |x.dns| == 19
    && Word(x.dns, 2) < 0x800 && Word(x.dns, 4) == 1 && Word(x.dns, 6) == 0
    && x.dns[12] == 1 && x.dns[13] == 97 && x.dns[14] == 0
    && x.dns[15] == 0 && x.dns[16] == 1 && x.dns[17] == 0 && x.dns[18] == 1
  }

  lemma QueryIsWellFormed(nscount: byte) returns (x: Parts)
    ensures WellFormed(x) && Word(x.dns, 8) == nscount as nat
  {
    x := QueryForA(nscount);
  }

  /** Some query can be answered, ends its question at an odd offset, and announces this many authority records. */
  lemma EdgeQuery(nscount: byte, vip: Ipv4) returns (p: seq<byte>, services: map<bv32, Ipv4>, labels: seq<Label>)
    ensures Answerable(p, services, labels)
    ensures QuestionEnd(labels) % 2 == 1 && Word(DnsOf(p), 8) == nscount as nat
  {
    var x := QueryIsWellFormed(nscount);
    HeadersOf(x);
    AsksForTheAddressOfA(x.dns);
    WireOfA();
    p, services, labels := AnswerableOf(x.Bytes(), A, vip);
  }

  lemma AnswerableOf(q: seq<byte>, name: seq<Label>, vip: Ipv4)
    returns (p: seq<byte>, services: map<bv32, Ipv4>, labels: seq<Label>)
    requires Headers(q) && Accepts(DnsOf(q), name) && AsksForA(DnsOf(q), QuestionEnd(name))
    ensures p == q && labels == name && Answerable(p, services, labels)
  {
    p, services, labels := q, map[NameKey(name) := vip], name;
  }

  lemma HeaderWords(p: seq<byte>)
    requires Headers(p)
    ensures Word(DnsOf(p), 2) < 0x800 && Word(DnsOf(p), 4) == 1
  {
    var dns := DnsOf(p);
    assert dns[2] == p[44] && dns[3] == p[45] && dns[4] == p[46] && dns[5] == p[47];
  }

  /** There is a query that the program answers and whose reply no decoder accepts. */
  lemma SomeReplyDoesNotDecode(vip: Ipv4) returns (p: seq<byte>, services: map<bv32, Ipv4>, labels: seq<Label>)
    ensures Answerable(p, services, labels) && Word(DnsOf(p), 2) < 0x800
    ensures Decode(DnsReply(DnsOf(p), QuestionEnd(labels), services[NameKey(labels)])).None?
  {
    p, services, labels := EdgeQuery(1, vip);
    HeaderWords(p);
    ReplyDecodes(DnsOf(p), labels, services[NameKey(labels)]);
  }

  lemma SameParity(n: nat)
    ensures (DNS_AT + n + DNS_ANSWER_LEN) % 2 == n % 2
  {}

  /** The reply goes out without a UDP checksum exactly when the question ends at an odd offset. */
  lemma NoChecksumIffOdd(p: seq<byte>, end: nat, vip: Ipv4)
    requires Headers(p) && DNS_HEADER_LEN <= end <= |DnsOf(p)|
    ensures var r := Reply(p, end, vip); |r| >= DNS_AT && (Word(r, 40) == 0 <==> end % 2 == 1)
  {
    ReplyVerifies(p, end, vip);
    ReplyLength(p, end, vip);
    SameParity(end);
    SaysSo(Reply(p, end, vip));
  }

  lemma SaysSo(r: seq<byte>)
    requires Verifies(r)
    ensures |r| >= DNS_AT && (Word(r, 40) == 0 <==> |r| % 2 == 1)
  {}

  lemma ReplyLength(p: seq<byte>, end: nat, vip: Ipv4)
    requires Headers(p) && DNS_HEADER_LEN <= end <= |DnsOf(p)|
    ensures |Reply(p, end, vip)| == DNS_AT + end + DNS_ANSWER_LEN
  {
    var x := ReplyParts(p, end, vip);
    assert |x.Bytes()| == 14 + 20 + 8 + |x.dns|;
  }

  /** There is a query that the program answers without a UDP checksum. */
  lemma SomeReplyHasNoChecksum(vip: Ipv4) returns (p: seq<byte>, services: map<bv32, Ipv4>, labels: seq<Label>)
    ensures Answerable(p, services, labels)
    ensures var r := Reply(p, QuestionEnd(labels), services[NameKey(labels)]); |r| >= DNS_AT && Word(r, 40) == 0
  {
    p, services, labels := EdgeQuery(0, vip);
    NoChecksumIffOdd(p, QuestionEnd(labels), services[NameKey(labels)]);
  }
}
