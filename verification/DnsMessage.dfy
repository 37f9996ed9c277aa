/**
 A reference decoder for the messages of section 4.1 of RFC 1035: header,
 questions and resource records, with compressed names.
 */
module DnsMessage {
  import opened Common
  import opened DnsName
  import opened Checksum

  datatype Question = Question(name: seq<Label>, qtype: nat, qclass: nat)
  datatype Record = Record(name: seq<Label>, rtype: nat, rclass: nat, ttl: nat, rdata: seq<byte>)
  datatype Message = Message(id: nat, flags: nat, questions: seq<Question>,
                             answers: seq<Record>, authority: seq<Record>, additional: seq<Record>)

  /** A name and the offset after it. A pointer must lead to a strictly earlier place than the name it ends. */
  function DecodeName(m: seq<byte>, pos: nat, bound: nat): Option<(seq<Label>, nat)>
    decreases bound, |m| - pos
  {
    if pos >= |m| then None
    else
      var b := m[pos] as nat;
      if b == 0 then Some(([], pos + 1))
      else if b <= 63 then
        if pos + 1 + b > |m| then None
        else
          var rest := DecodeName(m, pos + 1 + b, bound);
          if rest.None? then None else Some(([m[pos + 1..pos + 1 + b]] + rest.value.0, rest.value.1))
      else if b >= 192 && pos + 1 < |m| && (b - 192) * 256 + m[pos + 1] as nat < bound then
        var target := (b - 192) * 256 + m[pos + 1] as nat;
        var rest := DecodeName(m, target, target);
        if rest.None? then None else Some((rest.value.0, pos + 2))
      else None
  }

  function DecodeQuestion(m: seq<byte>, pos: nat): Option<(Question, nat)> {
    var n := DecodeName(m, pos, pos);
    if n.None? || n.value.1 + 4 > |m| then None
    else Some((Question(n.value.0, Word(m, n.value.1), Word(m, n.value.1 + 2)), n.value.1 + 4))
  }

  function DecodeRecord(m: seq<byte>, pos: nat): (r: Option<(Record, nat)>)
    ensures r.Some? ==> pos < |m|
  {
    var n := DecodeName(m, pos, pos);
    if n.None? || n.value.1 + 10 > |m| then None
    else
      var at := n.value.1;
      var len := Word(m, at + 8);
      if at + 10 + len > |m| then None
      else Some((Record(n.value.0, Word(m, at), Word(m, at + 2), Word(m, at + 4) * TWO16 + Word(m, at + 6),
                        m[at + 10..at + 10 + len]), at + 10 + len))
  }

  function DecodeQuestions(m: seq<byte>, pos: nat, n: nat): Option<(seq<Question>, nat)>
    decreases n
  {
    if n == 0 then Some(([], pos))
    else
      var q := DecodeQuestion(m, pos);
      if q.None? then None
      else
        var rest := DecodeQuestions(m, q.value.1, n - 1);
        if rest.None? then None else Some(([q.value.0] + rest.value.0, rest.value.1))
  }

  function DecodeRecords(m: seq<byte>, pos: nat, n: nat): Option<(seq<Record>, nat)>
    decreases n
  {
    if n == 0 then Some(([], pos))
    else
      var r := DecodeRecord(m, pos);
      if r.None? then None
      else
        var rest := DecodeRecords(m, r.value.1, n - 1);
        if rest.None? then None else Some(([r.value.0] + rest.value.0, rest.value.1))
  }

  /** The message, if its four sections fill it exactly. */
  function Decode(m: seq<byte>): Option<Message> {
    if |m| < DNS_HEADER_LEN then None
    else
      var q := DecodeQuestions(m, DNS_HEADER_LEN, Word(m, 4));
      if q.None? then None
      else
        var an := DecodeRecords(m, q.value.1, Word(m, 6));
        if an.None? then None
        else
          var ns := DecodeRecords(m, an.value.1, Word(m, 8));
          if ns.None? then None
          else
            var ar := DecodeRecords(m, ns.value.1, Word(m, 10));
            if ar.None? || ar.value.1 != |m| then None
            else Some(Message(Word(m, 0), Word(m, 2), q.value.0, an.value.0, ns.value.0, ar.value.0))
  }

  // ------------------------------------------------------------ decoding what was written

  lemma CutRest(m: seq<byte>, pos: nat, n: nat)
    requires pos + n <= |m| && n > 0
    ensures m[pos] == m[pos..][0] && m[pos + 1..pos + n] == m[pos..][1..n] && m[pos + n..] == m[pos..][n..]
  {}

  lemma {:induction false} DecodeWireName(m: seq<byte>, pos: nat, bound: nat, labels: seq<Label>)
    requires IsName(labels) && pos <= |m| && Wire(labels) <= m[pos..]
    ensures DecodeName(m, pos, bound) == Some((labels, pos + |Wire(labels)|))
    decreases |labels|
  {
    if labels == [] {
      DecodeRoot(m, pos, bound);
    } else {
      var next := LabelHere(m, pos, labels);
      DecodeWireName(m, next, bound, labels[1..]);
      DecodeLabel(m, pos, bound, labels, next, pos + |Wire(labels)|);
    }
  }

  lemma DecodeRoot(m: seq<byte>, pos: nat, bound: nat)
    requires pos <= |m| && Wire([]) <= m[pos..]
    ensures DecodeName(m, pos, bound) == Some(([], pos + |Wire([])|))
  {
    assert m[pos] == m[pos..][0] == Wire([])[0];
  }

  /** A wire name starts with its first label, and its rest follows. */
  lemma LabelHere(m: seq<byte>, pos: nat, labels: seq<Label>) returns (next: nat)
    requires IsName(labels) && labels != [] && pos <= |m| && Wire(labels) <= m[pos..]
    ensures var l, rest := labels[0], labels[1..];
      && next == pos + 1 + |l| <= |m| && 0 < |l| <= 63 && m[pos] == |l| as byte && m[pos + 1..next] == l
      && IsName(rest) && Wire(rest) <= m[next..] && |Wire(labels)| == 1 + |l| + |Wire(rest)|
  {
    WireHead(m[pos..], labels);
    next := pos + 1 + |labels[0]|;
    CutRest(m, pos, 1 + |labels[0]|);
  }

  lemma DecodeLabel(m: seq<byte>, pos: nat, bound: nat, labels: seq<Label>, next: nat, end: nat)
    requires labels != [] && 0 < |labels[0]| <= 63 && next == pos + 1 + |labels[0]| <= |m|
    requires m[pos] == |labels[0]| as byte && m[pos + 1..next] == labels[0]
    requires DecodeName(m, next, bound) == Some((labels[1..], end))
    ensures DecodeName(m, pos, bound) == Some((labels, end))
  {
    assert labels == [labels[0]] + labels[1..];
  }

  /** A pointer to an earlier wire-form name decodes to that name. */
  lemma DecodePointer(m: seq<byte>, pos: nat, target: nat, labels: seq<Label>)
    requires IsName(labels) && target < pos && pos + 1 < |m| && target < 256 && Wire(labels) <= m[target..]
    requires m[pos] == 192 && m[pos + 1] == target as byte
    ensures DecodeName(m, pos, pos) == Some((labels, pos + 2))
  {
    DecodeWireName(m, target, target, labels);
  }
}
