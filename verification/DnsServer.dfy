/**
 The DNS responder of `access_point_httpd/dnsserver/dnsserver.c`: every standard query is
 answered with this device's address, in the buffer that holds the query (sections 4.1.1 to
 4.1.4 of RFC 1035).
 */
module DnsServer {
  import opened Bytes

  const MAX_DNS_MSG_SIZE := 300
  const HEADER := 12

  function U16(msg: seq<byte>, p: nat): nat
    requires p + 1 < |msg|
  {
    msg[p] as nat * 256 + msg[p + 1] as nat
  }

  // ----- the reference: names as section 4.1.2 and 4.1.4 of RFC 1035 define them -----

  datatype Name = Name(labels: seq<seq<byte>>, next: nat)

  /** A name without compression at p, and the index behind it. */
  function DecodeName(msg: seq<byte>, p: nat): Option<Name>
    decreases |msg| - p
  {
    if |msg| <= p then None
    else if msg[p] == 0 then Some(Name([], p + 1))
    else
      var n := msg[p] as nat;
      if 63 < n || |msg| <= p + n then None else
        match DecodeName(msg, p + 1 + n)
        case None => None
        case Some(rest) => Some(Name([msg[p + 1..p + 1 + n]] + rest.labels, rest.next))
  }

  /** A name that may be a pointer to an earlier one. */
  function ResolveName(msg: seq<byte>, p: nat): Option<Name>
  {
    if p + 1 < |msg| && msg[p] >= 192 then
      match DecodeName(msg, (msg[p] as nat - 192) * 256 + msg[p + 1] as nat)
      case None => None
      case Some(n) => Some(Name(n.labels, p + 2))
    else DecodeName(msg, p)
  }

  datatype Question = Question(labels: seq<seq<byte>>, qtype: nat, qclass: nat)

  datatype Record = Record(labels: seq<seq<byte>>, rtype: nat, rclass: nat, ttl: nat, data: seq<byte>)

  /** The first question of a message, and the index behind it. */
  function DecodeQuestion(msg: seq<byte>): Option<(Question, nat)>
  {
    match DecodeName(msg, HEADER)
    case None => None
    case Some(n) =>
      if |msg| < n.next + 4 then None
      else Some((Question(n.labels, U16(msg, n.next), U16(msg, n.next + 2)), n.next + 4))
  }

  function DecodeRecord(msg: seq<byte>, p: nat): Option<(Record, nat)>
  {
    match ResolveName(msg, p)
    case None => None
    case Some(n) =>
      if |msg| < n.next + 10 then None else
        var length := U16(msg, n.next + 8);
        if |msg| < n.next + 10 + length then None
        else
          var ttl := U16(msg, n.next + 4) * 0x1_0000 + U16(msg, n.next + 6);
          Some((Record(n.labels, U16(msg, n.next), U16(msg, n.next + 2), ttl, msg[n.next + 10..n.next + 10 + length]),
                n.next + 10 + length))
  }

  // ----- the code's own walk -----

  /** Where the label walk from p stops, or None when it meets an invalid label. */
  function Walk(msg: seq<byte>, len: nat, p: nat): (r: Option<nat>)
    requires len <= |msg|
    ensures r.Some? ==> p <= r.value
    decreases len - p
  {
    if len <= p then Some(p)
    else if msg[p] == 0 then Some(p + 1)
    else if msg[p] > 63 then None
    else Walk(msg, len, p + 1 + msg[p] as nat)
  }

  /** A standard query with at least one question. */
  predicate IsQuery(msg: seq<byte>, len: nat)
  {
    && HEADER <= len <= |msg|
    && msg[2] as nat / 128 == 0
    && msg[2] as nat / 8 % 16 == 0
    && U16(msg, 4) >= 1
  }

  /** The end of the question section of the reply, or None when the query is ignored. */
  function QuestionEnd(msg: seq<byte>, len: nat): Option<nat>
    requires len <= |msg|
  {
    if !IsQuery(msg, len) then None else
      match Walk(msg, len, HEADER)
      case None => None
      case Some(p) => if p - HEADER > 255 then None else Some(p + 4)
  }

  /** The answer: a pointer to the question, type A, class IN, 60 seconds, the address. */
  function AnswerBytes(ip: Ip4): seq<byte>
  {
    [0xC0, 12, 0, 1, 0, 1, 0, 0, 0, 60, 0, 4] + ip
  }

  /** The reply of the server over the query in the same buffer. */
  ghost predicate IsReply(query: seq<byte>, reply: seq<byte>, q: nat, ip: Ip4)
  {
    && |reply| == |query| == MAX_DNS_MSG_SIZE && HEADER <= q && q + 16 <= 287
    && reply[..2] == query[..2]
    && reply[2..HEADER] == [0x84, 0x80, 0, 1, 0, 1, 0, 0, 0, 0]
    && reply[HEADER..q] == query[HEADER..q]
    && reply[q..q + 16] == AnswerBytes(ip)
  }

  /** The walk over the labels; every byte it reads was received. */
  method WalkQuestion(msg: array<byte>, len: nat) returns (p: int)
    requires HEADER <= len <= msg.Length
    ensures Walk(msg[..], len, HEADER) == if p < 0 then None else Some(p)
  {
    p := HEADER;
    ghost var mem := msg[..];
    while p < len
      invariant HEADER <= p
      invariant Walk(mem, len, p) == Walk(mem, len, HEADER)
      decreases len - p
    {
      if msg[p] == 0 {
        p := p + 1;
        return;
      }
      var labelLen := msg[p] as nat;
      if labelLen > 63 {
        return -1;
      }
      p := p + 1 + labelLen;
    }
  }

  /** Consecutive bytes through an advancing pointer. */
  method Emit(msg: array<byte>, p: nat, bytes: seq<byte>) returns (next: nat)
    requires p + |bytes| <= msg.Length
    modifies msg
    ensures msg[p..p + |bytes|] == bytes && next == p + |bytes|
    ensures forall i :: 0 <= i < msg.Length && !(p <= i < p + |bytes|) ==> msg[i] == old(msg[i])
  {
    forall i | 0 <= i < |bytes| {
      msg[p + i] := bytes[i];
    }
    next := p + |bytes|;
  }

  method WriteReply(msg: array<byte>, q: nat, ip: Ip4) returns (sent: nat)
    requires msg.Length == MAX_DNS_MSG_SIZE && HEADER <= q && q + 16 <= 287
    modifies msg
    ensures sent == q + 16 && IsReply(old(msg[..]), msg[..], q, ip)
  {
    var answerPtr := Emit(msg, q, [0xC0, HEADER as byte, 0, 1, 0, 1, 0, 0, 0, 60, 0, 4]);
    ghost var answered := msg[..];
    answerPtr := Emit(msg, answerPtr, ip);
    assert msg[q..q + 12] == answered[q..q + 12];
    assert msg[q..q + 16] == msg[q..q + 12] + msg[q + 12..q + 16] == AnswerBytes(ip);
    answered := msg[..];
    var _ := Emit(msg, 2, [0x84, 0x80, 0, 1, 0, 1, 0, 0, 0, 0]);
    assert msg[q..q + 16] == answered[q..q + 16];
    sent := answerPtr;
  }

  /** `dns_server_process` for len received bytes in msg; sent is 0 when the message is ignored. */
  method Process(msg: array<byte>, len: nat, ip: Ip4) returns (sent: nat)
    requires msg.Length == MAX_DNS_MSG_SIZE && len <= MAX_DNS_MSG_SIZE
    modifies msg
    ensures match QuestionEnd(old(msg[..]), len)
      case None => sent == 0 && msg[..] == old(msg[..])
      case Some(q) => sent == q + 16 && IsReply(old(msg[..]), msg[..], q, ip)
  {
    sent := 0;
    if len < HEADER {
      return;
    }
    ghost var query := msg[..];
    var flags := msg[2] as nat * 256 + msg[3] as nat;
    var questionCount := msg[4] as nat * 256 + msg[5] as nat;
    if flags / 0x8000 % 2 != 0 {
      return;
    }
    if flags / 0x800 % 16 != 0 {
      return;
    }
    if questionCount < 1 {
      return;
    }
    var p := WalkQuestion(msg, len);
    if p < 0 {
      return;
    }
    if p - HEADER > 255 {
      return;
    }
    var q := p + 4;
    sent := WriteReply(msg, q, ip);
  }

  // ----- what the reply means -----

  /** On a well-formed name the walk and the reference decoder stop at the same place. */
  lemma {:induction false} WalkAgrees(msg: seq<byte>, len: nat, p: nat)
    requires len <= |msg| && DecodeName(msg[..len], p).Some?
    ensures Walk(msg, len, p) == Some(DecodeName(msg[..len], p).value.next)
    ensures p < DecodeName(msg[..len], p).value.next <= len
    decreases len - p
  {
    assert msg[..len][p] == msg[p];
    if msg[p] == 0 {
    } else {
      WalkAgrees(msg, len, p + 1 + msg[p] as nat);
    }
  }

  lemma {:induction false} NameHasBytes(a: seq<byte>, p: nat)
    requires DecodeName(a, p).Some?
    ensures p < DecodeName(a, p).value.next <= |a|
    decreases |a| - p
  {
    if a[p] == 0 {
    } else {
      NameHasBytes(a, p + 1 + a[p] as nat);
    }
  }

  /** A name depends only on its own bytes. */
  lemma {:induction false} NameDependsOnBytes(a: seq<byte>, b: seq<byte>, p: nat)
    requires DecodeName(a, p).Some? && DecodeName(a, p).value.next <= |b|
    requires forall i :: p <= i < DecodeName(a, p).value.next ==> i < |a| && a[i] == b[i]
    ensures DecodeName(b, p) == DecodeName(a, p) && p < DecodeName(a, p).value.next
    decreases |a| - p
  {
    NameHasBytes(a, p);
    if a[p] == 0 {
    } else {
      var n := a[p] as nat;
      NameHasBytes(a, p + 1 + n);
      NameDependsOnBytes(a, b, p + 1 + n);
      assert a[p + 1..p + 1 + n] == b[p + 1..p + 1 + n];
    }
  }

  /** A query whose first question is complete and whose name has at most 255 octets. */
  ghost predicate WellFormed(query: seq<byte>, len: nat)
  {
    && IsQuery(query, len)
    && DecodeQuestion(query[..len]).Some?
    && DecodeQuestion(query[..len]).value.1 - 4 - HEADER <= 255
  }

  lemma {:induction false} AnswerDecodes(sent: seq<byte>, q: nat, labels: seq<seq<byte>>, ip: Ip4)
    requires |sent| == q + 16 && sent[q..] == AnswerBytes(ip)
    requires DecodeName(sent, HEADER).Some? && DecodeName(sent, HEADER).value.labels == labels
    ensures DecodeRecord(sent, q) == Some((Record(labels, 1, 1, 60, ip), q + 16))
  {
    var answer := sent[q..];
    assert sent[q] == answer[0] == 0xC0 && sent[q + 1] == answer[1] == 12;
    assert sent[q + 2] == answer[2] == 0 && sent[q + 3] == answer[3] == 1;
    assert sent[q + 4] == answer[4] == 0 && sent[q + 5] == answer[5] == 1;
    assert sent[q + 6] == answer[6] == 0 && sent[q + 7] == answer[7] == 0;
    assert sent[q + 8] == answer[8] == 0 && sent[q + 9] == answer[9] == 60;
    assert sent[q + 10] == answer[10] == 0 && sent[q + 11] == answer[11] == 4;
    assert sent[q + 12..q + 16] == answer[12..16] == ip;
  }

  lemma {:induction false} NameFromWalk(msg: seq<byte>, len: nat, p: nat)
    requires len <= |msg| && Walk(msg, len, p).Some? && Walk(msg, len, p).value < len
    ensures DecodeName(msg[..len], p).Some?
    decreases len - p
  {
    assert p < len ==> msg[..len][p] == msg[p];
    if len <= p || msg[p] == 0 {
    } else {
      NameFromWalk(msg, len, p + 1 + msg[p] as nat);
    }
  }

  /** The queries answered with a complete question are those whose question was received in full. */
  lemma {:induction false} WellFormedExactly(query: seq<byte>, len: nat)
    requires len <= |query|
    ensures WellFormed(query, len) <==> QuestionEnd(query, len).Some? && QuestionEnd(query, len).value <= len
    ensures WellFormed(query, len) ==> DecodeQuestion(query[..len]).value.1 == QuestionEnd(query, len).value
  {
    if IsQuery(query, len) {
      if DecodeName(query[..len], HEADER).Some? {
        WalkAgrees(query, len, HEADER);
      } else if Walk(query, len, HEADER).Some? && Walk(query, len, HEADER).value < len {
        NameFromWalk(query, len, HEADER);
      }
    }
  }

  // ----- which messages are answered, stated on their bytes -----

  /** Label k is 1 to 63 bytes long and starts inside the message; the next one starts behind it. */
  predicate LabelAt(msg: seq<byte>, len: nat, starts: seq<nat>, k: nat)
    requires len <= |msg| && k + 1 < |starts|
  {
    starts[k] < len && 1 <= msg[starts[k]] as int <= 63 && starts[k + 1] == starts[k] + 1 + msg[starts[k]] as nat
  }

  /** Labels from p on, one behind the other, up to an empty one or to the end of the message. */
  ghost predicate LabelChain(msg: seq<byte>, len: nat, p: nat, starts: seq<nat>, end: nat)
    requires len <= |msg|
  {
    && starts != [] && starts[0] == p
    && (forall k :: 0 <= k < |starts| - 1 ==> LabelAt(msg, len, starts, k))
    && var last := starts[|starts| - 1];
       if last < len then msg[last] == 0 && end == last + 1 else end == last
  }

  lemma {:induction false} WalkHasChain(msg: seq<byte>, len: nat, p: nat) returns (starts: seq<nat>)
    requires len <= |msg| && Walk(msg, len, p).Some?
    ensures LabelChain(msg, len, p, starts, Walk(msg, len, p).value)
    decreases len - p
  {
    if len <= p || msg[p] == 0 {
      starts := [p];
    } else {
      var rest := WalkHasChain(msg, len, p + 1 + msg[p] as nat);
      starts := [p] + rest;
      forall k | 0 <= k < |starts| - 1 ensures LabelAt(msg, len, starts, k) {
        assert k > 0 ==> LabelAt(msg, len, rest, k - 1);
      }
    }
  }

  lemma {:induction false} ChainIsWalked(msg: seq<byte>, len: nat, p: nat, starts: seq<nat>, end: nat)
    requires len <= |msg| && LabelChain(msg, len, p, starts, end)
    ensures Walk(msg, len, p) == Some(end)
    decreases |starts|
  {
    if |starts| == 1 {
    } else {
      var rest := starts[1..];
      assert LabelAt(msg, len, starts, 0);
      forall k | 0 <= k < |rest| - 1 ensures LabelAt(msg, len, rest, k) {
        assert LabelAt(msg, len, starts, k + 1);
      }
      ChainIsWalked(msg, len, rest[0], rest, end);
    }
  }

  /** The question name ends at e, with at most 255 octets. */
  ghost predicate NameEnds(msg: seq<byte>, len: nat, e: nat)
    requires len <= |msg|
  {
    e - 12 <= 255 && exists starts :: LabelChain(msg, len, 12, starts, e)
  }

  /**
   Which messages are answered: the query bit and the opcode zero, whatever the other flags, at
   least one question, and a name of valid labels.  The question ends four bytes behind the name.
   */
  lemma {:induction false} AnsweredExactly(msg: seq<byte>, len: nat, qr: nat, opcode: nat, rest: nat, q: nat)
    requires 12 <= len <= |msg|
    requires qr < 2 && opcode < 16 && rest < 0x800
    requires msg[2] as nat * 256 + msg[3] as nat == qr * 0x8000 + opcode * 0x800 + rest
    ensures QuestionEnd(msg, len) == Some(q) <==>
      qr == 0 && opcode == 0 && msg[4] as nat * 256 + msg[5] as nat >= 1 && q >= 4 && NameEnds(msg, len, q - 4)
  {
    assert msg[2] as nat / 128 == qr && msg[2] as nat / 8 % 16 == opcode;
    var w := Walk(msg, len, HEADER);
    if w.Some? {
      var starts := WalkHasChain(msg, len, HEADER);
    }
    if q >= 4 && NameEnds(msg, len, q - 4) {
      var starts :| LabelChain(msg, len, 12, starts, q - 4);
      ChainIsWalked(msg, len, 12, starts, q - 4);
    }
  }

  /** Every decodable first question of at most 255 octets in a message with such a header is answered. */
  lemma {:induction false} DecodableIsAnswered(msg: seq<byte>, len: nat, flags: nat)
    requires 12 <= len <= |msg| && flags < 0x800
    requires msg[2] as nat * 256 + msg[3] as nat == flags && msg[4] as nat * 256 + msg[5] as nat >= 1
    requires DecodeQuestion(msg[..len]).Some? && DecodeQuestion(msg[..len]).value.1 <= 12 + 255 + 4
    ensures QuestionEnd(msg, len) == Some(DecodeQuestion(msg[..len]).value.1)
  {
    assert msg[2] as nat / 128 == 0 && msg[2] as nat / 8 % 16 == 0;
    WalkAgrees(msg, len, HEADER);
  }

  /** What a resolver sends for example.com: recursion desired, one question, type A, class IN. */
  const EXAMPLE_QUERY: seq<byte> := [
    0x12, 0x34, 0x01, 0x00, 0, 1, 0, 0, 0, 0, 0, 0,
    7, 101, 120, 97, 109, 112, 108, 101, 3, 99, 111, 109, 0, 0, 1, 0, 1]

  lemma {:induction false} ExampleIsAnswered(msg: seq<byte>)
    requires |msg| == 300 && msg[..29] == EXAMPLE_QUERY
    ensures QuestionEnd(msg, 29) == Some(29)
  {
    var head := msg[..29];
    assert msg[2] == head[2] && msg[3] == head[3] && msg[4] == head[4] && msg[5] == head[5];
    assert msg[12] == head[12] && msg[20] == head[20] && msg[24] == head[24];
    assert Walk(msg, 29, 24) == Some(25);
    assert Walk(msg, 29, 20) == Some(25);
    assert Walk(msg, 29, 12) == Some(25);
  }

  /** A query cut off inside its only label is answered all the same, with bytes it did not contain. */
  lemma {:induction false} CutOffQuestionIsAnswered(query: seq<byte>)
    requires |query| == MAX_DNS_MSG_SIZE && query[..13] == [0, 0, 0, 0, 0, 1, 0, 0, 0, 0, 0, 0, 5]
    ensures QuestionEnd(query, 13) == Some(22) && !WellFormed(query, 13)
  {
    var head := query[..13];
    assert query[2] == head[2] && query[4] == head[4] && query[5] == head[5] && query[12] == head[12];
    assert Walk(query, 13, 18) == Some(18);
    WellFormedExactly(query, 13);
  }

  lemma {:induction false} QuestionIsEchoed(asked: seq<byte>, sent: seq<byte>)
    requires DecodeQuestion(asked).Some? && DecodeQuestion(asked).value.1 <= |sent|
    requires forall i :: HEADER <= i < DecodeQuestion(asked).value.1 ==> sent[i] == asked[i]
    ensures DecodeQuestion(sent) == DecodeQuestion(asked)
    ensures DecodeName(sent, HEADER) == DecodeName(asked, HEADER)
  {
    NameHasBytes(asked, HEADER);
    NameDependsOnBytes(asked, sent, HEADER);
  }

  lemma {:induction false} HeaderDecodes(query: seq<byte>, reply: seq<byte>, q: nat)
    requires |reply| == |query| && HEADER <= q && q + 16 <= |reply|
    requires reply[..2] == query[..2] && reply[2..HEADER] == [0x84, 0x80, 0, 1, 0, 1, 0, 0, 0, 0]
    ensures var sent := reply[..q + 16];
            && U16(sent, 0) == U16(query, 0)
            && U16(sent, 2) == 0x8480
            && U16(sent, 4) == 1 && U16(sent, 6) == 1 && U16(sent, 8) == 0 && U16(sent, 10) == 0
  {
    var head := reply[2..HEADER];
    assert reply[..2][0] == query[..2][0] && reply[..2][1] == query[..2][1];
    assert reply[2] == head[0] && reply[3] == head[1] && reply[4] == head[2] && reply[5] == head[3];
    assert reply[6] == head[4] && reply[7] == head[5] && reply[8] == head[6] && reply[9] == head[7];
    assert reply[10] == head[8] && reply[11] == head[9];
  }

  /**
   Every well-formed query is answered, and a decoder that follows RFC 1035 recovers from the
   bytes sent the query's id, its first question and one address record for that name.
   */
  lemma {:induction false} ReplyAnswersQuery(query: seq<byte>, len: nat, reply: seq<byte>, q: nat, ip: Ip4)
    requires |query| == MAX_DNS_MSG_SIZE && len <= MAX_DNS_MSG_SIZE
    requires WellFormed(query, len) && q == DecodeQuestion(query[..len]).value.1
    requires IsReply(query, reply, q, ip)
    ensures var sent, question := reply[..q + 16], DecodeQuestion(query[..len]).value.0;
            && U16(sent, 0) == U16(query, 0)
            && U16(sent, 2) == 0x8480
            && U16(sent, 4) == 1 && U16(sent, 6) == 1 && U16(sent, 8) == 0 && U16(sent, 10) == 0
            && DecodeQuestion(sent) == Some((question, q))
            && DecodeRecord(sent, q) == Some((Record(question.labels, 1, 1, 60, ip), q + 16))
  {
    var asked, sent := query[..len], reply[..q + 16];
    forall i | HEADER <= i < q
      ensures sent[i] == asked[i]
    {
      assert reply[HEADER..q][i - HEADER] == query[HEADER..q][i - HEADER];
    }
    QuestionIsEchoed(asked, sent);
    assert sent[q..] == reply[q..q + 16];
    AnswerDecodes(sent, q, DecodeName(asked, HEADER).value.labels, ip);
    HeaderDecodes(query, reply, q);
  }
}
