/**
 `dhcp_server_process`: from a received datagram to the lease table and the reply, which is
 built over the request in the same buffer.
 */
module DhcpServer {
  import opened Bytes
  import opened DhcpLease
  import opened DhcpOptions

  // Offsets into dhcp_msg_t.
  const YIADDR := 16
  const CHADDR := 28
  const OPTIONS := 240
  const MSG_SIZE := 548
  const MIN_SIZE := 243
  /** The struct and the bytes behind it that the option reader can reach. */
  const FRAME := 556

  const BASE_IP := 16
  const LEASE_S := 86_400

  const OPT_SUBNET_MASK: byte := 1
  const OPT_ROUTER: byte := 3
  const OPT_DNS: byte := 6
  const OPT_REQUESTED_IP: byte := 50
  const OPT_LEASE_TIME: byte := 51
  const OPT_MSG_TYPE: byte := 53
  const OPT_SERVER_ID: byte := 54

  const DISCOVER: byte := 1
  const OFFER: byte := 2
  const REQUEST: byte := 3
  const ACK: byte := 5

  function MacOf(msg: seq<byte>): Mac
    requires FRAME <= |msg|
  {
    Mac(msg[CHADDR], msg[CHADDR + 1], msg[CHADDR + 2], msg[CHADDR + 3], msg[CHADDR + 4], msg[CHADDR + 5])
  }

  /** The message as the lease table sees it; None when the server ignores it beforehand. */
  function Parse(msg: seq<byte>, len: nat, ip: Ip4, now: nat): Option<Event>
    requires FRAME <= |msg|
  {
    if len < MIN_SIZE then None else
      var area := msg[OPTIONS..];
      var kind := FindFrom(area, 0, OPT_MSG_TYPE);
      if kind < 0 then None
      else if area[kind + 2] == DISCOVER then Some(Discover(MacOf(msg), now))
      else if area[kind + 2] != REQUEST then None else
        var o := FindFrom(area, 0, OPT_REQUESTED_IP);
        if o < 0 || area[o + 2..o + 5] != ip[..3] then None else
          var slot := (area[o + 5] as int - BASE_IP) % 256;
          if MAX_IP <= slot then None else Some(Request(MacOf(msg), slot, now))
  }

  /** The request with the op and address fields written, before its type is known. */
  function Prepared(msg: seq<byte>, ip: Ip4): (r: seq<byte>)
    requires FRAME <= |msg|
    ensures |r| == |msg|
  {
    msg[0 := OFFER][YIADDR := ip[0]][YIADDR + 1 := ip[1]][YIADDR + 2 := ip[2]][YIADDR + 3 := ip[3]]
  }

  lemma PrepareKeepsParse(msg: seq<byte>, len: nat, ip: Ip4, now: nat)
    requires FRAME <= |msg| && MIN_SIZE <= len
    ensures Parse(Prepared(msg, ip), MIN_SIZE, ip, now) == Parse(msg, len, ip, now)
  {
  }

  /** The slot and the message type of the reply to an event, if there is one. */
  function Answer(t: Table, e: Event): Option<(nat, byte)>
  {
    match e
    case Discover(mac, at) =>
      var slot := OfferedSlot(t, mac, at);
      if slot < MAX_IP then Some((slot, OFFER)) else None
    case Request(mac, slot, at) =>
      if slot < MAX_IP && Grantable(t[slot], mac) then Some((slot, ACK)) else None
  }

  /** The options of a reply after its message type. */
  function CommonOptions(ip: Ip4, nm: Ip4): seq<Opt>
  {
    [Opt(OPT_SERVER_ID, ip), Opt(OPT_SUBNET_MASK, nm), Opt(OPT_ROUTER, ip), Opt(OPT_DNS, ip),
     Opt(OPT_LEASE_TIME, BigEndian(LEASE_S))]
  }

  function ReplyOptions(kind: byte, ip: Ip4, nm: Ip4): (opts: seq<Opt>)
    ensures AllWritable(opts)
  {
    [Opt(OPT_MSG_TYPE, [kind])] + CommonOptions(ip, nm)
  }

  function CommonBytes(ip: Ip4, nm: Ip4): seq<byte>
  {
    ([OPT_SERVER_ID, 4] + ip) + ([OPT_SUBNET_MASK, 4] + nm) + ([OPT_ROUTER, 4] + ip) + ([OPT_DNS, 4] + ip)
    + ([OPT_LEASE_TIME, 4] + BigEndian(LEASE_S)) + [OPT_END]
  }

  function ReplyBytes(kind: byte, ip: Ip4, nm: Ip4): seq<byte>
  {
    [OPT_MSG_TYPE, 1, kind] + CommonBytes(ip, nm)
  }

  lemma EncodeNext(opts: seq<Opt>, k: nat)
    requires AllWritable(opts) && k < |opts|
    ensures Encode(opts[k..]) == EncodeOne(opts[k]) + Encode(opts[k + 1..])
  {
  }

  lemma Reassociate(a: seq<byte>, b: seq<byte>, c: seq<byte>, d: seq<byte>, e: seq<byte>, f: seq<byte>, end: seq<byte>)
    ensures a + (b + c + d + e + f + end) == a + (b + (c + (d + (e + (f + []))))) + end
  {
  }

  lemma EncodeSix(opts: seq<Opt>)
    requires AllWritable(opts) && |opts| == 6
    ensures Encode(opts) ==
      EncodeOne(opts[0]) + (EncodeOne(opts[1]) + (EncodeOne(opts[2]) +
        (EncodeOne(opts[3]) + (EncodeOne(opts[4]) + (EncodeOne(opts[5]) + [])))))
  {
    assert Encode(opts[6..]) == [];
    EncodeNext(opts, 5);
    EncodeNext(opts, 4);
    EncodeNext(opts, 3);
    EncodeNext(opts, 2);
    EncodeNext(opts, 1);
    EncodeNext(opts, 0);
    assert opts[0..] == opts;
  }

  /** The bytes written for a reply are the encoding of its six options, closed by END. */
  lemma ReplyBytesEncode(kind: byte, ip: Ip4, nm: Ip4)
    ensures ReplyBytes(kind, ip, nm) == Encode(ReplyOptions(kind, ip, nm)) + [OPT_END]
    ensures |ReplyBytes(kind, ip, nm)| == 34
  {
    var opts := ReplyOptions(kind, ip, nm);
    EncodeSix(opts);
    Reassociate(EncodeOne(opts[0]), EncodeOne(opts[1]), EncodeOne(opts[2]),
                EncodeOne(opts[3]), EncodeOne(opts[4]), EncodeOne(opts[5]), [OPT_END]);
  }

  lemma ReplyDecodesAt(area: seq<byte>, opts: seq<Opt>, k: nat)
    requires AREA < |area| && AllWritable(opts) && |Encode(opts)| < AREA
    requires At(area, 0, Encode(opts)) && area[|Encode(opts)|] == OPT_END
    requires k < |opts| && forall j :: 0 <= j < k ==> opts[j].code != opts[k].code
    ensures FoundValue(area, FindFrom(area, 0, opts[k].code), opts[k].value)
  {
    OptionRoundTrip(area, opts, opts[k].code);
    assert FirstWith(opts, opts[k].code) == k;
  }

  /** Every reply's options decode, with the server's own reader, to the intended values. */
  lemma ReplyDecodes(area: seq<byte>, kind: byte, ip: Ip4, nm: Ip4)
    requires AREA < |area| && At(area, 0, ReplyBytes(kind, ip, nm))
    ensures FoundValue(area, FindFrom(area, 0, OPT_MSG_TYPE), [kind])
    ensures FoundValue(area, FindFrom(area, 0, OPT_SERVER_ID), ip)
    ensures FoundValue(area, FindFrom(area, 0, OPT_SUBNET_MASK), nm)
    ensures FoundValue(area, FindFrom(area, 0, OPT_ROUTER), ip)
    ensures FoundValue(area, FindFrom(area, 0, OPT_DNS), ip)
    ensures FoundValue(area, FindFrom(area, 0, OPT_LEASE_TIME), BigEndian(LEASE_S))
  {
    var opts := ReplyOptions(kind, ip, nm);
    ReplyBytesEncode(kind, ip, nm);
    AtSplit(area, 0, Encode(opts), [OPT_END]);
    assert area[|Encode(opts)| + 0] == [OPT_END][0];
    ReplyDecodesAt(area, opts, 0);
    ReplyDecodesAt(area, opts, 1);
    ReplyDecodesAt(area, opts, 2);
    ReplyDecodesAt(area, opts, 3);
    ReplyDecodesAt(area, opts, 4);
    ReplyDecodesAt(area, opts, 5);
  }

  /** The reply: the request with op, offered address and options replaced. */
  ghost predicate IsReply(request: seq<byte>, reply: seq<byte>, slot: nat, kind: byte, ip: Ip4, nm: Ip4)
    requires slot < MAX_IP
  {
    && |reply| == |request| == FRAME
    && reply[0] == OFFER
    && reply[YIADDR..YIADDR + 4] == ip[..3] + [(BASE_IP + slot) as byte]
    && reply[1..YIADDR] == request[1..YIADDR]
    && reply[YIADDR + 4..OPTIONS] == request[YIADDR + 4..OPTIONS]
    && At(reply[OPTIONS..], 0, ReplyBytes(kind, ip, nm))
  }

  /** The reply byte by byte, with the offsets of section 2 of RFC 2131 and the codes of RFC 2132. */
  lemma ReplyOnTheWire(request: seq<byte>, reply: seq<byte>, slot: nat, kind: byte, ip: Ip4, nm: Ip4)
    requires slot < MAX_IP && IsReply(request, reply, slot, kind, ip, nm)
    ensures slot < 8 && reply[0] == 2
    ensures reply[16..20] == [ip[0], ip[1], ip[2], (16 + slot) as byte]
    ensures reply[240..274] ==
      [53, 1, kind] + ([54, 4] + ip) + ([1, 4] + nm) + ([3, 4] + ip) + ([6, 4] + ip) + [51, 4, 0, 1, 0x51, 0x80, 255]
    ensures forall k :: 1 <= k < 16 || 20 <= k < 240 ==> reply[k] == request[k]
  {
    var bytes := ReplyBytes(kind, ip, nm);
    ReplyBytesEncode(kind, ip, nm);
    assert reply[240..274] == bytes by {
      assert forall k :: 0 <= k < 34 ==> reply[OPTIONS..][0 + k] == bytes[k];
    }
    assert bytes ==
      [53, 1, kind] + ([54, 4] + ip) + ([1, 4] + nm) + ([3, 4] + ip) + ([6, 4] + ip) + [51, 4, 0, 1, 0x51, 0x80, 255];
    forall k | 1 <= k < 16 || 20 <= k < 240 ensures reply[k] == request[k] {
      if k < 16 {
        assert reply[1..YIADDR][k - 1] == request[1..YIADDR][k - 1];
      } else {
        assert reply[YIADDR + 4..OPTIONS][k - 20] == request[YIADDR + 4..OPTIONS][k - 20];
      }
    }
  }

  lemma PutIsReply(request: seq<byte>, addressed: seq<byte>, slot: nat, kind: byte, ip: Ip4, nm: Ip4)
    requires |request| == FRAME && slot < MAX_IP
    requires addressed == Prepared(request, ip)[YIADDR + 3 := (BASE_IP + slot) as byte]
    requires |ReplyBytes(kind, ip, nm)| == 34
    ensures IsReply(request, Put(addressed, OPTIONS, ReplyBytes(kind, ip, nm)), slot, kind, ip, nm)
  {
  }

  /** The table after a datagram. */
  function AfterDatagram(t: Table, msg: seq<byte>, len: nat, ip: Ip4, now: nat): Table
    requires FRAME <= |msg|
  {
    var e := Parse(msg, len, ip, now);
    if e.None? then t else Step(t, e.value)
  }

  /** What is sent back for a datagram: a reply of `sent` bytes, or nothing. */
  ghost predicate Replies(t: Table, msg: seq<byte>, len: nat, now: nat, sent: nat, reply: seq<byte>, ip: Ip4, nm: Ip4)
    requires FRAME <= |msg|
  {
    var e := Parse(msg, len, ip, now);
    var a := if e.None? then None else Answer(t, e.value);
    if a.None? then sent == 0 else sent == OPTIONS + 34 && IsReply(msg, reply, a.value.0, a.value.1, ip, nm)
  }

  // ----- a client's messages are understood -----

  /** The option area of a message holds exactly these options, closed by END. */
  ghost predicate Carries(msg: seq<byte>, opts: seq<Opt>)
  {
    && |msg| == FRAME
    && AllWritable(opts)
    && |Encode(opts)| < 308
    && At(msg[OPTIONS..], 0, Encode(opts))
    && msg[OPTIONS..][|Encode(opts)|] == OPT_END
  }

  /** The first option with this code has this value. */
  ghost predicate Says(opts: seq<Opt>, code: byte, value: seq<byte>)
  {
    var k := FirstWith(opts, code);
    k < |opts| && opts[k].value == value
  }

  lemma SaidIsFound(msg: seq<byte>, opts: seq<Opt>, code: byte, value: seq<byte>)
    requires Carries(msg, opts) && Says(opts, code, value) && code != OPT_END
    ensures FoundValue(msg[OPTIONS..], FindFrom(msg[OPTIONS..], 0, code), value)
  {
    OptionRoundTrip(msg[OPTIONS..], opts, code);
  }

  /** Whatever other options a DISCOVER carries, and in whatever order, it reaches the table. */
  lemma DiscoverIsUnderstood(msg: seq<byte>, len: nat, opts: seq<Opt>, ip: Ip4, now: nat)
    requires MIN_SIZE <= len && Carries(msg, opts) && Says(opts, OPT_MSG_TYPE, [DISCOVER])
    ensures Parse(msg, len, ip, now) == Some(Discover(MacOf(msg), now))
  {
    SaidIsFound(msg, opts, OPT_MSG_TYPE, [DISCOVER]);
    assert msg[OPTIONS..][FindFrom(msg[OPTIONS..], 0, OPT_MSG_TYPE) + 2 + 0] == [DISCOVER][0];
  }

  lemma FoundAddress(area: seq<byte>, o: int, net: seq<byte>, host: byte)
    requires |net| == 3 && FoundValue(area, o, net + [host])
    ensures area[o + 2..o + 5] == net && area[o + 5] == host
  {
    var address := net + [host];
    assert area[o + 2 + 0] == address[0] && area[o + 2 + 1] == address[1] && area[o + 2 + 2] == address[2];
    assert area[o + 2 + 3] == address[3];
  }

  /** Whatever other options a REQUEST carries, it asks for the slot of the address it names. */
  lemma RequestIsUnderstood(msg: seq<byte>, len: nat, opts: seq<Opt>, slot: nat, ip: Ip4, now: nat)
    requires MIN_SIZE <= len && Carries(msg, opts) && slot < MAX_IP
    requires Says(opts, OPT_MSG_TYPE, [REQUEST])
    requires Says(opts, OPT_REQUESTED_IP, ip[..3] + [(BASE_IP + slot) as byte])
    ensures Parse(msg, len, ip, now) == Some(Request(MacOf(msg), slot, now))
  {
    var area, address := msg[OPTIONS..], ip[..3] + [(BASE_IP + slot) as byte];
    SaidIsFound(msg, opts, OPT_MSG_TYPE, [REQUEST]);
    assert area[FindFrom(area, 0, OPT_MSG_TYPE) + 2 + 0] == [REQUEST][0];
    SaidIsFound(msg, opts, OPT_REQUESTED_IP, address);
    FoundAddress(area, FindFrom(area, 0, OPT_REQUESTED_IP), ip[..3], (BASE_IP + slot) as byte);
  }

  /** The shortest DISCOVER and a REQUEST, byte by byte. */
  lemma MessagesOnTheWire(msg: seq<byte>, len: nat, address: Ip4, ip: Ip4, now: nat)
    requires |msg| == FRAME && 243 <= len
    ensures var mac := Mac(msg[28], msg[29], msg[30], msg[31], msg[32], msg[33]);
      && (msg[240..244] == [53, 1, 1, 255] ==> Parse(msg, len, ip, now) == Some(Discover(mac, now)))
      && (msg[240..250] == [53, 1, 3, 50, 4] + address + [255] && address[..3] == ip[..3] && address[3] == 23 ==>
            Parse(msg, len, ip, now) == Some(Request(mac, 7, now)))
  {
    var area := msg[OPTIONS..];
    if msg[240..244] == [53, 1, 1, 255] {
      assert area[0] == msg[240..244][0] == 53 && area[2] == msg[240..244][2] == 1;
    }
    if msg[240..250] == [53, 1, 3, 50, 4] + address + [255] {
      var o := msg[240..250];
      assert area[0] == o[0] && area[1] == o[1] && area[2] == o[2] && area[3] == o[3];
      assert FindFrom(area, 0, OPT_REQUESTED_IP) == FindFrom(area, 3, OPT_REQUESTED_IP) == 3;
      assert area[5] == o[5] && area[6] == o[6] && area[7] == o[7] && area[8] == o[8];
      assert area[5..8] == address[..3];
    }
  }

  /** A REQUEST for any address: only the eight of the pool, in the server's own network, reach the table. */
  lemma RequestParsedExactly(msg: seq<byte>, len: nat, opts: seq<Opt>, address: Ip4, ip: Ip4, now: nat)
    requires 243 <= len && Carries(msg, opts)
    requires Says(opts, OPT_MSG_TYPE, [REQUEST]) && Says(opts, OPT_REQUESTED_IP, address)
    ensures Parse(msg, len, ip, now) ==
      if address[..3] == ip[..3] && 16 <= address[3] as int < 24
      then Some(Request(MacOf(msg), address[3] as int - 16, now)) else None
  {
    var area := msg[OPTIONS..];
    SaidIsFound(msg, opts, OPT_MSG_TYPE, [REQUEST]);
    assert area[FindFrom(area, 0, OPT_MSG_TYPE) + 2 + 0] == [REQUEST][0];
    SaidIsFound(msg, opts, OPT_REQUESTED_IP, address);
    assert address == address[..3] + [address[3]];
    FoundAddress(area, FindFrom(area, 0, OPT_REQUESTED_IP), address[..3], address[3]);
  }

  /** The message types the server does not serve, and messages that lack what it needs. */
  ghost predicate Unserved(len: nat, opts: seq<Opt>)
  {
    || len < 243
    || (forall o :: o in opts ==> o.code != 53)
    || (exists kind: byte :: kind != 1 && kind != 3 && Says(opts, 53, [kind]))
    || (Says(opts, 53, [3]) && forall o :: o in opts ==> o.code != 50)
  }

  lemma UnservedIsIgnored(msg: seq<byte>, len: nat, opts: seq<Opt>, ip: Ip4, now: nat)
    requires Carries(msg, opts) && Unserved(len, opts)
    ensures Parse(msg, len, ip, now) == None
  {
    var area := msg[OPTIONS..];
    OptionRoundTrip(area, opts, 53);
    OptionRoundTrip(area, opts, 50);
    if kind: byte :| kind != 1 && kind != 3 && Says(opts, 53, [kind]) {
      assert area[FindFrom(area, 0, 53) + 2 + 0] == [kind][0];
    } else if Says(opts, 53, [3]) {
      assert area[FindFrom(area, 0, 53) + 2 + 0] == [3 as byte][0];
    }
  }

  /** A client that requests the address it was sent in a reply asks for the slot it was offered. */
  lemma OfferedAddressIsUnderstood(request: seq<byte>, reply: seq<byte>, slot: nat, kind: byte, ip: Ip4, nm: Ip4,
                                   msg: seq<byte>, len: nat, opts: seq<Opt>, now: nat)
    requires slot < MAX_IP && IsReply(request, reply, slot, kind, ip, nm)
    requires MIN_SIZE <= len && Carries(msg, opts)
    requires Says(opts, OPT_MSG_TYPE, [REQUEST]) && Says(opts, OPT_REQUESTED_IP, reply[YIADDR..YIADDR + 4])
    ensures Parse(msg, len, ip, now) == Some(Request(MacOf(msg), slot, now))
  {
    RequestIsUnderstood(msg, len, opts, slot, ip, now);
  }

  lemma AreaReads(m: seq<byte>, o: nat)
    requires OPTIONS + o + 5 < |m|
    ensures m[OPTIONS..][o + 2..o + 5] == m[OPTIONS + o + 2..OPTIONS + o + 5]
    ensures m[OPTIONS..][o + 5] == m[OPTIONS + o + 5]
  {
    SliceOfDrop(m, OPTIONS, o + 2, o + 5);
  }

  class Server {
    const ip: Ip4
    const nm: Ip4
    const leases: LeaseTable

    ghost predicate Valid() { leases.Valid() }

    constructor (ip: Ip4, nm: Ip4)
      ensures Valid() && this.ip == ip && this.nm == nm
      ensures leases.lease[..] == EMPTY_TABLE && fresh(leases.lease)
    {
      this.ip, this.nm := ip, nm;
      leases := new LeaseTable();
    }

    /** One more option behind the bytes already written over m. */
    method Append(msg: array<byte>, opt: nat, cmd: byte, data: seq<byte>,
                  ghost m: seq<byte>, ghost at: nat, ghost done: seq<byte>)
      returns (next: nat)
      requires |data| < 256 && opt + 2 + |data| <= msg.Length == |m|
      requires opt == at + |done| && msg[..] == Put(m, at, done)
      modifies msg
      ensures next == opt + 2 + |data|
      ensures msg[..] == Put(m, at, done + ([cmd, |data| as byte] + data))
    {
      next := OptWriteN(msg, opt, cmd, data);
      PutTwice(m, at, done, [cmd, |data| as byte] + data);
    }

    method WriteCommon(msg: array<byte>, at: nat) returns (opt: nat)
      requires at + 31 <= msg.Length
      modifies msg
      ensures msg[..] == Put(old(msg[..]), at, CommonBytes(ip, nm))
      ensures opt == at + 31
    {
      ghost var m := msg[..];
      opt := OptWriteN(msg, at, OPT_SERVER_ID, ip);
      ghost var b1 := [OPT_SERVER_ID, 4] + ip;
      opt := Append(msg, opt, OPT_SUBNET_MASK, nm, m, at, b1);
      ghost var b2 := b1 + ([OPT_SUBNET_MASK, 4] + nm);
      opt := Append(msg, opt, OPT_ROUTER, ip, m, at, b2);
      ghost var b3 := b2 + ([OPT_ROUTER, 4] + ip);
      opt := Append(msg, opt, OPT_DNS, ip, m, at, b3);
      ghost var b4 := b3 + ([OPT_DNS, 4] + ip);
      opt := WriteLease(msg, opt, m, at, b4);
    }

    method WriteLease(msg: array<byte>, opt: nat, ghost m: seq<byte>, ghost at: nat, ghost done: seq<byte>)
      returns (next: nat)
      requires opt + 7 <= msg.Length == |m|
      requires opt == at + |done| && msg[..] == Put(m, at, done)
      modifies msg
      ensures next == opt + 7
      ensures msg[..] == Put(m, at, done + ([OPT_LEASE_TIME, 4] + BigEndian(LEASE_S)) + [OPT_END])
    {
      next := OptWriteU32(msg, opt, OPT_LEASE_TIME, LEASE_S);
      ghost var lease := [OPT_LEASE_TIME, 4] + BigEndian(LEASE_S);
      PutTwice(m, at, done, lease);
      ghost var mid := msg[..];
      msg[next] := OPT_END;
      assert msg[..] == Put(mid, next, [OPT_END]);
      PutTwice(m, at, done + lease, [OPT_END]);
      next := next + 1;
    }

    /** The address and op fields, written before the message type is known. */
    method Prepare(msg: array<byte>)
      requires FRAME <= msg.Length
      modifies msg
      ensures msg[..] == Prepared(old(msg[..]), ip)
    {
      msg[0] := OFFER;
      msg[YIADDR], msg[YIADDR + 1], msg[YIADDR + 2], msg[YIADDR + 3] := ip[0], ip[1], ip[2], ip[3];
    }

    /** The checks before the table is touched: message type, requested address, pool range. */
    method Decode(msg: array<byte>, now: nat) returns (e: Option<Event>)
      requires FRAME <= msg.Length
      ensures e == Parse(msg[..], MIN_SIZE, ip, now)
    {
      var msgtype := OptFind(msg, OPTIONS, OPT_MSG_TYPE);
      assert msg[..][OPTIONS..] == msg[OPTIONS..];
      if msgtype < 0 {
        return None;
      }
      if msg[OPTIONS + msgtype + 2] == DISCOVER {
        return Some(Discover(MacOf(msg[..]), now));
      }
      if msg[OPTIONS + msgtype + 2] != REQUEST {
        return None;
      }
      var o := OptFind(msg, OPTIONS, OPT_REQUESTED_IP);
      if o < 0 {
        return None;
      }
      AreaReads(msg[..], o);
      if msg[..][OPTIONS + o + 2..OPTIONS + o + 5] != ip[..3] {
        return None;
      }
      var yi := (msg[OPTIONS + o + 5] as int - BASE_IP) % 256;
      return if MAX_IP <= yi then None else Some(Request(MacOf(msg[..]), yi, now));
    }

    /** The two arms of the switch. */
    method Apply(e: Event) returns (a: Option<(nat, byte)>)
      requires Valid()
      requires e.Request? ==> e.slot < MAX_IP
      modifies leases.lease
      ensures leases.lease[..] == Step(old(leases.lease[..]), e)
      ensures a == Answer(old(leases.lease[..]), e)
    {
      match e
      case Discover(mac, at) =>
        var slot := leases.Discover(mac, at);
        a := if slot < MAX_IP then Some((slot, OFFER)) else None;
      case Request(mac, slot, at) =>
        var ack := leases.Request(mac, slot, at);
        a := if ack then Some((slot, ACK)) else None;
    }

    method WriteReply(msg: array<byte>, slot: nat, kind: byte, ghost request: seq<byte>) returns (sent: nat)
      requires msg.Length == |request| == FRAME && msg[..] == Prepared(request, ip) && slot < MAX_IP
      modifies msg
      ensures sent == OPTIONS + 34 && IsReply(request, msg[..], slot, kind, ip, nm)
    {
      msg[YIADDR + 3] := (BASE_IP + slot) as byte;
      ghost var addressed := msg[..];
      var opt := OptWriteU8(msg, OPTIONS, OPT_MSG_TYPE, kind);
      opt := WriteCommon(msg, opt);
      PutTwice(addressed, OPTIONS, [OPT_MSG_TYPE, 1, kind], CommonBytes(ip, nm));
      ReplyBytesEncode(kind, ip, nm);
      PutIsReply(request, addressed, slot, kind, ip, nm);
      sent := opt;
    }

    /** `dhcp_server_process` for a datagram of len bytes copied into msg; sent is 0 without a reply. */
    method Process(msg: array<byte>, len: nat, now: nat) returns (sent: nat)
      requires Valid() && msg.Length == FRAME
      modifies msg, leases.lease
      ensures leases.lease[..] == AfterDatagram(old(leases.lease[..]), old(msg[..]), len, ip, now)
      ensures Replies(old(leases.lease[..]), old(msg[..]), len, now, sent, msg[..], ip, nm)
    {
      sent := 0;
      if len < MIN_SIZE {
        return;
      }
      ghost var request := msg[..];
      Prepare(msg);
      PrepareKeepsParse(request, len, ip, now);
      var e := Decode(msg, now);
      if e.Some? {
        var a := Apply(e.value);
        if a.Some? {
          sent := WriteReply(msg, a.value.0, a.value.1, request);
        }
      }
    }
  }
}
