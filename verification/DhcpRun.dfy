/**
 Whole runs of `dhcp_server_process` on datagrams: what clients see in the replies, whatever
 arrives, ill-formed messages included.
 */
module DhcpRun {
  import opened Bytes
  import opened DhcpLease
  import opened DhcpOptions
  import opened DhcpServer

  /** A datagram in the receive buffer, its arrival in true time, and what was sent for it. */
  datatype Exchange = Exchange(msg: seq<byte>, len: nat, at: nat, sent: nat, reply: seq<byte>)

  ghost predicate Framed(run: seq<Exchange>)
  {
    forall i :: 0 <= i < |run| ==> |run[i].msg| == |run[i].reply| == FRAME
  }

  /** The table before exchange i of a run that starts with table t. */
  ghost function TableBefore(t: Table, run: seq<Exchange>, ip: Ip4, i: nat): Table
    requires Framed(run) && i <= |run|
  {
    if i == 0 then t else
      AfterDatagram(TableBefore(t, run, ip, i - 1), run[i - 1].msg, run[i - 1].len, ip, run[i - 1].at)
  }

  ghost predicate ServedAt(t: Table, run: seq<Exchange>, ip: Ip4, nm: Ip4, i: nat)
    requires Framed(run) && i < |run|
  {
    Replies(TableBefore(t, run, ip, i), run[i].msg, run[i].len, run[i].at, run[i].sent, run[i].reply, ip, nm)
  }

  /** Every exchange of the run is what the server does. */
  ghost predicate Served(t: Table, run: seq<Exchange>, ip: Ip4, nm: Ip4)
  {
    Framed(run) && forall i :: 0 <= i < |run| ==> ServedAt(t, run, ip, nm, i)
  }

  ghost predicate Ordered(run: seq<Exchange>)
  {
    forall i, j :: 0 <= i < j < |run| ==> run[i].at <= run[j].at
  }

  // ----- what a client reads in a reply -----

  /** A reply was sent whose options, read as the server reads options, say this message type. */
  ghost predicate Sends(x: Exchange, kind: byte)
    requires |x.reply| == FRAME
  {
    x.sent != 0 && FoundValue(x.reply[OPTIONS..], FindFrom(x.reply[OPTIONS..], 0, OPT_MSG_TYPE), [kind])
  }

  function Yiaddr(reply: seq<byte>): (a: seq<byte>)
    requires |reply| == FRAME
  {
    reply[YIADDR..YIADDR + 4]
  }

  // ----- from datagrams to events -----

  /** The event of a datagram; for one the server ignores, an event without effect. */
  ghost function EventOf(x: Exchange, ip: Ip4): (e: Event)
    requires |x.msg| == FRAME
    ensures e.at == x.at
  {
    var e := Parse(x.msg, x.len, ip, x.at);
    if e.None? then Request(ZERO_MAC, MAX_IP, x.at) else e.value
  }

  ghost function Events(run: seq<Exchange>, ip: Ip4): (es: seq<Event>)
    requires Framed(run)
    ensures |es| == |run|
    ensures forall i :: 0 <= i < |run| ==> es[i] == EventOf(run[i], ip)
  {
    seq(|run|, i requires 0 <= i < |run| => EventOf(run[i], ip))
  }

  lemma {:induction false} SameTables(t: Table, run: seq<Exchange>, ip: Ip4, i: nat)
    requires Framed(run) && i <= |run|
    ensures TableBefore(t, run, ip, i) == TableAt(t, Events(run, ip), i)
    decreases i
  {
    if i == 0 {
    } else {
      SameTables(t, run, ip, i - 1);
      TableStep(t, Events(run, ip), i);
    }
  }

  lemma ReplyKeepsMac(request: seq<byte>, reply: seq<byte>, slot: nat, kind: byte, ip: Ip4, nm: Ip4)
    requires slot < MAX_IP && IsReply(request, reply, slot, kind, ip, nm)
    ensures MacOf(reply) == MacOf(request)
  {
    var a, b := reply[YIADDR + 4..OPTIONS], request[YIADDR + 4..OPTIONS];
    assert forall k :: YIADDR + 4 <= k < OPTIONS ==>
      reply[k] == a[k - YIADDR - 4] == b[k - YIADDR - 4] == request[k];
  }

  /** What a sent reply tells about the table and the message behind it. */
  lemma ReplyTells(t: Table, x: Exchange, kind: byte, ip: Ip4, nm: Ip4) returns (slot: nat)
    requires |x.msg| == |x.reply| == FRAME && Sends(x, kind)
    requires Replies(t, x.msg, x.len, x.at, x.sent, x.reply, ip, nm)
    ensures slot < MAX_IP && Answer(t, EventOf(x, ip)) == Some((slot, kind))
    ensures IsReply(x.msg, x.reply, slot, kind, ip, nm)
    ensures MacOf(x.reply) == MacOf(x.msg) == EventOf(x, ip).mac
  {
    var e := Parse(x.msg, x.len, ip, x.at).value;
    var a := Answer(t, e).value;
    slot := a.0;
    var area := x.reply[OPTIONS..];
    ReplyDecodes(area, a.1, ip, nm);
    assert area[FindFrom(area, 0, OPT_MSG_TYPE) + 2 + 0] == [kind][0] == [a.1][0];
    ReplyKeepsMac(x.msg, x.reply, slot, kind, ip, nm);
  }

  lemma SameAddressSameSlot(a: seq<byte>, b: seq<byte>, slot: nat, slot': nat, ip: Ip4)
    requires slot < MAX_IP && slot' < MAX_IP
    requires a == ip[..3] + [(BASE_IP + slot) as byte] && b == ip[..3] + [(BASE_IP + slot') as byte]
    ensures a == b <==> slot == slot'
  {
    assert a[3] == (BASE_IP + slot) as byte && b[3] == (BASE_IP + slot') as byte;
  }

  /** An ACK on the wire is an ACK of the lease table. */
  lemma AckTells(t: Table, run: seq<Exchange>, i: nat, ip: Ip4, nm: Ip4) returns (slot: nat)
    requires Served(t, run, ip, nm) && i < |run| && Sends(run[i], ACK)
    ensures Acked(t, Events(run, ip), i, slot)
    ensures MacOf(run[i].reply) == Events(run, ip)[i].mac
    ensures Yiaddr(run[i].reply) == ip[..3] + [(BASE_IP + slot) as byte]
  {
    assert ServedAt(t, run, ip, nm, i);
    slot := ReplyTells(TableBefore(t, run, ip, i), run[i], ACK, ip, nm);
    SameTables(t, run, ip, i);
  }

  // ----- the answer to each kind of datagram -----

  /** The datagram asks, with these options, for an address. */
  ghost predicate Asks(x: Exchange, opts: seq<Opt>, address: seq<byte>)
  {
    && MIN_SIZE <= x.len
    && Carries(x.msg, opts)
    && Says(opts, OPT_MSG_TYPE, [REQUEST])
    && Says(opts, OPT_REQUESTED_IP, address)
  }

  /** The datagram is a DISCOVER with these options. */
  ghost predicate Discovers(x: Exchange, opts: seq<Opt>)
  {
    MIN_SIZE <= x.len && Carries(x.msg, opts) && Says(opts, OPT_MSG_TYPE, [DISCOVER])
  }

  /** What a reply for this slot and of this kind looks like to the client. */
  lemma ReplyIsSent(t: Table, x: Exchange, slot: nat, kind: byte, ip: Ip4, nm: Ip4)
    requires |x.msg| == |x.reply| == FRAME && slot < MAX_IP
    requires Replies(t, x.msg, x.len, x.at, x.sent, x.reply, ip, nm)
    requires Answer(t, EventOf(x, ip)) == Some((slot, kind))
    ensures x.sent == 274 && Sends(x, kind) && MacOf(x.reply) == MacOf(x.msg)
    ensures Yiaddr(x.reply) == ip[..3] + [(BASE_IP + slot) as byte]
  {
    assert IsReply(x.msg, x.reply, slot, kind, ip, nm);
    ReplyDecodes(x.reply[OPTIONS..], kind, ip, nm);
    ReplyKeepsMac(x.msg, x.reply, slot, kind, ip, nm);
  }

  /** A DISCOVER is sent an OFFER for the right slot; silence means that no slot of the pool is left. */
  lemma DiscoverAnswered(t: Table, grants: seq<nat>, x: Exchange, opts: seq<Opt>, yi: nat, ip: Ip4, nm: Ip4)
    requires |x.reply| == FRAME && Discovers(x, opts) && GrantedAt(t, grants)
    requires Replies(t, x.msg, x.len, x.at, x.sent, x.reply, ip, nm)
    requires RightOffer(t, grants, MacOf(x.msg), x.at, yi)
    ensures if yi < 8 then Sends(x, 2) && Yiaddr(x.reply) == ip[..3] + [(16 + yi) as byte] else x.sent == 0
  {
    DiscoverIsUnderstood(x.msg, x.len, opts, ip, x.at);
    OfferExactly(t, grants, MacOf(x.msg), x.at);
    if yi < 8 {
      ReplyIsSent(t, x, yi, OFFER, ip, nm);
    }
  }

  /** The slot of an address of the pool that this client may have: its own, or a free one. */
  ghost predicate MayHave(t: Table, mac: Mac, address: Ip4, ip: Ip4)
  {
    && address[..3] == ip[..3]
    && 16 <= address[3] as int < 24
    && (t[address[3] as int - 16].mac == mac || t[address[3] as int - 16].mac == ZERO_MAC)
  }

  /** A REQUEST is sent an ACK with its address exactly when the client may have it; else there is silence. */
  lemma RequestAnswered(t: Table, x: Exchange, opts: seq<Opt>, address: Ip4, ip: Ip4, nm: Ip4)
    requires |x.reply| == FRAME && Asks(x, opts, address)
    requires Replies(t, x.msg, x.len, x.at, x.sent, x.reply, ip, nm)
    ensures if MayHave(t, MacOf(x.msg), address, ip) then Sends(x, 5) && Yiaddr(x.reply) == address else x.sent == 0
    ensures !MayHave(t, MacOf(x.msg), address, ip) ==> AfterDatagram(t, x.msg, x.len, ip, x.at) == t
  {
    RequestParsedExactly(x.msg, x.len, opts, address, ip, x.at);
    if MayHave(t, MacOf(x.msg), address, ip) {
      ReplyIsSent(t, x, address[3] as int - 16, ACK, ip, nm);
      assert address == address[..3] + [address[3]];
    }
  }

  /** Everything else is ignored. */
  lemma OthersIgnored(t: Table, x: Exchange, opts: seq<Opt>, ip: Ip4, nm: Ip4)
    requires Carries(x.msg, opts) && Unserved(x.len, opts)
    requires Replies(t, x.msg, x.len, x.at, x.sent, x.reply, ip, nm)
    ensures x.sent == 0 && AfterDatagram(t, x.msg, x.len, ip, x.at) == t
  {
    UnservedIsIgnored(x.msg, x.len, opts, ip, x.at);
  }

  // ----- the end-to-end guarantees -----

  /** An ACK of the lease table goes out as an ACK. */
  lemma AckIsSent(t: Table, run: seq<Exchange>, i: nat, slot: nat, ip: Ip4, nm: Ip4)
    requires Served(t, run, ip, nm) && Acked(t, Events(run, ip), i, slot)
    ensures Sends(run[i], ACK)
    ensures MacOf(run[i].reply) == Events(run, ip)[i].mac
    ensures Yiaddr(run[i].reply) == ip[..3] + [(BASE_IP + slot) as byte]
  {
    SameTables(t, run, ip, i);
    var x, u := run[i], TableBefore(t, run, ip, i);
    assert ServedAt(t, run, ip, nm, i);
    assert Answer(u, EventOf(x, ip)) == Some((slot, ACK));
    ReplyIsSent(u, x, slot, ACK, ip, nm);
  }

  /**
   Whatever datagrams arrive: two ACKs that hand the same address to different clients, the
   first of them with a real hardware address, are more than the advertised lease time apart.
   */
  lemma AcksAreExclusive(t: Table, run: seq<Exchange>, i: nat, j: nat, ip: Ip4, nm: Ip4)
    requires Served(t, run, ip, nm) && Ordered(run) && i < j < |run|
    requires Sends(run[i], ACK) && Sends(run[j], ACK)
    requires Yiaddr(run[i].reply) == Yiaddr(run[j].reply)
    requires MacOf(run[i].reply) != MacOf(run[j].reply) && MacOf(run[i].reply) != ZERO_MAC
    ensures run[i].at + 86_400_000 < run[j].at
  {
    var slot := AckTells(t, run, i, ip, nm);
    var slot' := AckTells(t, run, j, ip, nm);
    SameAddressSameSlot(Yiaddr(run[i].reply), Yiaddr(run[j].reply), slot, slot', ip);
    LeaseExclusivity(t, Events(run, ip), i, j, slot);
  }

  /**
   A client that asks for the address it was sent in an OFFER is sent an ACK for that address,
   unless another real client was sent an ACK for it in between.
   */
  lemma OfferIsAcked(t: Table, run: seq<Exchange>, i: nat, j: nat, opts: seq<Opt>, ip: Ip4, nm: Ip4)
    requires Served(t, run, ip, nm) && i < j < |run| && Sends(run[i], OFFER)
    requires Asks(run[j], opts, Yiaddr(run[i].reply)) && MacOf(run[j].msg) == MacOf(run[i].reply)
    requires forall x :: i < x < j && Sends(run[x], ACK) && Yiaddr(run[x].reply) == Yiaddr(run[i].reply) ==>
      MacOf(run[x].reply) == MacOf(run[i].reply) || MacOf(run[x].reply) == ZERO_MAC
    ensures Sends(run[j], ACK)
    ensures Yiaddr(run[j].reply) == Yiaddr(run[i].reply) && MacOf(run[j].reply) == MacOf(run[i].reply)
  {
    var es := Events(run, ip);
    assert ServedAt(t, run, ip, nm, i);
    var slot := ReplyTells(TableBefore(t, run, ip, i), run[i], OFFER, ip, nm);
    SameTables(t, run, ip, i);
    assert Offered(t, es, i, slot);
    OfferedAddressIsUnderstood(run[i].msg, run[i].reply, slot, OFFER, ip, nm,
                               run[j].msg, run[j].len, opts, run[j].at);
    forall x | i < x < j && Acked(t, es, x, slot) ensures es[x].mac == es[i].mac || es[x].mac == ZERO_MAC {
      AckIsSent(t, run, x, slot, ip, nm);
    }
    OfferIsHonoured(t, es, i, j, slot);
    AckIsSent(t, run, j, slot, ip, nm);
  }

  /**
   A client that restarts and sends a DISCOVER within its lease time is offered the address it
   holds, if that is the only one it was sent an ACK for.
   */
  lemma LeaseIsOfferedAgain(run: seq<Exchange>, i: nat, j: nat, opts: seq<Opt>, ip: Ip4, nm: Ip4)
    requires Served(EMPTY_TABLE, run, ip, nm) && Ordered(run) && i < j < |run|
    requires Sends(run[i], ACK) && MacOf(run[i].reply) != ZERO_MAC
    requires Discovers(run[j], opts) && MacOf(run[j].msg) == MacOf(run[i].reply)
    requires run[j].at <= run[i].at + 86_400_000
    requires forall x :: 0 <= x < j && Sends(run[x], ACK) && MacOf(run[x].reply) == MacOf(run[i].reply) ==>
      Yiaddr(run[x].reply) == Yiaddr(run[i].reply)
    ensures Sends(run[j], OFFER)
    ensures Yiaddr(run[j].reply) == Yiaddr(run[i].reply) && MacOf(run[j].reply) == MacOf(run[i].reply)
  {
    var es := Events(run, ip);
    var slot := AckTells(EMPTY_TABLE, run, i, ip, nm);
    DiscoverIsUnderstood(run[j].msg, run[j].len, opts, ip, run[j].at);
    forall x, s | 0 <= x < j && 0 <= s && Acked(EMPTY_TABLE, es, x, s) && es[x].mac == es[i].mac ensures s == slot {
      AckIsSent(EMPTY_TABLE, run, x, s, ip, nm);
      SameAddressSameSlot(Yiaddr(run[x].reply), Yiaddr(run[i].reply), s, slot, ip);
    }
    SameSlotAgain(es, i, j, slot);
    SameTables(EMPTY_TABLE, run, ip, j);
    assert ServedAt(EMPTY_TABLE, run, ip, nm, j);
    ReplyIsSent(TableBefore(EMPTY_TABLE, run, ip, j), run[j], slot, OFFER, ip, nm);
  }
}
