/**
 The lease table of `access_point_httpd/dhcpserver/dhcpserver.c` as a state machine over
 DISCOVER and REQUEST messages.  True time is a natural number of milliseconds; the server
 sees it modulo 2^32 and keeps the upper 16 bits of each expiry.
 */
module DhcpLease {
  import opened Bytes

  datatype Mac = Mac(b0: byte, b1: byte, b2: byte, b3: byte, b4: byte, b5: byte)

  const ZERO_MAC := Mac(0, 0, 0, 0, 0, 0)
  const MAX_IP := 8
  const LEASE_MS := 86_400_000
  const TICK_RANGE := 0x1_0000_0000
  const HALF_RANGE := 0x8000_0000

  /** `expiry` is the 16-bit field of `dhcp_server_lease_t`. */
  datatype Lease = Lease(mac: Mac, expiry: nat)

  const FREE := Lease(ZERO_MAC, 0)

  type Table = t: seq<Lease> | |t| == MAX_IP witness [FREE, FREE, FREE, FREE, FREE, FREE, FREE, FREE]

  const EMPTY_TABLE: Table := [FREE, FREE, FREE, FREE, FREE, FREE, FREE, FREE]

  // ----- expiry arithmetic -----

  function Ticks(now: nat): nat { now % TICK_RANGE }

  function ExpiryOf(now: nat): (e: nat)
    ensures e < 0x1_0000
  {
    (Ticks(now) + LEASE_MS) % TICK_RANGE / 0x1_0000
  }

  /** The 32-bit difference of the two tick values is negative as a signed number. */
  predicate Expired(expiry: nat, now: nat)
  {
    (expiry * 0x1_0000 + 0xFFFF - Ticks(now)) % TICK_RANGE >= HALF_RANGE
  }

  /** The first instant, in true time, at which a lease granted at `granted` counts as expired. */
  function Deadline(granted: nat): (d: nat)
    ensures granted + LEASE_MS < d <= granted + LEASE_MS + 0x1_0000
  {
    ((granted + LEASE_MS) / 0x1_0000 + 1) * 0x1_0000
  }

  lemma UpperHalf(x: nat)
    ensures x / 0x1_0000 == x % TICK_RANGE / 0x1_0000 + x / TICK_RANGE * 0x1_0000
  {
  }

  /** The 16-bit field is the deadline up to whole tick periods. */
  lemma ExpiryIsDeadline(granted: nat)
    ensures Deadline(granted) == (ExpiryOf(granted) + 1) * 0x1_0000 + (granted + LEASE_MS) / TICK_RANGE * TICK_RANGE
  {
    UpperHalf(granted + LEASE_MS);
    assert (Ticks(granted) + LEASE_MS) % TICK_RANGE == (granted + LEASE_MS) % TICK_RANGE;
  }

  /** Modulo 2^32 the two's complement of x swaps the halves of the range. */
  lemma Complement(x: int, y: int, w: int)
    requires y == w * TICK_RANGE - 1 - x
    ensures y % TICK_RANGE >= HALF_RANGE <==> x % TICK_RANGE < HALF_RANGE
  {
  }

  /** Exactly when the wrapped 16-bit comparison reports a lease as expired. */
  lemma ExpiredExactly(granted: nat, now: nat)
    ensures Expired(ExpiryOf(granted), now) <==> (now - Deadline(granted)) % TICK_RANGE < HALF_RANGE
  {
    ExpiryIsDeadline(granted);
    Complement(now - Deadline(granted), ExpiryOf(granted) * 0x1_0000 + 0xFFFF - Ticks(now),
               now / TICK_RANGE - (granted + LEASE_MS) / TICK_RANGE);
  }

  /** No lease expires early and none is overlooked for the following 24 days. */
  lemma ExpirySound(granted: nat, now: nat)
    requires granted <= now
    ensures now <= granted + LEASE_MS ==> !Expired(ExpiryOf(granted), now)
    ensures granted + LEASE_MS + 0x1_0000 <= now <= granted + LEASE_MS + HALF_RANGE ==>
      Expired(ExpiryOf(granted), now)
  {
    ExpiredExactly(granted, now);
  }

  /** After half a tick period the comparison flips back: an abandoned lease looks live again. */
  lemma ExpiryRelapses(granted: nat)
    ensures !Expired(ExpiryOf(granted), Deadline(granted) + HALF_RANGE)
  {
    ExpiredExactly(granted, Deadline(granted) + HALF_RANGE);
  }

  // ----- what one message does to the table -----

  /** The first slot from i on that holds this address, or MAX_IP. */
  function FirstMatch(t: Table, mac: Mac, i: nat): (k: nat)
    requires i <= MAX_IP
    ensures i <= k <= MAX_IP
    ensures k < MAX_IP ==> t[k].mac == mac
    ensures forall j :: i <= j < k ==> t[j].mac != mac
    decreases MAX_IP - i
  {
    if i == MAX_IP || t[i].mac == mac then i else FirstMatch(t, mac, i + 1)
  }

  predicate Available(l: Lease, now: nat)
  {
    l.mac == ZERO_MAC || Expired(l.expiry, now)
  }

  /** The first slot from i on that is free or expired, or MAX_IP. */
  function FirstAvailable(t: Table, now: nat, i: nat): (k: nat)
    requires i <= MAX_IP
    ensures i <= k <= MAX_IP
    ensures k < MAX_IP ==> Available(t[k], now)
    ensures forall j :: i <= j < k ==> !Available(t[j], now)
    decreases MAX_IP - i
  {
    if i == MAX_IP || Available(t[i], now) then i else FirstAvailable(t, now, i + 1)
  }

  /** The slot a DISCOVER is answered with, or MAX_IP for silence. */
  function OfferedSlot(t: Table, mac: Mac, now: nat): nat
  {
    var own := FirstMatch(t, mac, 0);
    if own < MAX_IP then own else FirstAvailable(t, now, 0)
  }

  function Cleared(l: Lease): Lease { Lease(ZERO_MAC, l.expiry) }

  /** A DISCOVER clears the first available slot unless the client's own slot comes before it. */
  function AfterDiscover(t: Table, mac: Mac, now: nat): Table
  {
    var free := FirstAvailable(t, now, 0);
    if free < FirstMatch(t, mac, 0) then t[free := Cleared(t[free])] else t
  }

  predicate Grantable(l: Lease, mac: Mac)
  {
    l.mac == mac || l.mac == ZERO_MAC
  }

  function AfterRequest(t: Table, mac: Mac, slot: nat, now: nat): Table
    requires slot < MAX_IP
  {
    if Grantable(t[slot], mac) then t[slot := Lease(mac, ExpiryOf(now))] else t
  }

  /** A DISCOVER changes at most one slot, and only by clearing an expired lease. */
  lemma DiscoverOnlyClearsExpired(t: Table, mac: Mac, now: nat)
    ensures var u := AfterDiscover(t, mac, now);
            && (forall i :: 0 <= i < MAX_IP && u[i] != t[i] ==>
                  && u[i] == Cleared(t[i])
                  && Expired(t[i].expiry, now)
                  && t[i].mac != mac)
            && (forall i, j :: 0 <= i < j < MAX_IP ==> u[i] == t[i] || u[j] == t[j])
    ensures var slot := OfferedSlot(t, mac, now);
            slot < MAX_IP ==> Grantable(AfterDiscover(t, mac, now)[slot], mac)
  {
  }

  // ----- the offer and the cleared slot, stated without the search -----

  /** In ticks, less than half a period has passed since the deadline of a lease granted at this time. */
  predicate RunOut(granted: nat, now: nat)
  {
    (now - Deadline(granted)) % 0x1_0000_0000 < 0x8000_0000
  }

  /** The 16-bit expiry fields of the table are those of leases granted at these times. */
  ghost predicate GrantedAt(t: Table, grants: seq<nat>)
  {
    |grants| == 8 && forall i :: 0 <= i < 8 ==> t[i].expiry == ExpiryOf(grants[i])
  }

  /** Every 16-bit expiry is that of some grant. */
  lemma EveryExpiryIsGranted(expiry: nat) returns (granted: nat)
    requires expiry < 0x1_0000
    ensures ExpiryOf(granted) == expiry
  {
    granted := (expiry * 0x1_0000 - LEASE_MS) % TICK_RANGE;
    assert (granted + LEASE_MS) % TICK_RANGE == expiry * 0x1_0000;
  }

  lemma GrantsExist(t: Table) returns (grants: seq<nat>)
    requires forall i :: 0 <= i < 8 ==> t[i].expiry < 0x1_0000
    ensures GrantedAt(t, grants)
  {
    grants := [];
    for i := 0 to 8
      invariant |grants| == i && forall k :: 0 <= k < i ==> t[k].expiry == ExpiryOf(grants[k])
    {
      var g := EveryExpiryIsGranted(t[i].expiry);
      grants := grants + [g];
    }
  }

  ghost predicate Usable(t: Table, grants: seq<nat>, now: nat, i: nat)
    requires i < 8 == |grants|
  {
    t[i].mac == ZERO_MAC || RunOut(grants[i], now)
  }

  /** The slot offered to a client: its own first one, else the first usable one, else none (8). */
  ghost predicate RightOffer(t: Table, grants: seq<nat>, mac: Mac, now: nat, yi: nat)
    requires |grants| == 8
  {
    if exists i :: 0 <= i < 8 && t[i].mac == mac then
      yi < 8 && t[yi].mac == mac && forall i :: 0 <= i < yi ==> t[i].mac != mac
    else
      && yi <= 8
      && (yi < 8 ==> Usable(t, grants, now, yi))
      && forall i :: 0 <= i < yi ==> !Usable(t, grants, now, i)
  }

  /** The slot cleared by a DISCOVER: the first usable one, if the client's own is not met before it. */
  ghost predicate IsCleared(t: Table, grants: seq<nat>, mac: Mac, now: nat, i: nat)
    requires i < 8 == |grants|
  {
    && t[i].mac != mac && Usable(t, grants, now, i)
    && forall j :: 0 <= j < i ==> t[j].mac != mac && !Usable(t, grants, now, j)
  }

  lemma UsableIsAvailable(t: Table, grants: seq<nat>, now: nat)
    requires GrantedAt(t, grants)
    ensures forall i :: 0 <= i < 8 ==> (Usable(t, grants, now, i) <==> Available(t[i], now))
  {
    forall i | 0 <= i < 8 ensures Usable(t, grants, now, i) <==> Available(t[i], now) {
      ExpiredExactly(grants[i], now);
    }
  }

  /** The offer is the right one, and no other offer is. */
  lemma OfferExactly(t: Table, grants: seq<nat>, mac: Mac, now: nat)
    requires GrantedAt(t, grants)
    ensures forall yi: nat :: RightOffer(t, grants, mac, now, yi) <==> yi == OfferedSlot(t, mac, now)
  {
    UsableIsAvailable(t, grants, now);
  }

  /** The table after a DISCOVER: that slot is cleared, every other one is kept. */
  lemma ClearedExactly(t: Table, grants: seq<nat>, mac: Mac, now: nat)
    requires GrantedAt(t, grants)
    ensures forall i :: 0 <= i < 8 ==>
      AfterDiscover(t, mac, now)[i] == (if IsCleared(t, grants, mac, now, i) then Lease(ZERO_MAC, t[i].expiry) else t[i])
  {
    UsableIsAvailable(t, grants, now);
  }

  /** The lease array of `dhcp_server_t` and the two arms of the message switch. */
  class LeaseTable {
    const lease: array<Lease>

    ghost predicate Valid() { lease.Length == MAX_IP }

    constructor ()
      ensures Valid() && lease[..] == EMPTY_TABLE && fresh(lease)
    {
      lease := new Lease[MAX_IP](_ => FREE);
    }

    /** The DISCOVER arm: one pass over the slots that both searches and clears. */
    method Discover(mac: Mac, now: nat) returns (yi: nat)
      requires Valid()
      modifies lease
      ensures yi == OfferedSlot(old(lease[..]), mac, now)
      ensures lease[..] == AfterDiscover(old(lease[..]), mac, now)
      ensures forall grants :: GrantedAt(old(lease[..]), grants) ==> RightOffer(old(lease[..]), grants, mac, now, yi)
    {
      ghost var t: Table := lease[..];
      ghost var own, free := FirstMatch(t, mac, 0), FirstAvailable(t, now, 0);
      yi := MAX_IP;
      var i := 0;
      while i < MAX_IP
        invariant 0 <= i <= MAX_IP
        invariant i <= own
        invariant yi == if free < i then free else MAX_IP
        invariant lease[..] == if free < i then t[free := Cleared(t[free])] else t
      {
        if lease[i].mac == mac {
          yi := i;
          break;
        }
        if yi == MAX_IP {
          if lease[i].mac == ZERO_MAC {
            yi := i;
          }
          if Expired(lease[i].expiry, now) {
            lease[i] := Cleared(lease[i]);
            yi := i;
          }
        }
        i := i + 1;
      }
      forall grants | GrantedAt(t, grants) ensures RightOffer(t, grants, mac, now, yi) {
        OfferExactly(t, grants, mac, now);
      }
    }

    /** The REQUEST arm for a slot inside the pool. */
    method Request(mac: Mac, yi: nat, now: nat) returns (ack: bool)
      requires Valid() && yi < MAX_IP
      modifies lease
      ensures ack <==> old(lease[yi].mac) == mac || old(lease[yi].mac) == ZERO_MAC
      ensures lease[..] == AfterRequest(old(lease[..]), mac, yi, now)
      ensures lease[..] == if ack then old(lease[..])[yi := Lease(mac, ExpiryOf(now))] else old(lease[..])
    {
      if lease[yi].mac == mac {
        ack := true;
      } else if lease[yi].mac == ZERO_MAC {
        lease[yi] := Lease(mac, lease[yi].expiry);
        ack := true;
      } else {
        ack := false;
      }
      if ack {
        lease[yi] := Lease(lease[yi].mac, ExpiryOf(now));
      }
    }
  }

  // ----- whole runs -----

  /** A message that reaches the table, at a true time. */
  datatype Event =
    | Discover(mac: Mac, at: nat)
    | Request(mac: Mac, slot: nat, at: nat)

  function Step(t: Table, e: Event): Table
  {
    match e
    case Discover(mac, at) => AfterDiscover(t, mac, at)
    case Request(mac, slot, at) => if slot < MAX_IP then AfterRequest(t, mac, slot, at) else t
  }

  /** The table before event i of a run that starts with table t. */
  function TableAt(t: Table, run: seq<Event>, i: nat): Table
    requires i <= |run|
  {
    if i == 0 then t else Step(TableAt(t, run, i - 1), run[i - 1])
  }

  lemma {:induction false} TableStep(t: Table, run: seq<Event>, i: nat)
    requires 0 < i <= |run|
    ensures TableAt(t, run, i) == Step(TableAt(t, run, i - 1), run[i - 1])
  {
  }

  predicate InOrder(run: seq<Event>)
  {
    forall i, j :: 0 <= i < j < |run| ==> run[i].at <= run[j].at
  }

  /** Event i is a REQUEST for this slot that is answered with an ACK. */
  predicate Acked(t: Table, run: seq<Event>, i: nat, slot: nat)
  {
    && i < |run|
    && slot < MAX_IP
    && run[i].Request?
    && run[i].slot == slot
    && Grantable(TableAt(t, run, i)[slot], run[i].mac)
  }

  /** The slot is held for mac by a lease granted no earlier than `since`. */
  ghost predicate Holds(l: Lease, mac: Mac, since: nat, now: nat)
  {
    l.mac == mac && exists g: nat :: since <= g <= now && l.expiry == ExpiryOf(g)
  }

  /** A message at most LEASE_MS after the grant leaves the holder in place. */
  lemma StepKeepsHolder(t: Table, e: Event, slot: nat, mac: Mac, since: nat, before: nat)
    requires slot < MAX_IP && mac != ZERO_MAC
    requires Holds(t[slot], mac, since, before) && before <= e.at <= since + LEASE_MS
    ensures Holds(Step(t, e)[slot], mac, since, e.at)
  {
    var g: nat :| since <= g <= before && t[slot].expiry == ExpiryOf(g);
    ExpirySound(g, e.at);
    match e
    case Discover(m, at) =>
      DiscoverOnlyClearsExpired(t, m, at);
    case Request(m, s, at) =>
      assert since <= at <= at && ExpiryOf(at) == ExpiryOf(e.at);
  }

  lemma AckGrants(t: Table, e: Event)
    requires e.Request? && e.slot < MAX_IP && Grantable(t[e.slot], e.mac)
    ensures Holds(Step(t, e)[e.slot], e.mac, e.at, e.at)
  {
  }

  lemma EventKeepsHolder(t: Table, run: seq<Event>, k: nat, slot: nat, mac: Mac, since: nat, before: nat)
    requires 0 < k <= |run| && slot < MAX_IP && mac != ZERO_MAC
    requires Holds(TableAt(t, run, k - 1)[slot], mac, since, before) && before <= run[k - 1].at <= since + LEASE_MS
    ensures Holds(TableAt(t, run, k)[slot], mac, since, run[k - 1].at)
  {
    StepKeepsHolder(TableAt(t, run, k - 1), run[k - 1], slot, mac, since, before);
  }

  lemma AckMakesHolder(t: Table, run: seq<Event>, k: nat, slot: nat)
    requires 0 < k && Acked(t, run, k - 1, slot)
    ensures Holds(TableAt(t, run, k)[slot], run[k - 1].mac, run[k - 1].at, run[k - 1].at)
  {
    AckGrants(TableAt(t, run, k - 1), run[k - 1]);
  }

  lemma {:induction false} HolderStays(t: Table, run: seq<Event>, i: nat, k: nat, slot: nat)
    requires InOrder(run) && i < k <= |run|
    requires Acked(t, run, i, slot) && run[i].mac != ZERO_MAC
    requires run[k - 1].at <= run[i].at + LEASE_MS
    ensures Holds(TableAt(t, run, k)[slot], run[i].mac, run[i].at, run[k - 1].at)
    decreases k
  {
    if k == i + 1 {
      AckMakesHolder(t, run, k, slot);
    } else {
      HolderStays(t, run, i, k - 1, slot);
      EventKeepsHolder(t, run, k, slot, run[i].mac, run[i].at, run[k - 2].at);
    }
  }

  /**
   Lease exclusivity over whole runs: an address acknowledged to one client is acknowledged to
   another one only after the advertised lease time, whatever messages come between and however
   often the tick counter wraps.
   */
  lemma LeaseExclusivity(t: Table, run: seq<Event>, i: nat, j: nat, slot: nat)
    requires InOrder(run) && i < j
    requires Acked(t, run, i, slot) && Acked(t, run, j, slot)
    requires run[i].mac != run[j].mac && run[i].mac != ZERO_MAC
    ensures run[i].at + 86_400_000 < run[j].at
  {
    if run[j].at <= run[i].at + LEASE_MS {
      HolderStays(t, run, i, j, slot);
    }
  }

  /** No run of the server gives an address away during the lease of this client. */
  ghost predicate Protected(mac: Mac)
  {
    forall run: seq<Event>, i: nat, j: nat, slot: nat ::
      InOrder(run) && i < j && Acked(EMPTY_TABLE, run, i, slot) && Acked(EMPTY_TABLE, run, j, slot)
      && run[i].mac == mac && run[j].mac != mac ==>
        run[i].at + LEASE_MS < run[j].at
  }

  /** The guarantee holds for every hardware address except the all-zero one, which marks free slots. */
  lemma ProtectedExactly(mac: Mac)
    ensures Protected(mac) <==> mac != ZERO_MAC
  {
    if mac == ZERO_MAC {
      var other := Mac(1, 0, 0, 0, 0, 0);
      var run := [Request(mac, 0, 0), Request(other, 0, 0)];
      assert TableAt(EMPTY_TABLE, run, 1) == EMPTY_TABLE[0 := Lease(ZERO_MAC, ExpiryOf(0))];
      assert Acked(EMPTY_TABLE, run, 0, 0) && Acked(EMPTY_TABLE, run, 1, 0);
      assert run[1].mac == other;
    } else {
      forall run: seq<Event>, i: nat, j: nat, slot: nat |
        InOrder(run) && i < j && Acked(EMPTY_TABLE, run, i, slot) && Acked(EMPTY_TABLE, run, j, slot)
        && run[i].mac == mac && run[j].mac != mac
        ensures run[i].at + LEASE_MS < run[j].at
      {
        LeaseExclusivity(EMPTY_TABLE, run, i, j, slot);
      }
    }
  }

  predicate Offered(t: Table, run: seq<Event>, i: nat, slot: nat)
  {
    && i < |run|
    && slot < MAX_IP
    && run[i].Discover?
    && OfferedSlot(TableAt(t, run, i), run[i].mac, run[i].at) == slot
  }

  /** Only an ACK to some other real client takes a slot away from a client that could have it. */
  lemma StepKeepsGrantable(t: Table, e: Event, slot: nat, mac: Mac)
    requires slot < MAX_IP && Grantable(t[slot], mac)
    requires e.Request? && e.slot == slot && Grantable(t[slot], e.mac) ==> e.mac == mac || e.mac == ZERO_MAC
    ensures Grantable(Step(t, e)[slot], mac)
  {
    if e.Discover? {
      DiscoverOnlyClearsExpired(t, e.mac, e.at);
    }
  }

  lemma OfferMakesGrantable(t: Table, run: seq<Event>, i: nat, slot: nat)
    requires Offered(t, run, i, slot)
    ensures Grantable(TableAt(t, run, i + 1)[slot], run[i].mac)
  {
    DiscoverOnlyClearsExpired(TableAt(t, run, i), run[i].mac, run[i].at);
  }

  lemma EventKeepsGrantable(t: Table, run: seq<Event>, k: nat, slot: nat, mac: Mac)
    requires k < |run| && slot < MAX_IP && Grantable(TableAt(t, run, k)[slot], mac)
    requires Acked(t, run, k, slot) ==> run[k].mac == mac || run[k].mac == ZERO_MAC
    ensures Grantable(TableAt(t, run, k + 1)[slot], mac)
  {
    StepKeepsGrantable(TableAt(t, run, k), run[k], slot, mac);
  }

  lemma {:induction false} StaysGrantable(t: Table, run: seq<Event>, i: nat, k: nat, slot: nat, mac: Mac)
    requires i <= k <= |run| && slot < MAX_IP && Grantable(TableAt(t, run, i)[slot], mac)
    requires forall x {:trigger Acked(t, run, x, slot)} ::
      i <= x < k && Acked(t, run, x, slot) ==> run[x].mac == mac || run[x].mac == ZERO_MAC
    ensures Grantable(TableAt(t, run, k)[slot], mac)
    decreases k
  {
    if i == k {
    } else {
      StaysGrantable(t, run, i, k - 1, slot, mac);
      EventKeepsGrantable(t, run, k - 1, slot, mac);
    }
  }

  /** Offers stay good: nothing but an ACK to some other real client can spoil one. */
  lemma OfferIsHonoured(t: Table, run: seq<Event>, i: nat, j: nat, slot: nat)
    requires i < j < |run| && Offered(t, run, i, slot)
    requires run[j] == Request(run[i].mac, slot, run[j].at)
    requires forall x {:trigger Acked(t, run, x, slot)} ::
      i < x < j && Acked(t, run, x, slot) ==> run[x].mac == run[i].mac || run[x].mac == ZERO_MAC
    ensures Acked(t, run, j, slot)
  {
    OfferMakesGrantable(t, run, i, slot);
    StaysGrantable(t, run, i + 1, j, slot, run[i].mac);
  }

  // ----- a client that asks again -----

  lemma StepTakesNoSlot(t: Table, e: Event, slot: nat)
    requires slot < MAX_IP && !(e.Request? && e.slot == slot && Grantable(t[slot], e.mac))
    ensures Step(t, e)[slot].mac == t[slot].mac || Step(t, e)[slot].mac == ZERO_MAC
  {
    if e.Discover? {
      DiscoverOnlyClearsExpired(t, e.mac, e.at);
    }
  }

  /** A holder has just been sent an ACK, or was the holder before. */
  lemma HolderIsNewOrOld(t: Table, run: seq<Event>, k: nat, slot: nat)
    requires 0 < k <= |run| && slot < MAX_IP && TableAt(t, run, k)[slot].mac != ZERO_MAC
    ensures var mac := TableAt(t, run, k)[slot].mac;
      (Acked(t, run, k - 1, slot) && run[k - 1].mac == mac) || TableAt(t, run, k - 1)[slot].mac == mac
  {
    if !Acked(t, run, k - 1, slot) {
      StepTakesNoSlot(TableAt(t, run, k - 1), run[k - 1], slot);
    }
  }

  /** Whoever holds a slot was sent an ACK for it, if it was free when the run started. */
  lemma {:induction false} HeldWasAcked(t: Table, run: seq<Event>, k: nat, slot: nat) returns (i: nat)
    requires k <= |run| && slot < MAX_IP && t[slot].mac == ZERO_MAC && TableAt(t, run, k)[slot].mac != ZERO_MAC
    ensures i < k && Acked(t, run, i, slot) && run[i].mac == TableAt(t, run, k)[slot].mac
    decreases k
  {
    assert k > 0;
    HolderIsNewOrOld(t, run, k, slot);
    if TableAt(t, run, k - 1)[slot].mac == TableAt(t, run, k)[slot].mac {
      i := HeldWasAcked(t, run, k - 1, slot);
    } else {
      i := k - 1;
    }
  }

  /** A DISCOVER of a client within its lease time is answered with a slot the client holds. */
  lemma HolderIsOffered(t: Table, run: seq<Event>, i: nat, j: nat, slot: nat) returns (own: nat)
    requires InOrder(run) && i < j < |run| && Acked(t, run, i, slot) && run[i].mac != ZERO_MAC
    requires run[j] == Discover(run[i].mac, run[j].at) && run[j].at <= run[i].at + LEASE_MS
    ensures own <= slot && Offered(t, run, j, own) && TableAt(t, run, j)[own].mac == run[i].mac
  {
    HolderStays(t, run, i, j, slot);
    own := OfferedSlot(TableAt(t, run, j), run[i].mac, run[j].at);
  }

  /** A client with one lease is offered the same slot again for as long as the lease lasts. */
  lemma SameSlotAgain(run: seq<Event>, i: nat, j: nat, slot: nat)
    requires InOrder(run) && i < j < |run| && Acked(EMPTY_TABLE, run, i, slot) && run[i].mac != ZERO_MAC
    requires run[j] == Discover(run[i].mac, run[j].at) && run[j].at <= run[i].at + LEASE_MS
    requires forall x, s {:trigger Acked(EMPTY_TABLE, run, x, s)} ::
      0 <= x < j && 0 <= s && Acked(EMPTY_TABLE, run, x, s) && run[x].mac == run[i].mac ==> s == slot
    ensures Offered(EMPTY_TABLE, run, j, slot)
  {
    var own := HolderIsOffered(EMPTY_TABLE, run, i, j, slot);
    var x := HeldWasAcked(EMPTY_TABLE, run, j, own);
  }
}
