/**
 The 1-Wire ROM search of `ds18b20_pio/onewire_library/onewire_library.c`.

 The search walks the binary trie of the 64-bit ROM codes on the bus, least significant
 bit first, one root-to-leaf pass per device.  It never sees the trie: in each bit position
 it reads two wired-AND time slots and sends one direction bit, and between passes it keeps
 only the previous code and one branch index.  The proof shows that every pass moves to the
 successor of the previous code in the bit-reversed order.
 */
module RomCodes {

  const ROM_BITS := 64

  /** Element i of the sequence is bit i of the 64-bit word. */
  type RomCode = c: seq<bool> | |c| == ROM_BITS witness seq(64, _ => false)

  const ZERO_CODE: RomCode := seq(64, _ => false)

  /** The codes have the same bits below position n. */
  ghost predicate Agree(a: RomCode, b: RomCode, n: nat)
    requires n <= ROM_BITS
  {
    forall k :: 0 <= k < n ==> a[k] == b[k]
  }

  /** Position j is the lowest bit in which a and b differ, and a has 0 there. */
  ghost predicate SplitsAt(a: RomCode, b: RomCode, j: nat)
  {
    j < ROM_BITS && Agree(a, b, j) && !a[j] && b[j]
  }

  /** The order in which the search finds codes: least significant bit first. */
  ghost predicate Less(a: RomCode, b: RomCode)
  {
    exists j: nat :: SplitsAt(a, b, j)
  }

  lemma LessIsTransitive(a: RomCode, b: RomCode, c: RomCode)
    requires Less(a, b) && Less(b, c)
    ensures Less(a, c)
  {
    var j: nat :| SplitsAt(a, b, j);
    var k: nat :| SplitsAt(b, c, k);
    assert SplitsAt(a, c, if j < k then j else k);
  }

  lemma FirstDifference(a: RomCode, b: RomCode, n: nat) returns (j: nat)
    requires n <= ROM_BITS && Agree(a, b, n) && a != b
    ensures n <= j
    ensures SplitsAt(a, b, j) || SplitsAt(b, a, j)
    decreases ROM_BITS - n
  {
    assert n == ROM_BITS ==> a == b;
    if a[n] != b[n] {
      j := n;
    } else {
      j := FirstDifference(a, b, n + 1);
    }
  }

  lemma LessIsTotal(a: RomCode, b: RomCode)
    requires a != b
    ensures Less(a, b) || Less(b, a)
  {
    var _ := FirstDifference(a, b, 0);
  }

  ghost predicate IsLeast(s: set<RomCode>, c: RomCode)
  {
    c in s && forall d :: d in s && d != c ==> Less(c, d)
  }

  lemma LeastExists(s: set<RomCode>)
    requires s != {}
    ensures exists c :: IsLeast(s, c)
    decreases |s|
  {
    var c :| c in s;
    var rest := s - {c};
    assert s == rest + {c};
    if rest == {} {
      assert IsLeast(s, c);
    } else {
      LeastExists(rest);
      var d :| IsLeast(rest, d);
      LessIsTotal(c, d);
      if Less(d, c) {
        assert IsLeast(s, d);
      } else {
        forall e | e in s && e != c
          ensures Less(c, e)
        {
          if e != d {
            LessIsTransitive(c, d, e);
          }
        }
        assert IsLeast(s, c);
      }
    }
  }

  ghost function Least(s: set<RomCode>): (c: RomCode)
    requires s != {}
    ensures IsLeast(s, c)
  {
    LeastExists(s);
    var c :| IsLeast(s, c);
    c
  }

  /** The reference definition of the search result: repeatedly take the least code. */
  ghost function Enumeration(s: set<RomCode>): (all: seq<RomCode>)
    ensures |all| == |s|
    decreases |s|
  {
    if s == {} then [] else [Least(s)] + Enumeration(s - {Least(s)})
  }

  ghost predicate StrictlyIncreasing(codes: seq<RomCode>)
  {
    forall i, j {:trigger Less(codes[i], codes[j])} :: 0 <= i < j < |codes| ==> Less(codes[i], codes[j])
  }

  /** The sequence lists every code of the set exactly once, in increasing order. */
  ghost predicate Lists(all: seq<RomCode>, s: set<RomCode>)
  {
    && |all| == |s|
    && (forall i :: 0 <= i < |all| ==> all[i] in s)
    && (forall c {:trigger c in all} :: c in s ==> c in all)
    && StrictlyIncreasing(all)
  }

  lemma ListsWithLeast(tail: seq<RomCode>, s: set<RomCode>, least: RomCode)
    requires IsLeast(s, least) && Lists(tail, s - {least})
    ensures Lists([least] + tail, s)
  {
  }

  lemma {:induction false} EnumerationLists(s: set<RomCode>)
    ensures Lists(Enumeration(s), s)
    decreases |s|
  {
    if s == {} {
    } else {
      var least := Least(s);
      var rest := s - {least};
      EnumerationLists(rest);
      ListsWithLeast(Enumeration(rest), s, least);
    }
  }

  lemma LaterIsGreater(all: seq<RomCode>, s: set<RomCode>, i: nat, j: nat)
    requires Lists(all, s) && i < |all| && j < |all|
    ensures Less(all[i], all[j]) <==> i < j
  {
    if j < i {
      assert Less(all[j], all[i]);
    }
  }

  lemma Position(all: seq<RomCode>, s: set<RomCode>, c: RomCode) returns (k: nat)
    requires Lists(all, s) && c in s
    ensures k < |all| && all[k] == c
  {
    assert c in all;
    k :| 0 <= k < |all| && all[k] == c;
  }

  /** c is the successor of p among the codes of s (or the least code when there is no p). */
  ghost predicate IsNext(s: set<RomCode>, hasPrevious: bool, p: RomCode, c: RomCode)
  {
    && c in s
    && (hasPrevious ==> Less(p, c))
    && forall d :: d in s && d != c && (hasPrevious ==> Less(p, d)) ==> Less(c, d)
  }

  lemma NextIsNextEntry(all: seq<RomCode>, s: set<RomCode>, n: nat, p: RomCode, c: RomCode)
    requires Lists(all, s) && n <= |all|
    requires n > 0 ==> p == all[n - 1]
    requires IsNext(s, n > 0, p, c)
    ensures n < |all| && c == all[n]
  {
    var k := Position(all, s, c);
    if n > 0 {
      LaterIsGreater(all, s, n - 1, k);
      if n < |all| {
        LaterIsGreater(all, s, n - 1, n);
      }
    }
    if n < k {
      LaterIsGreater(all, s, k, n);
    }
  }

  lemma EntryIsNext(all: seq<RomCode>, s: set<RomCode>, n: nat)
    requires Lists(all, s) && n < |all|
    ensures IsNext(s, n > 0, all[if n > 0 then n - 1 else 0], all[n])
  {
    if n > 0 {
      LaterIsGreater(all, s, n - 1, n);
    }
    forall d | d in s && d != all[n] && (n > 0 ==> Less(all[n - 1], d))
      ensures Less(all[n], d)
    {
      var k := Position(all, s, d);
      if n > 0 {
        LaterIsGreater(all, s, n - 1, k);
      }
      LaterIsGreater(all, s, n, k);
    }
  }

  /** A search limited to one device finds the least code. */
  lemma FirstEntryIsLeast(all: seq<RomCode>, s: set<RomCode>)
    requires Lists(all, s) && s != {}
    ensures all != [] && IsLeast(s, all[0])
  {
    EntryIsNext(all, s, 0);
  }

  /** A set has only one listing. */
  lemma {:induction false} ListingIsUnique(a: seq<RomCode>, b: seq<RomCode>, s: set<RomCode>, n: nat)
    requires Lists(a, s) && Lists(b, s) && n <= |s|
    ensures a[..n] == b[..n]
  {
    if n == 0 {
    } else {
      ListingIsUnique(a, b, s, n - 1);
      EntryIsNext(a, s, n - 1);
      if n > 1 {
        assert a[n - 2] == a[..n - 1][n - 2] == b[..n - 1][n - 2];
      }
      NextIsNextEntry(b, s, n - 1, a[if n > 1 then n - 2 else 0], a[n - 1]);
    }
  }
}

module RomSearch {
  import opened RomCodes

  datatype SearchCommand = SearchRom | AlarmSearch

  /**
   The 1-Wire bus as the master sees it.  After a search command every participating device
   transmits its current bit, then the complement, then listens for the direction bit and
   drops out when the direction differs from its own bit.  A read slot is the wired AND of
   what the active devices transmit.
   */
  class Bus {
    const present: set<RomCode>
    const alarmed: set<RomCode>
    var active: set<RomCode>
    var slot: nat

    constructor (present: set<RomCode>, alarmed: set<RomCode>)
      ensures this.present == present && this.alarmed == alarmed
    {
      this.present, this.alarmed := present, alarmed;
      active, slot := {}, 0;
    }

    ghost function Responding(command: SearchCommand): set<RomCode>
    {
      if command == SearchRom then present else present * alarmed
    }

    method Reset() returns (presence: bool)
      modifies this
      ensures presence <==> present != {}
      ensures active == {}
    {
      active, slot := {}, 0;
      presence := present != {};
    }

    method SendCommand(command: SearchCommand)
      modifies this
      ensures active == Responding(command) && slot == 0
    {
      active := if command == SearchRom then present else present * alarmed;
      slot := 0;
    }

    static predicate Transmits(c: RomCode, slot: nat)
      requires slot < 3 * ROM_BITS
    {
      c[slot / 3] == (slot % 3 == 0)
    }

    method ReadBit() returns (bit: bool)
      requires slot < 3 * ROM_BITS && slot % 3 != 2
      modifies this`slot
      ensures bit <==> forall c :: c in active ==> Transmits(c, old(slot))
      ensures slot == old(slot) + 1
    {
      bit := forall c :: c in active ==> Transmits(c, slot);
      slot := slot + 1;
    }

    method SendDirection(bit: bool)
      requires slot < 3 * ROM_BITS && slot % 3 == 2
      modifies this
      ensures active == set c | c in old(active) && c[old(slot) / 3] == bit
      ensures slot == old(slot) + 1
    {
      active := set c | c in active && c[slot / 3] == bit;
      slot := slot + 1;
    }
  }

  /** Code c took the 0 branch at bit j although some code of s continues with 1 there. */
  ghost predicate IsBranch(s: set<RomCode>, c: RomCode, j: nat)
  {
    exists d :: d in s && SplitsAt(c, d, j)
  }

  /** `last` is the highest branch index of c below bit n. */
  ghost predicate IsLastBranch(s: set<RomCode>, c: RomCode, n: nat, last: int)
  {
    && 0 <= last < n
    && IsBranch(s, c, last)
    && forall j: nat :: last < j < n ==> !IsBranch(s, c, j)
  }

  ghost predicate NoBranch(s: set<RomCode>, c: RomCode, n: nat)
  {
    forall j: nat :: j < n ==> !IsBranch(s, c, j)
  }

  /** Below bit n, past the branch point, c takes 1 only where no code of s offers 0. */
  ghost predicate Leftmost(s: set<RomCode>, c: RomCode, from: int, n: nat)
  {
    forall j: nat, d :: from < j < n && d in s ==> !SplitsAt(d, c, j)
  }

  /** What the first n bits of a pass have settled; p is the previous code. */
  ghost predicate PassInv(s: set<RomCode>, p: RomCode, branchPoint: int, c: RomCode, n: nat)
  {
    && n <= ROM_BITS
    && (forall k :: n <= k < ROM_BITS ==> c[k] == p[k])
    && (forall k :: 0 <= k < n && k < branchPoint ==> c[k] == p[k])
    && (0 <= branchPoint < n ==> c[branchPoint])
    && Leftmost(s, c, branchPoint, n)
  }

  /** Either no branch was left so far, or `next` is the last one. */
  ghost predicate BranchInv(s: set<RomCode>, c: RomCode, n: nat, oldPoint: int, next: int, finished: bool)
  {
    if finished then NoBranch(s, c, n) && next == oldPoint else IsLastBranch(s, c, n, next)
  }

  /** A settled prefix keeps its branches when a bit at or above n changes. */
  lemma BranchesDependOnPrefix(s: set<RomCode>, c: RomCode, e: RomCode, n: nat)
    requires n <= ROM_BITS && Agree(c, e, n)
    ensures forall j: nat :: j < n ==> (IsBranch(s, c, j) <==> IsBranch(s, e, j))
    ensures forall from: int :: Leftmost(s, c, from, n) ==> Leftmost(s, e, from, n)
  {
    forall j: nat | j < n
      ensures IsBranch(s, c, j) <==> IsBranch(s, e, j)
    {
      forall d | d in s
        ensures SplitsAt(c, d, j) <==> SplitsAt(e, d, j)
      {
      }
    }
    forall from: int, j: nat, d | Leftmost(s, c, from, n) && from < j < n && d in s
      ensures !SplitsAt(d, e, j)
    {
      assert !SplitsAt(d, c, j);
    }
  }

  /** A complete pass lands on the successor of the previous code. */
  lemma PassFindsNext(s: set<RomCode>, hasPrevious: bool, p: RomCode, branchPoint: int, c: RomCode)
    requires c in s
    requires if hasPrevious then IsLastBranch(s, p, ROM_BITS, branchPoint) else branchPoint == -1
    requires PassInv(s, p, branchPoint, c, ROM_BITS)
    ensures IsNext(s, hasPrevious, p, c)
  {
    if hasPrevious {
      assert SplitsAt(p, c, branchPoint);
    }
    forall d | d in s && d != c && (hasPrevious ==> Less(p, d))
      ensures Less(c, d)
    {
      var k := FirstDifference(c, d, 0);
      if hasPrevious {
        var j: nat :| SplitsAt(p, d, j);
        assert j > branchPoint ==> IsBranch(s, p, j);
        assert SplitsAt(d, c, k) ==> k <= branchPoint && j <= branchPoint;
      }
      assert SplitsAt(c, d, k);
    }
  }

  lemma FinishedMeansGreatest(s: set<RomCode>, c: RomCode)
    requires NoBranch(s, c, ROM_BITS)
    ensures forall d :: d in s ==> !Less(c, d)
  {
    forall d | d in s
      ensures !Less(c, d)
    {
      if Less(c, d) {
        var j: nat :| SplitsAt(c, d, j);
        assert IsBranch(s, c, j);
      }
    }
  }

  ghost function WithPrefix(s: set<RomCode>, c: RomCode, n: nat): set<RomCode>
    requires n <= ROM_BITS
  {
    set d | d in s && Agree(c, d, n)
  }

  /** Some code in the active set has this value in bit n. */
  ghost predicate Offers(active: set<RomCode>, n: nat, bit: bool)
    requires n < ROM_BITS
  {
    exists d :: d in active && d[n] == bit
  }

  ghost predicate Discrepancy(active: set<RomCode>, n: nat)
    requires n < ROM_BITS
  {
    Offers(active, n, false) && Offers(active, n, true)
  }

  /** The direction the search takes in bit n. */
  ghost function Direction(active: set<RomCode>, branchPoint: int, c: RomCode, n: nat): bool
    requires n < ROM_BITS
  {
    if Discrepancy(active, n)
    then n == branchPoint || (n < branchPoint && c[n])
    else Offers(active, n, true)
  }

  ghost function Narrowed(active: set<RomCode>, n: nat, bit: bool): set<RomCode>
    requires n < ROM_BITS
  {
    set d | d in active && d[n] == bit
  }

  lemma DirectionKeepsPass(s: set<RomCode>, hasPrevious: bool, p: RomCode, branchPoint: int, c: RomCode, n: nat)
    requires if hasPrevious then IsLastBranch(s, p, ROM_BITS, branchPoint) else branchPoint == -1
    requires n < ROM_BITS && PassInv(s, p, branchPoint, c, n) && WithPrefix(s, c, n) != {}
    ensures var bit := Direction(WithPrefix(s, c, n), branchPoint, c, n);
            && PassInv(s, p, branchPoint, c[n := bit], n + 1)
            && Narrowed(WithPrefix(s, c, n), n, bit) != {}
  {
    var active := WithPrefix(s, c, n);
    var bit := Direction(active, branchPoint, c, n);
    var e: RomCode := c[n := bit];
    var w :| w in active;
    assert Offers(active, n, w[n]);
    if n <= branchPoint {
      var d :| d in s && SplitsAt(p, d, branchPoint);
      assert d in active;
      assert Offers(active, n, d[n]);
    }
    assert Offers(active, n, bit);
    var d :| d in active && d[n] == bit;
    assert d in Narrowed(active, n, bit);
    BranchesDependOnPrefix(s, c, e, n);
    forall j: nat, d | branchPoint < j < n + 1 && d in s
      ensures !SplitsAt(d, e, j)
    {
      assert Agree(d, e, n) ==> d in active;
    }
  }

  lemma DirectionKeepsBranches(s: set<RomCode>, c: RomCode, n: nat, bit: bool, oldPoint: int, next: int, finished: bool)
    requires n < ROM_BITS && BranchInv(s, c, n, oldPoint, next, finished)
    ensures var e: RomCode := c[n := bit];
            if !bit && Offers(WithPrefix(s, c, n), n, true)
            then IsLastBranch(s, e, n + 1, n)
            else BranchInv(s, e, n + 1, oldPoint, next, finished)
  {
    var e: RomCode := c[n := bit];
    BranchesDependOnPrefix(s, c, e, n);
    if IsBranch(s, e, n) {
      var d :| d in s && SplitsAt(e, d, n);
      assert d in WithPrefix(s, c, n);
    }
    if !bit && Offers(WithPrefix(s, c, n), n, true) {
      var d :| d in WithPrefix(s, c, n) && d[n];
      assert SplitsAt(e, d, n);
    }
  }

  lemma NarrowedPrefix(s: set<RomCode>, c: RomCode, n: nat, bit: bool)
    requires n < ROM_BITS
    ensures WithPrefix(s, c[n := bit], n + 1) == Narrowed(WithPrefix(s, c, n), n, bit)
  {
  }

  /** The wired-AND pair of slots tells which bit values are still offered. */
  lemma SlotsShowOffers(active: set<RomCode>, n: nat, a: bool, b: bool)
    requires n < ROM_BITS
    requires a <==> forall d :: d in active ==> Bus.Transmits(d, 3 * n)
    requires b <==> forall d :: d in active ==> Bus.Transmits(d, 3 * n + 1)
    ensures a <==> !Offers(active, n, false)
    ensures b <==> !Offers(active, n, true)
    ensures a && b <==> active == {}
  {
  }

  /** One bit of a pass: two reads, then a direction. */
  method SearchBit(bus: Bus, index: nat, branchPoint: int, code: RomCode, next: int, done: bool)
    returns (romcode: RomCode, nextBranchPoint: int, finished: bool, error: bool)
    requires index < ROM_BITS && bus.slot == 3 * index
    modifies bus
    ensures error <==> old(bus.active) == {}
    ensures error ==> romcode == code && nextBranchPoint == next && finished
    ensures !error ==>
      var bit := Direction(old(bus.active), branchPoint, code, index);
      && romcode == code[index := bit]
      && bus.active == Narrowed(old(bus.active), index, bit)
      && bus.slot == 3 * (index + 1)
      && (if !bit && Offers(old(bus.active), index, true)
          then !finished && nextBranchPoint == index
          else finished == done && nextBranchPoint == next)
  {
    romcode, nextBranchPoint, finished, error := code, next, done, false;
    var a := bus.ReadBit();
    var b := bus.ReadBit();
    SlotsShowOffers(bus.active, index, a, b);
    if !a && !b {
      if index == branchPoint {
        bus.SendDirection(true);
        romcode := romcode[index := true];
      } else if index > branchPoint || !romcode[index] {
        bus.SendDirection(false);
        finished := false;
        romcode := romcode[index := false];
        nextBranchPoint := index;
      } else {
        bus.SendDirection(true);
      }
    } else if a && b {
      error, finished := true, true;
    } else if !a {
      bus.SendDirection(false);
      romcode := romcode[index := false];
    } else {
      bus.SendDirection(true);
      romcode := romcode[index := true];
    }
  }

  /** One root-to-leaf walk: the body of the search loop after the search command was sent. */
  method Pass(bus: Bus, ghost hasPrevious: bool, previous: RomCode, branchPoint: int)
    returns (romcode: RomCode, nextBranchPoint: int, finished: bool, error: bool)
    requires bus.slot == 0
    requires if hasPrevious then IsLastBranch(bus.active, previous, ROM_BITS, branchPoint) else branchPoint == -1
    modifies bus
    ensures error <==> old(bus.active) == {}
    ensures !error ==> IsNext(old(bus.active), hasPrevious, previous, romcode)
    ensures !error ==> BranchInv(old(bus.active), romcode, ROM_BITS, branchPoint, nextBranchPoint, finished)
    ensures error ==> finished
  {
    ghost var s := bus.active;
    romcode, nextBranchPoint, finished, error := previous, branchPoint, true, false;
    var index := 0;
    assert bus.active == WithPrefix(s, romcode, 0);
    while index < ROM_BITS && !error
      invariant 0 <= index <= ROM_BITS
      invariant error ==> s == {} && finished
      invariant s == {} ==> index == 0 || error
      invariant !error ==> bus.slot == 3 * index
      invariant !error ==> bus.active == WithPrefix(s, romcode, index)
      invariant s != {} ==> bus.active != {}
      invariant PassInv(s, previous, branchPoint, romcode, index)
      invariant !error ==> BranchInv(s, romcode, index, branchPoint, nextBranchPoint, finished)
      decreases ROM_BITS - index, !error
    {
      ghost var code, next, done := romcode, nextBranchPoint, finished;
      romcode, nextBranchPoint, finished, error := SearchBit(bus, index, branchPoint, romcode, nextBranchPoint, finished);
      if !error {
        ghost var bit := Direction(WithPrefix(s, code, index), branchPoint, code, index);
        DirectionKeepsPass(s, hasPrevious, previous, branchPoint, code, index);
        DirectionKeepsBranches(s, code, index, bit, branchPoint, next, done);
        NarrowedPrefix(s, code, index, bit);
        index := index + 1;
      }
    }
    if !error {
      ghost var d :| d in bus.active;
      assert d == romcode;
      PassFindsNext(s, hasPrevious, previous, branchPoint, romcode);
    }
  }

  /** The number of codes a search with this limit is to find: zero means no limit. */
  function Limit(maxdevs: int, n: nat): nat
  {
    if maxdevs == 0 || n < maxdevs then n else if maxdevs < 0 then 0 else maxdevs
  }

  /** The last entry of the enumeration is the one that no pass can follow. */
  lemma FinishedMeansLast(all: seq<RomCode>, s: set<RomCode>, n: nat, oldPoint: int, next: int, finished: bool)
    requires Lists(all, s) && n < |all|
    requires BranchInv(s, all[n], ROM_BITS, oldPoint, next, finished)
    ensures finished <==> n + 1 == |all|
  {
    if finished {
      FinishedMeansGreatest(s, all[n]);
      if n + 1 < |all| {
        LaterIsGreater(all, s, n, n + 1);
      }
    } else {
      var d :| d in s && SplitsAt(all[n], d, next);
      var k := Position(all, s, d);
      LaterIsGreater(all, s, n, k);
    }
  }

  /** What holds between passes: n codes found, the last of them and its highest branch kept. */
  ghost predicate SearchInv(all: seq<RomCode>, s: set<RomCode>, n: int, code: RomCode, next: int, finished: bool)
  {
    && Lists(all, s)
    && 0 <= n <= |all|
    && (n == 0 ==> next == -1 && !finished)
    && (n > 0 ==> code == all[n - 1] && (finished <==> n == |all|))
    && (n > 0 && !finished ==> IsLastBranch(s, code, ROM_BITS, next))
  }

  lemma PassKeepsSearch(all: seq<RomCode>, s: set<RomCode>, n: int, code: RomCode, branchPoint: int,
                        romcode: RomCode, next: int, finished: bool)
    requires SearchInv(all, s, n, code, branchPoint, false)
    requires IsNext(s, n > 0, code, romcode)
    requires BranchInv(s, romcode, ROM_BITS, branchPoint, next, finished)
    ensures n < |all| && SearchInv(all, s, n + 1, romcode, next, finished)
  {
    NextIsNextEntry(all, s, n, code, romcode);
    FinishedMeansLast(all, s, n, branchPoint, next, finished);
  }

  /** One turn of the search loop up to the store: reset, command, 64 bits. */
  method SearchOnce(bus: Bus, command: SearchCommand, previous: RomCode, branchPoint: int,
                    ghost all: seq<RomCode>, ghost n: nat)
    returns (presence: bool, romcode: RomCode, nextBranchPoint: int, finished: bool, error: bool)
    requires SearchInv(all, bus.Responding(command), n, previous, branchPoint, false)
    modifies bus
    ensures presence <==> bus.present != {}
    ensures presence ==> (error <==> all == []) && (error ==> finished)
    ensures presence && !error ==>
      n < |all| && SearchInv(all, bus.Responding(command), n + 1, romcode, nextBranchPoint, finished)
  {
    romcode, nextBranchPoint, finished, error := previous, branchPoint, true, false;
    presence := bus.Reset();
    if presence {
      bus.SendCommand(command);
      romcode, nextBranchPoint, finished, error := Pass(bus, n > 0, previous, branchPoint);
      if !error {
        PassKeepsSearch(all, bus.Responding(command), n, previous, branchPoint, romcode, nextBranchPoint, finished);
      }
    }
  }

  /** The store after a pass, which has no effect without a buffer. */
  method Store(romcodes: array?<RomCode>, n: int, code: RomCode) returns (stray: bool)
    requires romcodes != null ==> n < romcodes.Length
    modifies romcodes
    ensures stray <==> romcodes != null && n < 0
    ensures romcodes != null ==> forall i :: 0 <= i < romcodes.Length ==>
      romcodes[i] == if i == n then code else old(romcodes[i])
  {
    stray := romcodes != null && n < 0;
    if romcodes != null && n >= 0 {
      romcodes[n] := code;
    }
  }

  /**
   `ow_romsearch`.  `all` is the listing of the devices that answer the command, which exists
   and is unique.  `strayStore` records that the store after a pass ran with a negative index.
   */
  method Search(bus: Bus, romcodes: array?<RomCode>, maxdevs: int, command: SearchCommand,
                ghost all: seq<RomCode>)
    returns (numFound: int, strayStore: bool)
    requires Lists(all, bus.Responding(command))
    requires romcodes != null ==> Limit(maxdevs, |all|) <= romcodes.Length
    modifies bus, romcodes
    ensures all != [] || maxdevs < 0 || bus.present == {} ==>
      && numFound == Limit(maxdevs, |all|)
      && !strayStore
    ensures all != [] && maxdevs == 0 ==> numFound == |all|
    ensures all != [] && maxdevs > 0 ==>
      numFound <= maxdevs && numFound <= |all| && (numFound == maxdevs || numFound == |all|)
    ensures all == [] && bus.present != {} && maxdevs >= 0 ==>
      numFound == -1 && strayStore == (romcodes != null)
    ensures romcodes != null ==>
      forall i :: 0 <= i < romcodes.Length ==>
        romcodes[i] == if i < Limit(maxdevs, |all|) then all[i] else old(romcodes[i])
  {
    ghost var s := bus.Responding(command);
    var romcode, nextBranchPoint, finished := ZERO_CODE, -1, false;
    numFound, strayStore := 0, false;
    while !finished && (maxdevs == 0 || numFound < maxdevs)
      invariant numFound <= Limit(maxdevs, |all|)
      invariant if numFound < 0
                then finished && all == [] && bus.present != {} && maxdevs >= 0 && numFound == -1
                else SearchInv(all, s, numFound, romcode, nextBranchPoint, finished)
      invariant strayStore == (numFound < 0 && romcodes != null)
      invariant romcodes != null ==> forall i :: 0 <= i < romcodes.Length ==>
        romcodes[i] == if i < numFound then all[i] else old(romcodes[i])
      decreases !finished, |all| - numFound
    {
      var presence, error;
      presence, romcode, nextBranchPoint, finished, error :=
        SearchOnce(bus, command, romcode, nextBranchPoint, all, numFound);
      if !presence {
        numFound := 0;
        break;
      }
      if error {
        numFound := -2;
      }
      strayStore := Store(romcodes, numFound, romcode);
      numFound := numFound + 1;
    }
  }

  /**
   The search at the end of `ds18b20_init`: one code, its count kept in eight bits, status 4
   when there is none.
   */
  method FindSensor(bus: Bus) returns (status: nat, romcode: RomCode)
    modifies bus
    ensures status == if bus.present == {} then 4 else 0
    ensures status == 0 ==> IsLeast(bus.present, romcode)
  {
    ghost var all := Enumeration(bus.present);
    EnumerationLists(bus.present);
    if bus.present != {} {
      FirstEntryIsLeast(all, bus.present);
    }
    var cell := new RomCode[1](_ => ZERO_CODE);
    var found, _ := Search(bus, cell, 1, SearchRom, all);
    var numDevs := found % 256;
    return if numDevs == 0 then 4 else 0, cell[0];
  }
}
