/**
 From boot to reboot: the settings record read from flash, edited by POST requests, written
 back and handed over to the core that triggers the watchdog.  Core 1 runs `core1_entry` and
 `httpd_ap_mode`, core 0 runs the loop of `main`; they share one flag under a mutex.
 */
module Reboot {
  import opened Bytes
  import opened CStrings
  import opened Settings
  import opened NonVolatile
  import opened PostForm
  import opened SettingsFlash

  // ----- control: where the two cores are and who has the mutex -----

  datatype NetPoint = Booting | Polling | Leaving | Writing | Locking | SettingReset | Unlocking | Done

  datatype SensorPoint = Sensing | Reading | Releasing(restart: bool) | Deciding(restart: bool) | Rebooting

  datatype Owner = Nobody | SensorCore | NetCore

  datatype Control = Control(net: NetPoint, sensor: SensorPoint, reset: bool, owner: Owner, storeFlag: bool)

  datatype Event = Post(body: seq<byte>) | Net(padding: Padding) | Sensor

  /** One step of core 1; `changed` is `settings_changed`. */
  function NetMove(c: Control, changed: bool): Control
  {
    match c.net
    case Booting => c.(net := Polling)
    case Polling => if !c.storeFlag then c else if changed then c.(net := Leaving) else c.(storeFlag := false)
    case Leaving => if c.storeFlag then c.(storeFlag := false, net := Writing) else c.(net := Done)
    case Writing => c.(net := Locking)
    case Locking => if c.owner == Nobody then c.(net := SettingReset, owner := NetCore) else c
    case SettingReset => c.(net := Unlocking, reset := true)
    case Unlocking => c.(net := Done, owner := Nobody)
    case Done => c
  }

  /** One step of core 0. */
  function SensorMove(c: Control): Control
  {
    match c.sensor
    case Sensing => if c.owner == Nobody then c.(sensor := Reading, owner := SensorCore) else c
    case Reading => c.(sensor := Releasing(c.reset), reset := false)
    case Releasing(restart) => c.(sensor := Deciding(restart), owner := Nobody)
    case Deciding(restart) => c.(sensor := if restart then Rebooting else Sensing)
    case Rebooting => c
  }

  /** A request is served only while core 1 polls. */
  function Move(c: Control, e: Event, changed: bool): Control
  {
    match e
    case Post(_) => if c.net == Polling then c.(storeFlag := true) else c
    case Net(_) => NetMove(c, changed)
    case Sensor => SensorMove(c)
  }

  // ----- the whole system -----

  datatype System = System(
    flash: seq<byte>,
    ram: Store,
    booted: seq<byte>,     // the record the boot prelude left in RAM
    posted: seq<Pair>,     // everything posted since
    c: Control)

  predicate WellSized(s: System)
  {
    |s.flash| == FLASH_SIZE && |s.ram.mem| == SIZE && |s.booted| == SIZE
  }

  /** The record after a request. */
  function AfterPost(s: System, body: seq<byte>): System
    requires |s.ram.mem| == SIZE
  {
    if s.c.net != Polling then s else
      var pairs := Pairs(CStr(body, 0));
      s.(ram := StoreAll(s.ram, pairs), posted := s.posted + pairs)
  }

  /** Flash and record after a step of core 1. */
  function AfterNet(s: System, defaults: seq<byte>, padding: Padding): System
    requires WellSized(s) && |defaults| == SIZE
  {
    match s.c.net
    case Booting =>
      var (image, flash) := Boot(s.flash, defaults, padding);
      s.(flash := flash, ram := Store(image, s.ram.changed), booted := image)
    case Writing =>
      var image := Flagged(s.ram.mem);
      s.(ram := Store(image, s.ram.changed), flash := Saved(s.flash, image, padding))
    case _ => s
  }

  function Step(s: System, e: Event, defaults: seq<byte>): (r: System)
    requires WellSized(s) && |defaults| == SIZE
    ensures WellSized(r)
  {
    var data :=
      match e
      case Post(body) => AfterPost(s, body)
      case Net(padding) => AfterNet(s, defaults, padding)
      case Sensor => s;
    data.(c := Move(s.c, e, s.ram.changed))
  }

  /** Power-on with some flash contents and some contents of RAM. */
  function PowerOn(flash: seq<byte>, ram: seq<byte>): System
  {
    System(flash, Store(ram, false), ram, [], Control(Booting, Sensing, false, Nobody, false))
  }

  function StateAt(s: System, run: seq<Event>, defaults: seq<byte>, i: nat): (r: System)
    requires WellSized(s) && |defaults| == SIZE && i <= |run|
    ensures WellSized(r)
  {
    if i == 0 then s else Step(StateAt(s, run, defaults, i - 1), run[i - 1], defaults)
  }

  // ----- what every step keeps -----

  predicate AfterWrite(p: NetPoint) { p.Locking? || p.SettingReset? || p.Unlocking? || p.Done? }

  predicate Restarting(p: SensorPoint)
  {
    (p.Releasing? && p.restart) || (p.Deciding? && p.restart) || p.Rebooting?
  }

  /** RAM is the booted record with everything posted since, and both flags are set. */
  ghost predicate Edited(ram: Store, booted: seq<byte>, posted: seq<Pair>)
  {
    && |ram.mem| == |booted| == SIZE
    && ram == StoreAll(Store(booted, false), posted)
    && Status(ram.mem) == 0
    && Status(booted) == 0
    && AllNoNul(posted)
  }

  /** What the record, the flash and the history have to do with each other while core 1 is at p. */
  ghost predicate DataInv(p: NetPoint, flash: seq<byte>, ram: Store, booted: seq<byte>, posted: seq<Pair>)
  {
    && |flash| == FLASH_SIZE && |ram.mem| == SIZE && |booted| == SIZE
    && (p == Booting ==> !ram.changed && posted == [])
    && (p != Booting ==> Edited(ram, booted, posted))
    && (p == Leaving || p == Writing || AfterWrite(p) ==> ram.changed)
    && (AfterWrite(p) ==> Stored(flash, SIZE) == ram.mem)
  }

  /** Who holds the mutex, and that the order to reboot is given after the write and never lost. */
  predicate ControlInv(c: Control)
  {
    && (c.owner == NetCore <==> c.net == SettingReset || c.net == Unlocking)
    && (c.owner == SensorCore <==> c.sensor == Reading || c.sensor.Releasing?)
    && (c.net == Leaving ==> c.storeFlag)
    && (c.reset || Restarting(c.sensor) <==> c.net == Unlocking || c.net == Done)
    && !(c.reset && Restarting(c.sensor))
    && (c.net == Writing || AfterWrite(c.net) ==> !c.storeFlag)
  }

  ghost predicate Inv(s: System)
  {
    DataInv(s.c.net, s.flash, s.ram, s.booted, s.posted) && ControlInv(s.c)
  }

  lemma MoveKeepsInv(c: Control, e: Event, changed: bool)
    requires ControlInv(c)
    ensures ControlInv(Move(c, e, changed))
  {
  }

  lemma PostKeepsInv(s: System, body: seq<byte>)
    requires Inv(s)
    ensures var r := AfterPost(s, body); DataInv(s.c.net, r.flash, r.ram, r.booted, r.posted)
  {
    if s.c.net == Polling {
      var text := CStr(body, 0);
      TokensNoNul(text);
      PairsOfNoNul(Tokens(text));
      var pairs := Pairs(text);
      StoreAllConcat(Store(s.booted, false), s.posted, pairs);
      FrameIsKept(s.ram, pairs, 0);
      assert s.ram.mem[END_FLAG..] == s.ram.mem[TEXT_END..][1..];
      assert StoreAll(s.ram, pairs).mem[END_FLAG..] == StoreAll(s.ram, pairs).mem[TEXT_END..][1..];
    }
  }

  lemma NetKeepsInv(s: System, defaults: seq<byte>, padding: Padding)
    requires Inv(s) && |defaults| == SIZE
    ensures var r := AfterNet(s, defaults, padding);
      DataInv(NetMove(s.c, s.ram.changed).net, r.flash, r.ram, r.booted, r.posted)
  {
    if s.c.net == Booting {
      BootIsDurable(s.flash, defaults, padding);
    } else if s.c.net == Writing {
      FlaggedKeepsValid(s.ram.mem);
      SavedReadsBack(s.flash, s.ram.mem, padding);
    }
  }

  lemma StepKeepsInv(s: System, e: Event, defaults: seq<byte>)
    requires Inv(s) && |defaults| == SIZE
    ensures Inv(Step(s, e, defaults))
  {
    MoveKeepsInv(s.c, e, s.ram.changed);
    match e
    case Post(body) => PostKeepsInv(s, body);
    case Net(padding) => NetKeepsInv(s, defaults, padding);
    case Sensor =>
  }

  lemma {:induction false} InvAlways(s: System, run: seq<Event>, defaults: seq<byte>, i: nat)
    requires Inv(s) && |defaults| == SIZE && i <= |run|
    ensures Inv(StateAt(s, run, defaults, i))
    decreases i
  {
    if i == 0 {
    } else {
      InvAlways(s, run, defaults, i - 1);
      StepKeepsInv(StateAt(s, run, defaults, i - 1), run[i - 1], defaults);
    }
  }

  /**
   In every run from power-on with any flash contents, core 0 reaches the watchdog reboot only
   when the flash reads back, with status 0, exactly the booted record with everything posted
   since, and something was stored; the next boot starts from that record.
   */
  lemma RebootIsDurable(flash: seq<byte>, ram: seq<byte>, run: seq<Event>, defaults: seq<byte>, i: nat, padding: Padding)
    requires |flash| == FLASH_SIZE && |ram| == SIZE && |defaults| == SIZE && i <= |run|
    requires StateAt(PowerOn(flash, ram), run, defaults, i).c.sensor == Rebooting
    ensures var s := StateAt(PowerOn(flash, ram), run, defaults, i);
            var edited := StoreAll(Store(s.booted, false), s.posted);
            && Stored(s.flash, SIZE) == edited.mem
            && Status(Stored(s.flash, SIZE)) == 0
            && edited.changed
            && Boot(s.flash, defaults, padding) == (edited.mem, s.flash)
  {
    InvAlways(PowerOn(flash, ram), run, defaults, i);
  }

  /** In every run, once core 1 has handed over, core 0 has the order to reboot in front of it or obeys it. */
  lemma HandoverIsNeverLost(flash: seq<byte>, ram: seq<byte>, run: seq<Event>, defaults: seq<byte>, i: nat)
    requires |flash| == FLASH_SIZE && |ram| == SIZE && |defaults| == SIZE && i <= |run|
    ensures var c := StateAt(PowerOn(flash, ram), run, defaults, i).c;
      c.net == Unlocking || c.net == Done ==> c.reset || Restarting(c.sensor)
  {
    InvAlways(PowerOn(flash, ram), run, defaults, i);
  }

  // ----- the reboot is reached -----

  /** A request that changed the record was finished, and core 1 has not forgotten it. */
  predicate Committed(c: Control, changed: bool)
  {
    c.net != Booting && (c.net == Polling ==> c.storeFlag && changed)
  }

  predicate NetBlocked(c: Control) { c.net == Locking && c.owner != Nobody }

  predicate SensorBlocked(c: Control) { c.sensor == Sensing && c.owner != Nobody }

  /** Steps left for core 1 until it has handed over and released the mutex. */
  function NetRank(p: NetPoint): nat
  {
    match p
    case Booting => 7
    case Polling => 6
    case Leaving => 5
    case Writing => 4
    case Locking => 3
    case SettingReset => 2
    case Unlocking => 1
    case Done => 0
  }

  /** Steps left for core 0 once the order is given. */
  function SensorRank(p: SensorPoint): nat
  {
    match p
    case Releasing(restart) => if restart then 2 else 6
    case Deciding(restart) => if restart then 1 else 5
    case Sensing => 4
    case Reading => 3
    case Rebooting => 0
  }

  /** A step of core 1 while it polls deals with a finished request: it leaves, or forgets a fruitless one. */
  lemma PollingDealsWithRequest(c: Control, changed: bool)
    requires c.net == Polling && c.storeFlag
    ensures var d := NetMove(c, changed); if changed then d.net == Leaving && d.storeFlag else d.net == Polling && !d.storeFlag
  {
  }

  /** Whoever holds the mutex is not blocked and releases it within two steps of its own. */
  lemma MutexIsReleased(c: Control, changed: bool)
    requires ControlInv(c)
    ensures c.owner == SensorCore ==> !SensorBlocked(c) && SensorMove(SensorMove(c)).owner == Nobody
    ensures c.owner == NetCore ==> !NetBlocked(c) && NetMove(NetMove(c, changed), changed).owner == Nobody
  {
  }

  /** Step i of a run as far as control is concerned; `settings_changed` is never taken back. */
  predicate MovesAt(cs: seq<Control>, run: seq<Event>, changed: seq<bool>, i: nat)
    requires i < |run| && |cs| == |changed| == |run| + 1
  {
    ControlInv(cs[i]) && cs[i + 1] == Move(cs[i], run[i], changed[i]) && (changed[i] ==> changed[i + 1])
  }

  ghost predicate Moves(cs: seq<Control>, run: seq<Event>, changed: seq<bool>)
  {
    |cs| == |changed| == |run| + 1 && forall i :: 0 <= i < |run| ==> MovesAt(cs, run, changed, i)
  }

  /** The turns of core 1 between i and j in which it was not waiting for the mutex. */
  function NetTurns(cs: seq<Control>, run: seq<Event>, i: nat, j: nat): nat
    requires j <= |run| <= |cs|
    decreases j
  {
    if j <= i then 0 else
      NetTurns(cs, run, i, j - 1) + (if run[j - 1].Net? && !NetBlocked(cs[j - 1]) then 1 else 0)
  }

  function SensorTurns(cs: seq<Control>, run: seq<Event>, i: nat, j: nat): nat
    requires j <= |run| <= |cs|
    decreases j
  {
    if j <= i then 0 else
      SensorTurns(cs, run, i, j - 1) + (if run[j - 1].Sensor? && !SensorBlocked(cs[j - 1]) then 1 else 0)
  }

  lemma CommittedMove(c: Control, e: Event, changed: bool)
    requires ControlInv(c) && Committed(c, changed)
    ensures var d := Move(c, e, changed);
      && Committed(d, changed)
      && NetRank(d.net) <= NetRank(c.net)
      && (e.Net? && !NetBlocked(c) ==> c.net == Done || NetRank(d.net) == NetRank(c.net) - 1)
  {
  }

  lemma OrderedMove(c: Control, e: Event, changed: bool)
    requires ControlInv(c) && NetRank(c.net) <= 1
    ensures var d := Move(c, e, changed);
      && NetRank(d.net) <= 1
      && SensorRank(d.sensor) <= SensorRank(c.sensor)
      && (e.Sensor? && !SensorBlocked(c) ==> c.sensor == Rebooting || SensorRank(d.sensor) == SensorRank(c.sensor) - 1)
  {
  }

  lemma {:induction false} NetArrives(cs: seq<Control>, run: seq<Event>, changed: seq<bool>, i: nat, j: nat)
    requires Moves(cs, run, changed) && i <= j <= |run| && Committed(cs[i], changed[i])
    ensures Committed(cs[j], changed[j])
    ensures cs[j].net == Done || NetRank(cs[j].net) + NetTurns(cs, run, i, j) <= 6
    decreases j
  {
    if i == j {
    } else {
      NetArrives(cs, run, changed, i, j - 1);
      assert MovesAt(cs, run, changed, j - 1);
      CommittedMove(cs[j - 1], run[j - 1], changed[j - 1]);
    }
  }

  lemma {:induction false} SensorArrives(cs: seq<Control>, run: seq<Event>, changed: seq<bool>, i: nat, j: nat)
    requires Moves(cs, run, changed) && i <= j <= |run| && NetRank(cs[i].net) <= 1
    ensures NetRank(cs[j].net) <= 1
    ensures cs[j].sensor == Rebooting || SensorRank(cs[j].sensor) + SensorTurns(cs, run, i, j) <= 6
    decreases j
  {
    if i == j {
    } else {
      SensorArrives(cs, run, changed, i, j - 1);
      assert MovesAt(cs, run, changed, j - 1);
      OrderedMove(cs[j - 1], run[j - 1], changed[j - 1]);
    }
  }

  lemma TurnsLeadToReboot(cs: seq<Control>, run: seq<Event>, changed: seq<bool>, i: nat, k: nat, j: nat)
    requires Moves(cs, run, changed) && i <= k <= j <= |run| && Committed(cs[i], changed[i])
    requires 5 <= NetTurns(cs, run, i, k) && 6 <= SensorTurns(cs, run, k, j)
    ensures cs[j].sensor == Rebooting
  {
    NetArrives(cs, run, changed, i, k);
    SensorArrives(cs, run, changed, k, j);
  }

  lemma StepsTo(s: System, run: seq<Event>, defaults: seq<byte>, i: nat)
    requires WellSized(s) && |defaults| == SIZE && i < |run|
    ensures StateAt(s, run, defaults, i + 1) == Step(StateAt(s, run, defaults, i), run[i], defaults)
  {
  }

  lemma StepMoves(s: System, e: Event, defaults: seq<byte>)
    requires WellSized(s) && |defaults| == SIZE
    ensures var r := Step(s, e, defaults); r.c == Move(s.c, e, s.ram.changed) && (s.ram.changed ==> r.ram.changed)
  {
    if e.Post? && s.c.net == Polling {
      ChangedExactly(s.ram, Pairs(CStr(e.body, 0)));
    }
  }

  /** Step i of a run of the whole system. */
  ghost predicate StepAt(states: seq<System>, run: seq<Event>, defaults: seq<byte>, i: nat)
    requires i < |run| && |states| == |run| + 1 && |defaults| == SIZE
  {
    WellSized(states[i]) && states[i + 1] == Step(states[i], run[i], defaults)
  }

  /** The states of a run that starts anywhere the invariant holds. */
  ghost predicate IsRun(states: seq<System>, run: seq<Event>, defaults: seq<byte>)
  {
    && |states| == |run| + 1 && |defaults| == SIZE && Inv(states[0])
    && forall i :: 0 <= i < |run| ==> StepAt(states, run, defaults, i)
  }

  function Controls(states: seq<System>): (cs: seq<Control>)
    ensures |cs| == |states| && forall i :: 0 <= i < |cs| ==> cs[i] == states[i].c
  {
    seq(|states|, i requires 0 <= i < |states| => states[i].c)
  }

  function Changes(states: seq<System>): (changed: seq<bool>)
    ensures |changed| == |states| && forall i :: 0 <= i < |changed| ==> changed[i] == states[i].ram.changed
  {
    seq(|states|, i requires 0 <= i < |states| => states[i].ram.changed)
  }

  lemma {:induction false} InvEverywhere(states: seq<System>, run: seq<Event>, defaults: seq<byte>, i: nat)
    requires IsRun(states, run, defaults) && i <= |run|
    ensures Inv(states[i])
    decreases i
  {
    if i == 0 {
    } else {
      InvEverywhere(states, run, defaults, i - 1);
      assert StepAt(states, run, defaults, i - 1);
      StepKeepsInv(states[i - 1], run[i - 1], defaults);
    }
  }

  lemma RunMoves(states: seq<System>, run: seq<Event>, defaults: seq<byte>)
    requires IsRun(states, run, defaults)
    ensures Moves(Controls(states), run, Changes(states))
  {
    forall i | 0 <= i < |run| ensures MovesAt(Controls(states), run, Changes(states), i) {
      InvEverywhere(states, run, defaults, i);
      assert StepAt(states, run, defaults, i);
      StepMoves(states[i], run[i], defaults);
    }
  }

  /**
   Progress in every run: once a request has changed the record, five turns of core 1 and then
   six of core 0, not counting those spent waiting for the mutex, lead to the reboot, whatever
   happens in between.
   */
  lemma RebootIsReached(states: seq<System>, run: seq<Event>, defaults: seq<byte>, i: nat, k: nat, j: nat)
    requires IsRun(states, run, defaults) && i <= k <= j <= |run|
    requires Committed(states[i].c, states[i].ram.changed)
    requires 5 <= NetTurns(Controls(states), run, i, k) && 6 <= SensorTurns(Controls(states), run, k, j)
    ensures states[j].c.sensor == Rebooting
  {
    RunMoves(states, run, defaults);
    TurnsLeadToReboot(Controls(states), run, Changes(states), i, k, j);
  }

  /** A request with some acceptable pair, served while core 1 polls, is committed. */
  lemma RequestCommits(states: seq<System>, run: seq<Event>, defaults: seq<byte>, i: nat, p: nat)
    requires IsRun(states, run, defaults) && i < |run| && run[i].Post? && states[i].c.net == Polling
    requires var pairs := Pairs(CStr(run[i].body, 0)); p < |pairs| && Accepts(FieldFrom(pairs[p].0, 0), pairs[p])
    ensures Committed(states[i + 1].c, states[i + 1].ram.changed)
  {
    assert StepAt(states, run, defaults, i);
    ChangedExactly(states[i].ram, Pairs(CStr(run[i].body, 0)));
  }

  /** The states from power-on, or from any state with the invariant, are such a run. */
  lemma StatesAreRun(s: System, run: seq<Event>, defaults: seq<byte>, states: seq<System>)
    requires Inv(s) && |defaults| == SIZE && |states| == |run| + 1
    requires forall i :: 0 <= i <= |run| ==> states[i] == StateAt(s, run, defaults, i)
    ensures IsRun(states, run, defaults)
  {
    forall i | 0 <= i < |run| ensures StepAt(states, run, defaults, i) {
      StepsTo(s, run, defaults, i);
    }
  }

  function NetMoves(c: Control, n: nat): Control
    decreases n
  {
    if n == 0 then c else NetMoves(NetMove(c, true), n - 1)
  }

  function SensorMoves(c: Control, n: nat): Control
    decreases n
  {
    if n == 0 then c else SensorMoves(SensorMove(c), n - 1)
  }

  /** The shortest way: six steps of core 1, then four of core 0. */
  lemma ShortestWay(c: Control)
    requires c.net == Polling && c.storeFlag && c.sensor == Sensing && c.owner == Nobody
    ensures SensorMoves(NetMoves(c, 6), 4).sensor == Rebooting
  {
    var locking := c.(net := Locking, storeFlag := false);
    assert NetMoves(c, 6) == NetMoves(NetMove(c, true), 5) == NetMoves(locking, 3);
    var done := locking.(net := Done, reset := true);
    assert NetMoves(locking, 3) == done;
    var releasing := done.(sensor := Releasing(true), reset := false, owner := SensorCore);
    assert SensorMoves(done, 4) == SensorMoves(releasing, 2);
  }

  // ----- from the settings page to the new network -----

  lemma {:induction false} NothingPosted(s: System, run: seq<Event>, defaults: seq<byte>, i: nat, j: nat)
    requires WellSized(s) && |defaults| == SIZE && i <= j <= |run| && forall k :: i <= k < j ==> !run[k].Post?
    ensures StateAt(s, run, defaults, j).posted == StateAt(s, run, defaults, i).posted
    decreases j
  {
    if i == j {
    } else {
      NothingPosted(s, run, defaults, i, j - 1);
      StepsTo(s, run, defaults, j - 1);
    }
  }

  lemma WholeText(body: seq<byte>)
    requires NoNul(body)
    ensures CStr(body, 0) == body
  {
    EndIsUnique(body, 0, |body|);
  }

  function CredentialsForm(ssid: seq<byte>, pass: seq<byte>): seq<byte>
  {
    Ascii("wifi_ssid=") + ssid + Ascii("&wifi_pass=") + pass
  }

  lemma FormHasNoNul(ssid: seq<byte>, pass: seq<byte>)
    requires NoNul(ssid) && NoNul(pass)
    ensures NoNul(CredentialsForm(ssid, pass))
  {
    assert NoNul(Ascii("wifi_ssid=")) && NoNul(Ascii("&wifi_pass="));
  }

  lemma LastPost(s: System, run: seq<Event>, defaults: seq<byte>, i: nat, j: nat)
    requires WellSized(s) && |defaults| == SIZE && i < j <= |run| && run[i].Post? && NoNul(run[i].body)
    requires StateAt(s, run, defaults, i).c.net == Polling && forall k :: i < k < j ==> !run[k].Post?
    ensures StateAt(s, run, defaults, j).posted == StateAt(s, run, defaults, i).posted + Pairs(run[i].body)
  {
    StepsTo(s, run, defaults, i);
    WholeText(run[i].body);
    NothingPosted(s, run, defaults, i + 1, j);
  }

  /**
   The purpose of it all: after the reboot the device starts with exactly the network name and
   password of the last request served before it.
   */
  lemma CredentialsSurviveReboot(flash: seq<byte>, ram: seq<byte>, run: seq<Event>, defaults: seq<byte>, i: nat, j: nat,
                                 ssid: seq<byte>, pass: seq<byte>, padding: Padding)
    requires |flash| == FLASH_SIZE && |ram| == SIZE && |defaults| == SIZE
    requires 0 < |ssid| < 33 && 0 < |pass| < 64 && NoNul(ssid) && NoNul(pass)
    requires AMP !in ssid && AMP !in pass && ssid[0] != DIGIT_ZERO && pass[0] != DIGIT_ZERO
    requires i < j <= |run| && run[i] == Post(CredentialsForm(ssid, pass)) && forall k :: i < k < j ==> !run[k].Post?
    requires StateAt(PowerOn(flash, ram), run, defaults, i).c.net == Polling
    requires StateAt(PowerOn(flash, ram), run, defaults, j).c.sensor == Rebooting
    ensures var image := Boot(StateAt(PowerOn(flash, ram), run, defaults, j).flash, defaults, padding).0;
      CStr(image[4..37], 0) == ssid && CStr(image[37..101], 0) == pass
  {
    var on := PowerOn(flash, ram);
    var s, earlier := StateAt(on, run, defaults, j), StateAt(on, run, defaults, i).posted;
    RebootIsDurable(flash, ram, run, defaults, j, padding);
    FormHasNoNul(ssid, pass);
    LastPost(on, run, defaults, i, j);
    var pairs, booted := Pairs(CredentialsForm(ssid, pass)), Store(s.booted, false);
    StoreAllConcat(booted, earlier, pairs);
    WifiCredentialsArrive(StoreAll(booted, earlier), ssid, pass);
  }
}
